/** The `ClientError` variants the modelled code produces or inspects. */
module Errors {
  import opened Common

  /** The opaque transport error: whether the request could not be built, and the HTTP status if any. */
  datatype HttpError = HttpError(builder: bool, status: Option<nat>)

  datatype ClientError =
    | Http(error: HttpError)
    | AuthFailed(code: nat)
    | UnexpectedResponse(message: string)
    | InvalidArgument(message: string)
    | InvalidHeaderValue
    | InvalidSession(fault: TemplateFault)
    | SseFrameTooLarge(frameLimit: nat)
    | ResponseTooLarge(actual: nat, limit: nat)
    | BlobIntegrityMismatch(expectedHex: Bytes, actualHex: Bytes)

  datatype TemplateFault = UnmatchedBrace | VariableNotSupplied(name: Bytes)
}
