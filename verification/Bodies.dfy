/** Length-exact uploads, capped downloads and their digests: stream transformers against whole-buffer checks. */
module Bodies {
  import opened Common
  import opened Errors
  import opened Hex

  type Stream<E> = seq<Result<Bytes, E>>

  // ----- Exact-length upload body --------------------------------------------------------

  /** The `std::io::Error` items of `exact_length_body`. */
  datatype UploadFault<E> = SourceFailed(error: E) | Longer(declared: nat) | Shorter(sent: nat, declared: nat)

  datatype ExactState<E> = ExactState(body: Stream<E>, sent: nat, finished: bool)

  /** The read-ahead at the declared length: empty chunks are skipped, anything else is a fault. */
  function ReadAhead<E>(declared: nat, body: Stream<E>): (Option<UploadFault<E>>, Stream<E>) {
    if body == [] then (None, [])
    else match body[0] {
      case Err(e) => (Some(SourceFailed(e)), body[1..])
      case Ok(extra) => if extra == [] then ReadAhead(declared, body[1..]) else (Some(Longer(declared)), body[1..])
    }
  }

  /** One poll of the wrapped body. */
  function ExactPoll<E>(declared: nat, st: ExactState<E>): (r: (Option<Result<Bytes, UploadFault<E>>>, ExactState<E>))
    ensures !r.1.finished ==> |r.1.body| < |st.body|
  {
    if st.finished then (None, st)
    else if st.body == [] then
      (if st.sent == declared then None else Some(Err(Shorter(st.sent, declared))), st.(finished := true))
    else match st.body[0] {
      case Err(e) => (Some(Err(SourceFailed(e))), ExactState(st.body[1..], st.sent, true))
      case Ok(chunk) =>
        var sent := st.sent + |chunk|;
        if sent > declared then (Some(Err(Longer(declared))), ExactState(st.body[1..], sent, true))
        else if sent < declared then (Some(Ok(chunk)), ExactState(st.body[1..], sent, false))
        else
          var (fault, rest) := ReadAhead(declared, st.body[1..]);
          (Some(if fault.Some? then Err(fault.value) else Ok(chunk)), ExactState(rest, sent, true))
    }
  }

  class ExactLengthBody<E> {
    const declared: nat
    var body: Stream<E>
    var sent: nat
    var finished: bool

    ghost function Model(): ExactState<E>
      reads this
    {
      ExactState(body, sent, finished)
    }

    constructor (body: Stream<E>, declared: nat)
      ensures Model() == ExactState(body, 0, false) && this.declared == declared
    {
      this.body, this.declared := body, declared;
      sent, finished := 0, false;
    }

    method Next() returns (item: Option<Result<Bytes, UploadFault<E>>>)
      modifies this
      ensures (item, Model()) == ExactPoll(declared, old(Model()))
    {
      if finished {
        return None;
      }
      if body == [] {
        finished := true;
        return if sent == declared then None else Some(Err(Shorter(sent, declared)));
      }
      var head := body[0];
      body := body[1..];
      match head {
        case Err(e) =>
          finished := true;
          return Some(Err(SourceFailed(e)));
        case Ok(chunk) =>
          sent := sent + |chunk|;
          if sent > declared {
            finished := true;
            return Some(Err(Longer(declared)));
          }
          if sent < declared {
            return Some(Ok(chunk));
          }
          finished := true;
          while body != []
            invariant finished && sent == old(sent) + |chunk|
            invariant ReadAhead(declared, body) == ReadAhead(declared, old(body)[1..])
            decreases |body|
          {
            var extra := body[0];
            body := body[1..];
            match extra {
              case Err(e) => return Some(Err(SourceFailed(e)));
              case Ok(bytes) => if bytes != [] { return Some(Err(Longer(declared))); }
            }
          }
          return Some(Ok(chunk));
      }
    }
  }

  /** Everything the wrapped body yields until it ends. */
  function ExactOutput<E>(declared: nat, st: ExactState<E>): Stream<UploadFault<E>>
    decreases !st.finished, |st.body|
  {
    var (item, next) := ExactPoll(declared, st);
    if item.None? then [] else [item.value] + ExactOutput(declared, next)
  }

  /** A consumer that polls the wrapped body to its end. */
  method CollectExact<E>(st: ExactLengthBody<E>) returns (out: Stream<UploadFault<E>>)
    modifies st
    ensures out == ExactOutput(st.declared, old(st.Model()))
  {
    out := [];
    while true
      invariant ExactOutput(st.declared, old(st.Model())) == out + ExactOutput(st.declared, st.Model())
      decreases !st.finished, |st.body|
    {
      var item := st.Next();
      if item.None? {
        return;
      }
      out := out + [item.value];
    }
  }

  /** The whole-buffer check: what is wrong with a source as the body of a request that declares its length. */
  function LengthFault<E>(declared: nat, sent: nat, body: Stream<E>): Option<UploadFault<E>> {
    var total := sent + |Received(body)|;
    if total > declared then Some(Longer(declared))
    else if Fault(body).Some? then Some(SourceFailed(Fault(body).value))
    else if total < declared then Some(Shorter(total, declared))
    else None
  }

  lemma {:induction false} ReadAheadMeaning<E>(declared: nat, body: Stream<E>)
    ensures ReadAhead(declared, body).0 == LengthFault(declared, declared, body)
  {
    if body != [] && body[0] == Ok([]) {
      ReadAheadMeaning(declared, body[1..]);
      assert Received(body) == Received(body[1..]);
    }
  }

  lemma FinishedOutput<E>(declared: nat, st: ExactState<E>)
    requires st.finished
    ensures ExactOutput(declared, st) == []
  {
  }

  lemma {:induction false} ExactOutputMeaning<E>(declared: nat, st: ExactState<E>)
    requires !st.finished && st.sent <= declared
    ensures Fault(ExactOutput(declared, st)) == LengthFault(declared, st.sent, st.body)
    ensures Received(ExactOutput(declared, st)) <= Received(st.body)
    ensures Fault(ExactOutput(declared, st)).None? ==> Received(ExactOutput(declared, st)) == Received(st.body)
    decreases |st.body|
  {
    var (item, next) := ExactPoll(declared, st);
    if next.finished {
      FinishedOutput(declared, next);
      if st.body != [] && st.body[0].Ok? && st.sent + |st.body[0].value| == declared {
        ReadAheadMeaning(declared, st.body[1..]);
      }
    } else {
      ExactOutputMeaning(declared, next);
    }
  }

  predicate OnlyLastFails<E>(items: Stream<E>) {
    forall i :: 0 <= i < |items| - 1 ==> items[i].Ok?
  }

  lemma {:induction false} ExactOutputFailsLast<E>(declared: nat, st: ExactState<E>)
    ensures OnlyLastFails(ExactOutput(declared, st))
    decreases !st.finished, |st.body|
  {
    var (item, next) := ExactPoll(declared, st);
    if item.None? {
    } else {
      ExactOutputFailsLast(declared, next);
      if next.finished { FinishedOutput(declared, next); }
    }
  }

  /**
    * For every chunking, buffering the wrapped body gives exactly the verdict of the whole-buffer
    * check: the source's bytes unchanged when it ends without error after `declared` bytes, and
    * otherwise the fault of the source.  Nothing follows an error.
    */
  lemma ExactLengthRefines<E>(declared: nat, body: Stream<E>)
    ensures Collect(ExactOutput(declared, ExactState(body, 0, false)))
         == match LengthFault(declared, 0, body) { case None => Ok(Received(body)) case Some(f) => Err(f) }
    ensures OnlyLastFails(ExactOutput(declared, ExactState(body, 0, false)))
    ensures Received(ExactOutput(declared, ExactState(body, 0, false))) <= Received(body)
  {
    ExactOutputMeaning(declared, ExactState(body, 0, false));
    ExactOutputFailsLast(declared, ExactState(body, 0, false));
  }

  lemma {:induction false} DeclaredBytesProveEnd<E>(declared: nat, st: ExactState<E>, k: nat)
    requires !st.finished && st.sent < declared
    requires k <= |ExactOutput(declared, st)|
    requires st.sent + |Received(ExactOutput(declared, st)[..k])| == declared
    ensures LengthFault(declared, st.sent, st.body).None?
    decreases |st.body|
  {
    var out := ExactOutput(declared, st);
    ExactOutputMeaning(declared, st);
    if k == 0 || out[0].Err? {
    } else {
      var next := ExactPoll(declared, st).1;
      assert out[..k][1..] == out[1..][..k - 1];
      if next.finished {
        FinishedOutput(declared, next);
      } else {
        DeclaredBytesProveEnd(declared, next, k - 1);
      }
    }
  }

  /** A consumer that stops at `declared` bytes knows the source held exactly those. */
  ghost predicate StoppingIsSafe<E(!new)>(declared: nat) {
    forall body: Stream<E>, k: nat ::
      k <= |ExactOutput(declared, ExactState(body, 0, false))|
      && |Received(ExactOutput(declared, ExactState(body, 0, false))[..k])| == declared
      ==> LengthFault(declared, 0, body).None?
  }

  /** hyper stops polling at `declared` bytes; that hides no further byte exactly when `declared` is not 0. */
  lemma StoppingIsSafeIff<E(!new)>(declared: nat)
    ensures StoppingIsSafe<E>(declared) <==> declared > 0
  {
    if declared > 0 {
      forall body: Stream<E>, k: nat |
        k <= |ExactOutput(declared, ExactState(body, 0, false))|
        && |Received(ExactOutput(declared, ExactState(body, 0, false))[..k])| == declared
        ensures LengthFault(declared, 0, body).None?
      {
        DeclaredBytesProveEnd(declared, ExactState(body, 0, false), k);
      }
    } else {
      var body: Stream<E> := [Ok([1])];
      var out := ExactOutput(0, ExactState(body, 0, false));
      assert out[..0] == [];
      assert Received(body) == [1] + Received(body[1..]);
      assert LengthFault(0, 0, body).Some?;
    }
  }

  // ----- Digests -------------------------------------------------------------------------

  /** An incremental hash. */
  datatype Hasher<!H> = Hasher(init: H, update: (H, Bytes) -> H, finalize: H -> Bytes)

  /** Hashing in pieces hashes the whole. */
  ghost predicate Lawful<H(!new)>(h: Hasher<H>) {
    && (forall s: H :: h.update(s, []) == s)
    && (forall s: H, a, b :: h.update(h.update(s, a), b) == h.update(s, a + b))
  }

  /** `compute_sha256_hex` of the whole data. */
  function HexDigest<H>(h: Hasher<H>, data: Bytes): Bytes {
    HexOf(h.finalize(h.update(h.init, data)))
  }

  /** The tally that `upload_blob_stream` keeps while its body is sent. */
  class UploadTally<H> {
    const h: Hasher<H>
    var hasher: H
    var count: nat

    constructor (h: Hasher<H>)
      ensures this.h == h && hasher == h.init && count == 0
    {
      this.h := h;
      hasher, count := h.init, 0;
    }

    method Inspect<E>(item: Result<Bytes, E>)
      modifies this
      ensures (hasher, count) == TallyStep(h, (old(hasher), old(count)), item)
    {
      match item {
        case Ok(bytes) =>
          hasher := h.update(hasher, bytes);
          count := count + |bytes|;
        case Err(_) =>
      }
    }
  }

  function TallyStep<H, E>(h: Hasher<H>, tally: (H, nat), item: Result<Bytes, E>): (H, nat) {
    match item {
      case Ok(bytes) => (h.update(tally.0, bytes), tally.1 + |bytes|)
      case Err(_) => tally
    }
  }

  function Tally<H, E>(h: Hasher<H>, tally: (H, nat), items: Stream<E>): (H, nat)
    decreases |items|
  {
    if items == [] then tally else Tally(h, TallyStep(h, tally, items[0]), items[1..])
  }

  /** The request body passes every item it forwards through the tally. */
  method InspectAll<H, E>(st: UploadTally<H>, items: Stream<E>)
    modifies st
    ensures (st.hasher, st.count) == Tally(st.h, (old(st.hasher), old(st.count)), items)
  {
    var rest := items;
    while rest != []
      invariant Tally(st.h, (st.hasher, st.count), rest) == Tally(st.h, (old(st.hasher), old(st.count)), items)
      decreases |rest|
    {
      st.Inspect(rest[0]);
      rest := rest[1..];
    }
  }

  lemma {:induction false} TallyMeaning<H(!new), E>(h: Hasher<H>, tally: (H, nat), items: Stream<E>)
    requires Lawful(h) && OnlyLastFails(items)
    ensures Tally(h, tally, items) == (h.update(tally.0, Received(items)), tally.1 + |Received(items)|)
    decreases |items|
  {
    if items == [] {
    } else {
      TallyMeaning(h, TallyStep(h, tally, items[0]), items[1..]);
      if items[0].Err? { assert items[1..] == []; }
    }
  }

  datatype UploadResponse = UploadResponse(size: nat, sha256: Option<Bytes>)

  /** `verify_upload_response`. */
  function VerifyUpload(resp: UploadResponse, localSize: nat, localHex: Bytes): Result<(), ClientError> {
    if resp.size != localSize then Err(UnexpectedResponse("blob upload size mismatch"))
    else if resp.sha256.Some? && localHex != resp.sha256.value then
      Err(BlobIntegrityMismatch(localHex, resp.sha256.value))
    else Ok(())
  }

  /** The body given to the HTTP client: wrapped when a length is declared. */
  function UploadBody<E>(declared: Option<nat>, body: Stream<E>): Stream<UploadFault<E>> {
    match declared {
      case Some(n) => ExactOutput(n, ExactState(body, 0, false))
      case None => AsIs(body)
    }
  }

  function AsIs<E>(body: Stream<E>): Stream<UploadFault<E>> {
    if body == [] then []
    else [match body[0] { case Ok(chunk) => Ok(chunk) case Err(e) => Err(SourceFailed(e)) }] + AsIs(body[1..])
  }

  /**
    * The client has sent the whole request after pulling `k` items: it stops at the declared length, and
    * reads to the end without one.  A fault aborts the request instead.
    */
  predicate FullySent<E>(declared: Option<nat>, out: Stream<E>, k: nat) {
    k <= |out|
    && match declared {
         case Some(n) => |Received(out[..k])| == n && (n == 0 ==> Fault(out[..k]).None?)
         case None => k == |out| && Fault(out).None?
       }
  }

  /** What `upload_blob_stream` concludes from the items the client pulled. */
  function StreamedUpload<H, E>(h: Hasher<H>, pulled: Stream<E>, resp: UploadResponse): Result<(), ClientError> {
    var tally := Tally(h, (h.init, 0), pulled);
    VerifyUpload(resp, tally.1, HexOf(h.finalize(tally.0)))
  }

  lemma {:induction false} ReceivedPrefix<E>(items: Stream<E>, k: nat)
    requires k <= |items|
    ensures Received(items[..k]) <= Received(items)
  {
    if k == 0 || items[0].Err? {
    } else {
      assert items[..k][1..] == items[1..][..k - 1];
      ReceivedPrefix(items[1..], k - 1);
    }
  }

  lemma {:induction false} AsIsMeaning<E>(body: Stream<E>)
    ensures Received(AsIs(body)) == Received(body) && (Fault(AsIs(body)).None? <==> Fault(body).None?)
  {
    if body == [] {
    } else {
      AsIsMeaning(body[1..]);
    }
  }

  /** A fully sent request carried the whole source, unless its declared length is 0. */
  lemma FullySentIsWhole<E>(declared: Option<nat>, body: Stream<E>, k: nat)
    requires FullySent(declared, UploadBody(declared, body), k)
    ensures OnlyLastFails(UploadBody(declared, body)[..k])
    ensures declared != Some(0) ==> Fault(body).None? && Received(UploadBody(declared, body)[..k]) == Received(body)
  {
    var out := UploadBody(declared, body);
    match declared {
      case Some(n) =>
        ExactLengthRefines(n, body);
        if n > 0 {
          DeclaredBytesProveEnd(n, ExactState(body, 0, false), k);
          ReceivedPrefix(out, k);
        }
      case None =>
        AsIsMeaning(body);
        NoFaultNoErr(out);
        assert out[..k] == out;
    }
  }

  /**
    * However the source is chunked and wherever the client stops pulling: streaming reaches the verdict of
    * the buffered `upload_blob` on the bytes that were sent, and unless the declared length is 0 these are
    * all bytes of the source.
    */
  lemma StreamedUploadRefines<H(!new), E>(h: Hasher<H>, declared: Option<nat>, body: Stream<E>, k: nat,
                                          resp: UploadResponse)
    requires Lawful(h) && FullySent(declared, UploadBody(declared, body), k)
    ensures var sent := Received(UploadBody(declared, body)[..k]);
            var verdict := StreamedUpload(h, UploadBody(declared, body)[..k], resp);
            && verdict == VerifyUpload(resp, |sent|, HexDigest(h, sent))
            && (verdict.Ok? <==>
                  resp.size == |sent| && (resp.sha256.Some? ==> resp.sha256.value == HexDigest(h, sent)))
            && (verdict.Err? && resp.size == |sent| ==>
                  verdict == Err(BlobIntegrityMismatch(HexDigest(h, sent), resp.sha256.value)))
            && (resp.size != |sent| ==> verdict.Err? && verdict.error.UnexpectedResponse?)
            && (declared != Some(0) ==> Fault(body).None? && sent == Received(body))
  {
    FullySentIsWhole(declared, body, k);
    TallyMeaning(h, (h.init, 0), UploadBody(declared, body)[..k]);
  }

  lemma {:induction false} NoFaultNoErr<E>(items: Stream<E>)
    requires Fault(items).None?
    ensures forall i :: 0 <= i < |items| ==> items[i].Ok?
  {
    if items == [] {
    } else {
      NoFaultNoErr(items[1..]);
      assert forall i :: 1 <= i < |items| ==> items[i] == items[1..][i - 1];
    }
  }

  // ----- Capped bodies -------------------------------------------------------------------

  function CappedFrom(got: Bytes, body: Stream<HttpError>, limit: nat): Result<Bytes, ClientError>
    decreases |body|
  {
    if body == [] then Ok(got)
    else match body[0] {
      case Err(e) => Err(Http(e))
      case Ok(chunk) =>
        if |got| + |chunk| > limit then Err(ResponseTooLarge(|got| + |chunk|, limit))
        else CappedFrom(got + chunk, body[1..], limit)
    }
  }

  function CappedBody(advertised: Option<nat>, body: Stream<HttpError>, limit: nat): Result<Bytes, ClientError> {
    if advertised.Some? && advertised.value > limit then Err(ResponseTooLarge(advertised.value, limit))
    else CappedFrom([], body, limit)
  }

  method ReadCappedBody(advertised: Option<nat>, body: Stream<HttpError>, limit: nat)
    returns (r: Result<Bytes, ClientError>)
    ensures r == CappedBody(advertised, body, limit)
  {
    if advertised.Some? && advertised.value > limit {
      return Err(ResponseTooLarge(advertised.value, limit));
    }
    var stream := body;
    var data: Bytes := [];
    while stream != []
      invariant CappedFrom(data, stream, limit) == CappedFrom([], body, limit)
      decreases |stream|
    {
      match stream[0] {
        case Err(e) => return Err(Http(e));
        case Ok(chunk) =>
          var newLen := |data| + |chunk|;
          if newLen > limit {
            return Err(ResponseTooLarge(newLen, limit));
          }
          data := data + chunk;
          stream := stream[1..];
      }
    }
    return Ok(data);
  }

  /** Chunk `k` is the first to exceed the limit, and brings the total to `n`. */
  ghost predicate Crosses(got: Bytes, body: Stream<HttpError>, limit: nat, k: nat, n: nat) {
    k < |body| && |got + Received(body[..k])| <= limit < n && n == |got + Received(body[..k + 1])|
  }

  /**
    * The body is accepted exactly when it ends without error within the limit; a transport error is
    * reported exactly when it comes first; otherwise the total at the crossing chunk is.
    */
  lemma {:induction false} CappedMeaning(got: Bytes, body: Stream<HttpError>, limit: nat)
    requires |got| <= limit
    ensures var all := got + Received(body);
            match CappedFrom(got, body, limit) {
              case Ok(data) => |all| <= limit && Fault(body).None? && data == all
              case Err(Http(e)) => |all| <= limit && Fault(body) == Some(e)
              case Err(ResponseTooLarge(n, l)) => l == limit < |all| && exists k :: Crosses(got, body, limit, k, n)
              case Err(_) => false
            }
    decreases |body|
  {
    if body == [] || body[0].Err? {
      assert got + [] == got;
    } else {
      var chunk, rest := body[0].value, body[1..];
      assert got + chunk + Received(rest) == got + (chunk + Received(rest));
      if |got| + |chunk| <= limit {
        CappedMeaning(got + chunk, rest, limit);
        CrossesLater(got, body, limit);
      } else {
        assert body[..0] == [] && body[..1] == [body[0]] && [body[0]][1..] == [];
        assert Received(body[..1]) == chunk + Received([body[0]][1..]);
        assert Crosses(got, body, limit, 0, |got| + |chunk|);
      }
    }
  }

  /**
    * The whole of `read_capped_body`: an advertised length beyond the limit is reported as it is; otherwise
    * the body decides, and an excess is reported with the total at the chunk that crosses the limit.
    */
  lemma CappedBodyMeaning(advertised: Option<nat>, body: Stream<HttpError>, limit: nat)
    ensures var all := Received(body);
            var tooLong := advertised.Some? && advertised.value > limit;
            match CappedBody(advertised, body, limit) {
              case Ok(data) => !tooLong && |all| <= limit && Fault(body).None? && data == all
              case Err(Http(e)) => !tooLong && |all| <= limit && Fault(body) == Some(e)
              case Err(ResponseTooLarge(n, l)) =>
                l == limit < n
                && if tooLong then n == advertised.value
                   else |all| > limit && exists k :: Crosses([], body, limit, k, n)
              case Err(_) => false
            }
  {
    CappedMeaning([], body, limit);
    NothingBefore(Received(body));
  }

  lemma CrossesLater(got: Bytes, body: Stream<HttpError>, limit: nat)
    requires body != [] && body[0].Ok?
    ensures forall k: nat, n: nat :: Crosses(got + body[0].value, body[1..], limit, k, n) ==>
                                       Crosses(got, body, limit, k + 1, n)
  {
    forall k: nat, n: nat | Crosses(got + body[0].value, body[1..], limit, k, n)
      ensures Crosses(got, body, limit, k + 1, n)
    {
      ReceivedFirst(got, body, k);
      ReceivedFirst(got, body, k + 1);
    }
  }

  lemma ReceivedFirst(got: Bytes, body: Stream<HttpError>, k: nat)
    requires body != [] && body[0].Ok? && k < |body|
    ensures got + Received(body[..k + 1]) == got + body[0].value + Received(body[1..][..k])
  {
    assert body[..k + 1][1..] == body[1..][..k];
    assert got + (body[0].value + Received(body[1..][..k])) == got + body[0].value + Received(body[1..][..k]);
  }

  // ----- Streaming download --------------------------------------------------------------

  /** `verify_download_digest`. */
  function VerifyDownload(expected: Bytes, actual: Bytes): Result<(), ClientError> {
    if actual == expected then Ok(()) else Err(BlobIntegrityMismatch(expected, actual))
  }

  /** The buffered `download_blob`. */
  function DownloadBlob<H>(h: Hasher<H>, advertised: Option<nat>, body: Stream<HttpError>, limit: nat,
                           expected: Option<Bytes>)
    : Result<Bytes, ClientError>
  {
    match CappedBody(advertised, body, limit) {
      case Err(e) => Err(e)
      case Ok(data) => CheckDigest(h, data, expected)
    }
  }

  function CheckDigest<H>(h: Hasher<H>, data: Bytes, expected: Option<Bytes>): Result<Bytes, ClientError> {
    if expected.None? then Ok(data)
    else match VerifyDownload(expected.value, HexDigest(h, data)) {
      case Ok(_) => Ok(data)
      case Err(e) => Err(e)
    }
  }

  datatype Download<H> = Download(body: Stream<HttpError>, verify: Option<(H, Bytes)>, received: nat, done: bool)

  /** One poll; the fused stream stays ended after its last item. */
  function DownloadPoll<H>(h: Hasher<H>, limit: nat, st: Download<H>)
    : (r: (Option<Result<Bytes, ClientError>>, Download<H>))
    ensures !r.1.done ==> |r.1.body| < |st.body|
  {
    if st.done then (None, st)
    else if st.body == [] then
      (if st.verify.None? then None
       else match VerifyDownload(st.verify.value.1, HexOf(h.finalize(st.verify.value.0))) {
         case Ok(_) => None
         case Err(e) => Some(Err(e))
       },
       st.(verify := None, done := true))
    else match st.body[0] {
      case Err(e) => (Some(Err(Http(e))), st.(body := st.body[1..], done := true))
      case Ok(chunk) =>
        var received := st.received + |chunk|;
        if received > limit then
          (Some(Err(ResponseTooLarge(received, limit))), st.(body := st.body[1..], received := received, done := true))
        else
          var verify := if st.verify.None? then None
                        else Some((h.update(st.verify.value.0, chunk), st.verify.value.1));
          (Some(Ok(chunk)), Download(st.body[1..], verify, received, false))
    }
  }

  class DownloadState<H> {
    const h: Hasher<H>
    const limit: nat
    var body: Stream<HttpError>
    var verify: Option<(H, Bytes)>
    var received: nat
    var done: bool

    ghost function Model(): Download<H>
      reads this
    {
      Download(body, verify, received, done)
    }

    constructor (h: Hasher<H>, body: Stream<HttpError>, limit: nat, expected: Option<Bytes>)
      ensures this.h == h && this.limit == limit && Model() == StartDownload(h, body, expected)
    {
      this.h, this.limit, this.body := h, limit, body;
      verify := if expected.None? then None else Some((h.init, expected.value));
      received, done := 0, false;
    }

    method Next() returns (item: Option<Result<Bytes, ClientError>>)
      modifies this
      ensures (item, Model()) == DownloadPoll(h, limit, old(Model()))
    {
      if done {
        return None;
      }
      var err: ClientError;
      if body != [] {
        var head := body[0];
        body := body[1..];
        match head {
          case Ok(chunk) =>
            received := received + |chunk|;
            if received <= limit {
              if verify.Some? {
                verify := Some((h.update(verify.value.0, chunk), verify.value.1));
              }
              return Some(Ok(chunk));
            }
            err := ResponseTooLarge(received, limit);
          case Err(e) =>
            err := Http(e);
        }
      } else {
        done := true;
        if verify.None? {
          return None;
        }
        var (hasher, expected) := verify.value;
        verify := None;
        var actual := HexLower(h.finalize(hasher));
        match VerifyDownload(expected, actual) {
          case Ok(_) => return None;
          case Err(e) => err := e;
        }
      }
      done := true;
      return Some(Err(err));
    }
  }

  function StartDownload<H>(h: Hasher<H>, body: Stream<HttpError>, expected: Option<Bytes>): Download<H> {
    Download(body, if expected.None? then None else Some((h.init, expected.value)), 0, false)
  }

  function DownloadOutput<H>(h: Hasher<H>, limit: nat, st: Download<H>): Stream<ClientError>
    decreases !st.done, |st.body|
  {
    var (item, next) := DownloadPoll(h, limit, st);
    if item.None? then [] else [item.value] + DownloadOutput(h, limit, next)
  }

  /** A consumer that polls the download to its end. */
  method CollectDownload<H>(st: DownloadState<H>) returns (out: Stream<ClientError>)
    modifies st
    ensures out == DownloadOutput(st.h, st.limit, old(st.Model()))
  {
    out := [];
    while true
      invariant DownloadOutput(st.h, st.limit, old(st.Model())) == out + DownloadOutput(st.h, st.limit, st.Model())
      decreases !st.done, |st.body|
    {
      var item := st.Next();
      if item.None? {
        return;
      }
      out := out + [item.value];
    }
  }

  /** `download_blob_stream`: the advertised length is checked first, then the stream is handed out. */
  function OpenDownload<H>(h: Hasher<H>, advertised: Option<nat>, body: Stream<HttpError>, limit: nat,
                           expected: Option<Bytes>)
    : Result<Stream<ClientError>, ClientError>
  {
    if advertised.Some? && advertised.value > limit then Err(ResponseTooLarge(advertised.value, limit))
    else Ok(DownloadOutput(h, limit, StartDownload(h, body, expected)))
  }

  /** The state after `got`: what was received so far, and its running hash when a digest is expected. */
  ghost predicate HoldsPrefix<H>(h: Hasher<H>, st: Download<H>, got: Bytes, expected: Option<Bytes>) {
    && !st.done && st.received == |got|
    && st.verify == if expected.None? then None else Some((h.update(h.init, got), expected.value))
  }

  function AndThen(got: Bytes, rest: Result<Bytes, ClientError>): Result<Bytes, ClientError> {
    match rest {
      case Ok(data) => Ok(got + data)
      case Err(e) => Err(e)
    }
  }

  function Buffered<H>(h: Hasher<H>, got: Bytes, body: Stream<HttpError>, limit: nat, expected: Option<Bytes>)
    : Result<Bytes, ClientError>
  {
    match CappedFrom(got, body, limit) {
      case Err(e) => Err(e)
      case Ok(data) => CheckDigest(h, data, expected)
    }
  }

  lemma DoneOutput<H>(h: Hasher<H>, limit: nat, st: Download<H>)
    requires st.done
    ensures DownloadOutput(h, limit, st) == []
  {
  }

  lemma {:induction false} DownloadMeaning<H(!new)>(h: Hasher<H>, limit: nat, st: Download<H>, got: Bytes,
                                                    expected: Option<Bytes>)
    requires Lawful(h) && HoldsPrefix(h, st, got, expected) && |got| <= limit
    ensures AndThen(got, Collect(DownloadOutput(h, limit, st))) == Buffered(h, got, st.body, limit, expected)
    ensures |got + Received(DownloadOutput(h, limit, st))| <= limit
    ensures OnlyLastFails(DownloadOutput(h, limit, st))
    decreases |st.body|
  {
    var (item, next) := DownloadPoll(h, limit, st);
    if next.done {
      DoneOutput(h, limit, next);
      DownloadStops(h, limit, st, got, expected);
    } else {
      DownloadGoesOn(h, limit, st, got, expected);
      DownloadMeaning(h, limit, next, got + st.body[0].value, expected);
      AndThenTwice(got, st.body[0].value, DownloadOutput(h, limit, next));
    }
  }

  lemma DownloadStops<H>(h: Hasher<H>, limit: nat, st: Download<H>, got: Bytes, expected: Option<Bytes>)
    requires HoldsPrefix(h, st, got, expected) && DownloadPoll(h, limit, st).1.done
    ensures var item := DownloadPoll(h, limit, st).0;
            && AndThen(got, Collect(if item.None? then [] else [item.value]))
               == Buffered(h, got, st.body, limit, expected)
            && (item.Some? ==> item.value.Err?)
  {
    assert got + [] == got;
  }

  lemma DownloadGoesOn<H(!new)>(h: Hasher<H>, limit: nat, st: Download<H>, got: Bytes, expected: Option<Bytes>)
    requires Lawful(h) && HoldsPrefix(h, st, got, expected) && !DownloadPoll(h, limit, st).1.done
    ensures st.body != [] && st.body[0].Ok?
    ensures var (item, next) := DownloadPoll(h, limit, st);
            var more := got + st.body[0].value;
            && item == Some(Ok(st.body[0].value)) && next.body == st.body[1..]
            && HoldsPrefix(h, next, more, expected) && |more| <= limit
            && Buffered(h, got, st.body, limit, expected) == Buffered(h, more, next.body, limit, expected)
  {
  }

  lemma AndThenTwice(got: Bytes, chunk: Bytes, rest: Stream<ClientError>)
    ensures AndThen(got, Collect([Ok(chunk)] + rest)) == AndThen(got + chunk, Collect(rest))
    ensures got + Received([Ok(chunk)] + rest) == got + chunk + Received(rest)
    ensures OnlyLastFails(rest) ==> OnlyLastFails([Ok(chunk)] + rest)
  {
    var items := [Ok(chunk)] + rest;
    assert items[1..] == rest;
    assert got + (chunk + Received(rest)) == got + chunk + Received(rest);
  }

  /**
    * For every chunking, advertised length, limit and expected digest, buffering the streaming download
    * gives exactly the result of the buffered one: the same bytes, or the same error with the same
    * numbers.  The bytes yielded never exceed the limit and nothing follows an error.
    */
  lemma StreamingDownloadRefines<H(!new)>(h: Hasher<H>, advertised: Option<nat>, body: Stream<HttpError>, limit: nat,
                                          expected: Option<Bytes>)
    requires Lawful(h)
    ensures match OpenDownload(h, advertised, body, limit, expected) {
              case Err(e) => DownloadBlob(h, advertised, body, limit, expected) == Err(e)
              case Ok(out) =>
                DownloadBlob(h, advertised, body, limit, expected) == Collect(out)
                && |Received(out)| <= limit && OnlyLastFails(out)
            }
  {
    var st := StartDownload(h, body, expected);
    DownloadMeaning(h, limit, st, [], expected);
    var out := DownloadOutput(h, limit, st);
    assert [] + Received(out) == Received(out);
  }

  /**
    * The buffered download in terms of the bytes the server sent: it succeeds exactly when nothing is
    * too large, nothing fails and the digest matches, and it then returns those bytes.
    */
  lemma DownloadBlobMeaning<H>(h: Hasher<H>, advertised: Option<nat>, body: Stream<HttpError>, limit: nat,
                               expected: Option<Bytes>)
    ensures var all := Received(body);
            var tooLong := advertised.Some? && advertised.value > limit;
            match DownloadBlob(h, advertised, body, limit, expected) {
              case Ok(data) =>
                && !tooLong && |all| <= limit && Fault(body).None? && data == all
                && (expected.Some? ==> expected.value == HexDigest(h, all))
              case Err(BlobIntegrityMismatch(e, a)) =>
                && !tooLong && |all| <= limit && Fault(body).None?
                && expected == Some(e) && a == HexDigest(h, all) && a != e
              case Err(Http(e)) => !tooLong && |all| <= limit && Fault(body) == Some(e)
              case Err(ResponseTooLarge(n, l)) =>
                l == limit < n
                && if tooLong then n == advertised.value
                   else |all| > limit && exists k :: Crosses([], body, limit, k, n)
              case Err(_) => false
            }
  {
    CappedBodyMeaning(advertised, body, limit);
  }
}
