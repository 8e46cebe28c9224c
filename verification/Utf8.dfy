/**
  * The verdicts of Rust's `str::from_utf8`, and the incremental decoder built on them
  * (`decode_utf8_chunk`).  A Rust `String` is modelled as the bytes of its UTF-8 encoding.
  */
module Utf8 {
  import opened Common

  // ----- One character -------------------------------------------------------------------

  /** What the validator finds at the front of a byte string. */
  datatype Step = Char(n: nat) | Incomplete | Invalid(n: nat)

  /** Length of the sequence a lead byte announces; 0 when no character starts with it. */
  function Width(lead: byte): nat {
    if lead < 0x80 then 1
    else if 0xC2 <= lead <= 0xDF then 2
    else if 0xE0 <= lead <= 0xEF then 3
    else if 0xF0 <= lead <= 0xF4 then 4
    else 0
  }

  predicate IsContinuation(b: byte) {
    0x80 <= b <= 0xBF
  }

  /** The second byte excludes overlong forms, surrogates and values past U+10FFFF. */
  predicate SecondOk(lead: byte, second: byte) {
    && IsContinuation(second)
    && (lead == 0xE0 ==> second >= 0xA0)
    && (lead == 0xED ==> second <= 0x9F)
    && (lead == 0xF0 ==> second >= 0x90)
    && (lead == 0xF4 ==> second <= 0x8F)
  }

  function ScanOne(s: Bytes): (r: Step)
    requires s != []
    ensures r.Char? ==> 1 <= r.n <= 4 && r.n <= |s| && !IsContinuation(s[0])
    ensures r.Char? ==> forall i :: 1 <= i < r.n ==> IsContinuation(s[i])
    ensures r.Invalid? ==> 1 <= r.n <= 3 && r.n <= |s|
    ensures r.Incomplete? ==> |s| <= 3 && forall i :: 0 <= i < |s| ==> s[i] >= 0x80
  {
    var w := Width(s[0]);
    if w == 0 then Invalid(1)
    else if w == 1 then Char(1)
    else if |s| == 1 then Incomplete
    else if !SecondOk(s[0], s[1]) then Invalid(1)
    else if w == 2 then Char(2)
    else if |s| == 2 then Incomplete
    else if !IsContinuation(s[2]) then Invalid(2)
    else if w == 3 then Char(3)
    else if |s| == 3 then Incomplete
    else if !IsContinuation(s[3]) then Invalid(3)
    else Char(4)
  }

  /** A verdict reached on a prefix stands, whatever arrives later. */
  lemma ScanStable(s: Bytes, t: Bytes)
    requires s != [] && !ScanOne(s).Incomplete?
    ensures ScanOne(s + t) == ScanOne(s)
  {
  }

  // ----- Whole strings -------------------------------------------------------------------

  /** `Result<&str, Utf8Error>`: `valid_up_to` and `error_len` (`None` for an incomplete tail). */
  datatype Verdict = Valid | Error(validUpTo: nat, errorLen: Option<nat>)

  function FromUtf8(s: Bytes): (v: Verdict)
    ensures v.Error? ==> v.validUpTo < |s|
    ensures v.Error? && v.errorLen.Some? ==> 1 <= v.errorLen.value <= 3 && v.validUpTo + v.errorLen.value <= |s|
  {
    if s == [] then Valid
    else match ScanOne(s) {
      case Char(n) =>
        (match FromUtf8(s[n..]) {
           case Valid => Valid
           case Error(v, e) => Error(n + v, e)
         })
      case Incomplete => Error(0, None)
      case Invalid(n) => Error(0, Some(n))
    }
  }

  predicate WellFormed(s: Bytes) {
    FromUtf8(s).Valid?
  }

  /** Length of the longest decodable prefix. */
  function ValidLength(s: Bytes): (n: nat)
    ensures n <= |s|
  {
    match FromUtf8(s) {
      case Valid => |s|
      case Error(v, _) => v
    }
  }

  lemma {:induction false} ConcatWellFormed(a: Bytes, b: Bytes)
    requires WellFormed(a)
    ensures WellFormed(a + b) <==> WellFormed(b)
  {
    if a == [] {
      assert a + b == b;
    } else {
      var n := ScanOne(a).n;
      ScanStable(a, b);
      assert (a + b)[n..] == a[n..] + b;
      ConcatWellFormed(a[n..], b);
    }
  }

  lemma {:induction false} AsciiWellFormed(s: Bytes)
    requires forall i :: 0 <= i < |s| ==> s[i] < 0x80
    ensures WellFormed(s)
  {
    if s == [] {
    } else {
      AsciiWellFormed(s[1..]);
    }
  }

  predicate StopsAs(step: Step, errorLen: Option<nat>) {
    match errorLen {
      case None => step.Incomplete?
      case Some(n) => step == Invalid(n)
    }
  }

  lemma LengthAfterChar(s: Bytes)
    requires s != [] && ScanOne(s).Char?
    ensures ValidLength(s) == ScanOne(s).n + ValidLength(s[ScanOne(s).n..])
    ensures FromUtf8(s).Error? <==> FromUtf8(s[ScanOne(s).n..]).Error?
    ensures FromUtf8(s).Error? ==> FromUtf8(s).errorLen == FromUtf8(s[ScanOne(s).n..]).errorLen
  {
  }

  lemma {:induction false} VerdictPrefix(s: Bytes)
    ensures WellFormed(s[..ValidLength(s)])
  {
    if s == [] || !ScanOne(s).Char? {
    } else {
      VerdictPrefix(s[ScanOne(s).n..]);
      LengthAfterChar(s);
      CharThenWellFormed(s, ValidLength(s));
    }
  }

  lemma {:induction false} VerdictStop(s: Bytes)
    requires FromUtf8(s).Error?
    ensures StopsAs(ScanOne(s[ValidLength(s)..]), FromUtf8(s).errorLen)
  {
    if ScanOne(s).Char? {
      var n := ScanOne(s).n;
      VerdictStop(s[n..]);
      LengthAfterChar(s);
      DropDrop(s, n, ValidLength(s[n..]));
    } else {
      assert s[0..] == s;
    }
  }

  /** The verdict points at a well-formed prefix, and at what stops the scan after it. */
  lemma VerdictMeaning(s: Bytes)
    ensures WellFormed(s[..ValidLength(s)])
    ensures FromUtf8(s).Error? ==> StopsAs(ScanOne(s[ValidLength(s)..]), FromUtf8(s).errorLen)
  {
    VerdictPrefix(s);
    if FromUtf8(s).Error? { VerdictStop(s); }
  }

  lemma CharThenWellFormed(s: Bytes, v: nat)
    requires s != [] && ScanOne(s).Char? && ScanOne(s).n <= v <= |s|
    ensures WellFormed(s[..v]) <==> WellFormed(s[ScanOne(s).n..][..v - ScanOne(s).n])
  {
    ScanStableBack(s, v);
    TakeDrop(s, v, ScanOne(s).n);
  }

  lemma ScanStableBack(s: Bytes, v: nat)
    requires s != [] && ScanOne(s).Char? && ScanOne(s).n <= v <= |s|
    ensures ScanOne(s[..v]) == ScanOne(s)
  {
  }

  /** `valid_up_to` is maximal: no longer prefix is well-formed. */
  lemma {:induction false} ValidLengthIsMaximal(s: Bytes, k: nat)
    requires k <= |s| && WellFormed(s[..k])
    ensures k <= ValidLength(s)
  {
    if k == 0 {
    } else {
      var p := s[..k];
      var n := ScanOne(p).n;
      ScanStable(p, s[k..]);
      TakeAndDrop(s, k);
      TakeDrop(s, k, n);
      ValidLengthIsMaximal(s[n..], k - n);
    }
  }

  /** `error_len` is `None` exactly when more input could still make the string valid. */
  lemma IncompleteIffCompletable(s: Bytes)
    requires !WellFormed(s)
    ensures FromUtf8(s).errorLen.None? <==> exists t :: WellFormed(s + t)
  {
    var v := ValidLength(s);
    VerdictMeaning(s);
    var tail := s[v..];
    assert s == s[..v] + tail;
    forall t
      ensures WellFormed(s + t) <==> WellFormed(tail + t)
    {
      ConcatWellFormed(s[..v], tail + t);
      assert s + t == s[..v] + (tail + t);
    }
    if ScanOne(tail).Incomplete? {
      var t := CompletionOf(tail);
      assert WellFormed(s + t);
    } else {
      forall t
        ensures !WellFormed(tail + t)
      {
        ScanStable(tail, t);
      }
    }
  }

  ghost predicate Completable(s: Bytes) {
    exists t :: WellFormed(s + t)
  }

  /**
    * The length of an invalid run does not depend on the scan: it is that of the longest prefix that could
    * still become well-formed, or one byte when there is none.
    */
  lemma RunLengthMeaning(s: Bytes)
    requires FromUtf8(s).Error? && FromUtf8(s).errorLen.Some?
    ensures var tail, n := s[ValidLength(s)..], FromUtf8(s).errorLen.value;
            && 1 <= n <= |tail|
            && (n == 1 || Completable(tail[..n]))
            && (forall k :: n < k <= |tail| ==> !Completable(tail[..k]))
            && !Completable(tail)
  {
    var tail, n := s[ValidLength(s)..], FromUtf8(s).errorLen.value;
    VerdictMeaning(s);
    if n > 1 {
      RunIsIncomplete(tail);
      var t := CompletionOf(tail[..n]);
    }
    forall k | n < k <= |tail|
      ensures !Completable(tail[..k])
    {
      RunStaysInvalid(tail, k);
      InvalidNotCompletable(tail[..k]);
    }
    InvalidNotCompletable(tail);
  }

  lemma RunIsIncomplete(tail: Bytes)
    requires tail != [] && ScanOne(tail).Invalid? && ScanOne(tail).n > 1
    ensures ScanOne(tail[..ScanOne(tail).n]).Incomplete?
  {
  }

  lemma RunStaysInvalid(tail: Bytes, k: nat)
    requires tail != [] && ScanOne(tail).Invalid? && ScanOne(tail).n < k <= |tail|
    ensures ScanOne(tail[..k]).Invalid?
  {
  }

  lemma InvalidNotCompletable(tail: Bytes)
    requires tail != [] && ScanOne(tail).Invalid?
    ensures !Completable(tail)
  {
    forall t
      ensures !WellFormed(tail + t)
    {
      ScanStable(tail, t);
    }
  }

  /** The bytes `E9 21 0A 0A`: one byte is dropped, and the text after it stays. */
  lemma OneByteRun()
    ensures var raw: Bytes := [0xE9, 0x21, 10, 10];
            FromUtf8(raw) == Error(0, Some(1)) && Pushed(raw) == [] && Kept(raw) == [0x21, 10, 10]
  {
  }

  lemma CompletionOf(tail: Bytes) returns (t: Bytes)
    requires tail != [] && ScanOne(tail).Incomplete?
    ensures WellFormed(tail + t)
  {
    var second: byte := if tail[0] == 0xE0 then 0xA0 else if tail[0] == 0xF0 then 0x90 else 0x80;
    var completion := if |tail| == 1 then [second, 0x80, 0x80] else [0x80, 0x80];
    t := completion[..Width(tail[0]) - |tail|];
    assert ScanOne(tail + t) == Char(|tail + t|);
    assert (tail + t)[|tail + t|..] == [];
  }

  lemma ScanCutShort(s: Bytes, i: nat)
    requires s != [] && ScanOne(s).Char? && 0 < i < ScanOne(s).n
    ensures ScanOne(s[..i]).Incomplete?
  {
  }

  // ----- Character boundaries ------------------------------------------------------------

  /** Rust's `str::is_char_boundary`. */
  predicate IsCharBoundary(s: Bytes, i: nat) {
    i == 0 || i == |s| || (i < |s| && !IsContinuation(s[i]))
  }

  lemma BoundaryAfterChar(s: Bytes, i: nat)
    requires WellFormed(s) && i < |s| && s != [] && ScanOne(s).n <= i
    ensures IsCharBoundary(s, i) <==> IsCharBoundary(s[ScanOne(s).n..], i - ScanOne(s).n)
  {
    var rest := s[ScanOne(s).n..];
    assert rest[i - ScanOne(s).n] == s[i];
    assert WellFormed(rest);
  }

  /** A cut after the first character is a cut of the rest. */
  lemma CutsAfterChar(s: Bytes, i: nat, n: nat)
    requires WellFormed(s) && s != [] && n == ScanOne(s).n <= i < |s|
    ensures IsCharBoundary(s, i) <==> IsCharBoundary(s[n..], i - n)
    ensures WellFormed(s[..i]) <==> WellFormed(s[n..][..i - n])
    ensures s[i..] == s[n..][i - n..]
  {
    BoundaryAfterChar(s, i);
    DropDrop(s, n, i - n);
    CharThenWellFormed(s, i);
  }

  /** On a string, the byte test is exact: it holds where, and only where, cutting leaves two strings. */
  lemma {:induction false} BoundaryCuts(s: Bytes, i: nat)
    requires WellFormed(s) && i <= |s|
    ensures IsCharBoundary(s, i) <==> WellFormed(s[..i])
    ensures IsCharBoundary(s, i) ==> WellFormed(s[i..])
  {
    if i == 0 {
      assert s[0..] == s;
    } else if i == |s| {
      assert s[..i] == s;
    } else {
      var n := ScanOne(s).n;
      if i < n {
        ScanCutShort(s, i);
      } else {
        BoundaryCuts(s[n..], i - n);
        CutsAfterChar(s, i, n);
      }
    }
  }

  /** An ASCII byte is a character of its own: both its ends are boundaries. */
  lemma AsciiCuts(s: Bytes, i: nat)
    requires WellFormed(s) && i < |s| && s[i] < 0x80
    ensures IsCharBoundary(s, i) && IsCharBoundary(s, i + 1)
  {
    BoundaryCuts(s, i);
    var rest := s[i..];
    assert rest[0] < 0x80 && ScanOne(rest) == Char(1);
    var next := rest[1..];
    assert next == s[i + 1..] && WellFormed(next);
    if next != [] {
      assert next[0] == s[i + 1] && ScanOne(next).Char?;
    }
  }

  /** `&s[i..]`, which panics off a character boundary. */
  function StrFrom(s: Bytes, i: nat): (t: Bytes)
    requires i <= |s| && IsCharBoundary(s, i)
    ensures WellFormed(s) ==> WellFormed(t)
  {
    if WellFormed(s) then BoundaryCuts(s, i); s[i..] else s[i..]
  }

  /** `&s[..i]`, which panics off a character boundary. */
  function StrTo(s: Bytes, i: nat): (t: Bytes)
    requires i <= |s| && IsCharBoundary(s, i)
    ensures WellFormed(s) ==> WellFormed(t)
  {
    if WellFormed(s) then BoundaryCuts(s, i); s[..i] else s[..i]
  }

  /** The last boundary at or before `i`. */
  function FloorBoundary(s: Bytes, i: nat): (b: nat)
    requires i <= |s|
    ensures b <= i && IsCharBoundary(s, b)
  {
    if i == 0 || IsCharBoundary(s, i) then i else FloorBoundary(s, i - 1)
  }

  /** It is at most three bytes back. */
  lemma {:induction false} FloorIsNear(s: Bytes, i: nat)
    requires WellFormed(s) && i <= |s|
    ensures i <= FloorBoundary(s, i) + 3
  {
    if i == |s| || s == [] {
    } else {
      var n := ScanOne(s).n;
      if i < n {
        assert FloorBoundary(s, 0) == 0;
      } else {
        FloorIsNear(s[n..], i - n);
        FloorAfterChar(s, i);
      }
    }
  }

  lemma {:induction false} FloorAfterChar(s: Bytes, i: nat)
    requires WellFormed(s) && s != [] && ScanOne(s).n <= i < |s|
    ensures FloorBoundary(s, i) == ScanOne(s).n + FloorBoundary(s[ScanOne(s).n..], i - ScanOne(s).n)
    decreases i
  {
    var n := ScanOne(s).n;
    BoundaryAfterChar(s, i);
    if IsCharBoundary(s, i) {
    } else {
      assert i > n;
      FloorAfterChar(s, i - 1);
    }
  }

  // ----- Code points (section 3 of RFC 3629) ---------------------------------------------

  type Scalar = c: int | 0 <= c < 0xD800 || 0xE000 <= c <= 0x10FFFF

  function EncodeScalar(c: Scalar): (s: Bytes)
    ensures 1 <= |s| <= 4
  {
    if c < 0x80 then [c as byte]
    else if c < 0x800 then [(0xC0 + c / 64) as byte, (0x80 + c % 64) as byte]
    else if c < 0x10000 then
      [(0xE0 + c / 64 / 64) as byte, (0x80 + c / 64 % 64) as byte, (0x80 + c % 64) as byte]
    else
      [(0xF0 + c / 64 / 64 / 64) as byte, (0x80 + c / 64 / 64 % 64) as byte, (0x80 + c / 64 % 64) as byte,
       (0x80 + c % 64) as byte]
  }

  function DecodeScalar(s: Bytes): (c: Scalar)
    requires s != [] && ScanOne(s).Char?
  {
    var b0 := s[0] as int;
    match ScanOne(s).n {
      case 1 => b0
      case 2 => (b0 - 0xC0) * 64 + (s[1] as int - 0x80)
      case 3 => (b0 - 0xE0) * 4096 + (s[1] as int - 0x80) * 64 + (s[2] as int - 0x80)
      case _ => (b0 - 0xF0) * 262144 + (s[1] as int - 0x80) * 4096 + (s[2] as int - 0x80) * 64
                + (s[3] as int - 0x80)
    }
  }

  function Encode(cs: seq<Scalar>): Bytes {
    if cs == [] then [] else EncodeScalar(cs[0]) + Encode(cs[1..])
  }

  function Decode(s: Bytes): (cs: seq<Scalar>)
    requires WellFormed(s)
  {
    if s == [] then [] else [DecodeScalar(s)] + Decode(s[ScanOne(s).n..])
  }

  lemma ScalarRoundTrip(c: Scalar, t: Bytes)
    ensures ScanOne(EncodeScalar(c) + t) == Char(|EncodeScalar(c)|)
    ensures DecodeScalar(EncodeScalar(c) + t) == c
  {
    var e := EncodeScalar(c);
    assert (e + t)[..|e|] == e;
    assert forall i :: 0 <= i < |e| ==> (e + t)[i] == e[i];
    ScanEncoded(c);
    ScanStable(e, t);
  }

  lemma ScanEncoded(c: Scalar)
    ensures ScanOne(EncodeScalar(c)) == Char(|EncodeScalar(c)|)
    ensures DecodeScalar(EncodeScalar(c)) == c
  {
  }

  lemma ScalarRoundTripBack(s: Bytes)
    requires s != [] && ScanOne(s).Char?
    ensures EncodeScalar(DecodeScalar(s)) == s[..ScanOne(s).n]
  {
    var c := DecodeScalar(s);
    match ScanOne(s).n {
      case 1 =>
      case 2 => assert c / 64 == s[0] as int - 0xC0;
      case 3 =>
        assert c / 64 == (s[0] as int - 0xE0) * 64 + (s[1] as int - 0x80);
        assert c / 64 / 64 == s[0] as int - 0xE0;
      case _ =>
        assert c / 64 == (s[0] as int - 0xF0) * 4096 + (s[1] as int - 0x80) * 64 + (s[2] as int - 0x80);
        assert c / 64 / 64 == (s[0] as int - 0xF0) * 64 + (s[1] as int - 0x80);
        assert c / 64 / 64 / 64 == s[0] as int - 0xF0;
    }
  }

  lemma {:induction false} EncodeThenDecode(cs: seq<Scalar>)
    ensures WellFormed(Encode(cs)) && Decode(Encode(cs)) == cs
  {
    if cs == [] {
    } else {
      var rest := Encode(cs[1..]);
      ScalarRoundTrip(cs[0], rest);
      EncodeThenDecode(cs[1..]);
      assert (EncodeScalar(cs[0]) + rest)[|EncodeScalar(cs[0])|..] == rest;
      HeadAndTail(cs);
    }
  }

  lemma {:induction false} DecodeThenEncode(s: Bytes)
    requires WellFormed(s)
    ensures Encode(Decode(s)) == s
  {
    if s == [] {
    } else {
      var n := ScanOne(s).n;
      DecodeThenEncode(s[n..]);
      EncodeFirst(s, Decode(s[n..]));
      assert s == s[..n] + s[n..];
    }
  }

  lemma EncodeFirst(s: Bytes, cs: seq<Scalar>)
    requires s != [] && ScanOne(s).Char?
    ensures Encode([DecodeScalar(s)] + cs) == s[..ScanOne(s).n] + Encode(cs)
  {
    ScalarRoundTripBack(s);
    assert ([DecodeScalar(s)] + cs)[1..] == cs;
  }

  lemma {:induction false} EncodeAppend(a: seq<Scalar>, b: seq<Scalar>)
    ensures Encode(a + b) == Encode(a) + Encode(b)
  {
    if a == [] {
      NothingBefore(b);
      NothingBefore(Encode(b));
    } else {
      DropAppend(a, b, 1);
      EncodeAppend(a[1..], b);
      Associate(EncodeScalar(a[0]), Encode(a[1..]), Encode(b));
    }
  }

  lemma DecodeAppend(a: Bytes, b: Bytes)
    requires WellFormed(a) && WellFormed(b) && WellFormed(a + b)
    ensures Decode(a + b) == Decode(a) + Decode(b)
  {
    EncodeAppend(Decode(a), Decode(b));
    DecodeThenEncode(a);
    DecodeThenEncode(b);
    EncodeThenDecode(Decode(a) + Decode(b));
  }

  /** The string ends in some characters that take `k` bytes together. */
  ghost predicate EndsInCharacters(s: Bytes, k: nat)
    requires WellFormed(s)
  {
    exists n: nat :: n <= |Decode(s)| && |Encode(Decode(s)[n..])| == k
  }

  /**
    * A position `k` bytes before the end is a boundary exactly when the string ends in characters of `k`
    * bytes together.
    */
  lemma BoundaryBeforeEndIff(s: Bytes, k: nat)
    requires WellFormed(s) && k <= |s|
    ensures IsCharBoundary(s, |s| - k) <==> EndsInCharacters(s, k)
  {
    var i := |s| - k;
    BoundaryCuts(s, i);
    if IsCharBoundary(s, i) {
      TakeAndDrop(s, i);
      DecodeAppend(s[..i], s[i..]);
      DecodeThenEncode(s[i..]);
      assert Decode(s)[|Decode(s[..i])|..] == Decode(s[i..]);
    }
    if n: nat :| n <= |Decode(s)| && |Encode(Decode(s)[n..])| == k {
      var cs := Decode(s);
      DecodeThenEncode(s);
      TakeAndDrop(cs, n);
      EncodeAppend(cs[..n], cs[n..]);
      EncodeThenDecode(cs[..n]);
      assert s[..i] == Encode(cs[..n]);
    }
  }

  /** The validator accepts exactly the encodings of sequences of Unicode scalar values. */
  lemma WellFormedIffEncoding(s: Bytes)
    ensures WellFormed(s) <==> exists cs :: Encode(cs) == s
  {
    if WellFormed(s) {
      DecodeThenEncode(s);
    }
    forall cs | Encode(cs) == s
      ensures WellFormed(s)
    {
      EncodeThenDecode(cs);
    }
  }

  // ----- Incremental decoding ------------------------------------------------------------

  /** Reference decoder for a finished stream: invalid runs and an incomplete tail are deleted. */
  function Salvage(s: Bytes): Bytes {
    if s == [] then []
    else match ScanOne(s) {
      case Char(n) => s[..n] + Salvage(s[n..])
      case Incomplete => []
      case Invalid(n) => Salvage(s[n..])
    }
  }

  /** What one `decode_utf8_chunk` call appends to `buf`. */
  function Pushed(raw: Bytes): Bytes {
    raw[..ValidLength(raw)]
  }

  /** What one `decode_utf8_chunk` call leaves in `raw`. */
  function Kept(raw: Bytes): Bytes {
    match FromUtf8(raw) {
      case Valid => []
      case Error(v, Some(n)) => raw[v + n..]
      case Error(v, None) => raw[v..]
    }
  }

  /** Nothing decodable is waiting: `raw` is empty or an unfinished character. */
  predicate Residue(raw: Bytes) {
    raw == [] || ScanOne(raw).Incomplete?
  }

  /** No invalid run: the string is well-formed, or could still become so. */
  predicate Clean(s: Bytes) {
    match FromUtf8(s) {
      case Valid => true
      case Error(_, e) => e.None?
    }
  }

  lemma {:induction false} SalvageStep(a: Bytes, t: Bytes)
    requires WellFormed(a)
    ensures Salvage(a + t) == a + Salvage(t)
  {
    if a == [] {
      assert a + t == t;
    } else {
      var n := ScanOne(a).n;
      ScanStable(a, t);
      assert (a + t)[n..] == a[n..] + t;
      assert (a + t)[..n] == a[..n];
      SalvageStep(a[n..], t);
      Rejoin(a, n, Salvage(t));
    }
  }

  lemma Rejoin(a: Bytes, n: nat, t: Bytes)
    requires n <= |a|
    ensures a[..n] + (a[n..] + t) == a + t
  {
  }

  lemma SalvageWellFormed(s: Bytes)
    requires WellFormed(s)
    ensures Salvage(s) == s
  {
    SalvageStep(s, []);
    assert s + [] == s;
  }

  lemma {:induction false} SalvageIsWellFormed(s: Bytes)
    ensures WellFormed(Salvage(s))
  {
    if s == [] {
    } else {
      match ScanOne(s) {
        case Char(n) =>
          SalvageIsWellFormed(s[n..]);
          VerdictOfOne(s);
          ConcatWellFormed(s[..n], Salvage(s[n..]));
        case Incomplete =>
        case Invalid(n) => SalvageIsWellFormed(s[n..]);
      }
    }
  }

  lemma VerdictOfOne(s: Bytes)
    requires s != [] && ScanOne(s).Char?
    ensures WellFormed(s[..ScanOne(s).n])
  {
    var n := ScanOne(s).n;
    ScanStableBack(s, n);
    assert s[..n][n..] == [];
  }

  lemma SalvageSkipsInvalid(s: Bytes, t: Bytes)
    requires s != [] && ScanOne(s).Invalid?
    ensures Salvage(s + t) == Salvage(s[ScanOne(s).n..] + t)
  {
    var n := ScanOne(s).n;
    ScanStable(s, t);
    assert (s + t)[n..] == s[n..] + t;
  }

  /** Streaming conservation: text already pushed plus what is kept decodes as the whole would have. */
  lemma DecodeConserves(raw: Bytes, future: Bytes)
    ensures Salvage(raw + future) == Pushed(raw) + Salvage(Kept(raw) + future)
    ensures WellFormed(Pushed(raw))
  {
    VerdictMeaning(raw);
    var tail := raw[ValidLength(raw)..];
    Rejoin(raw, ValidLength(raw), future);
    SalvageStep(Pushed(raw), tail + future);
    KeptSalvages(raw, future);
  }

  lemma KeptSalvages(raw: Bytes, future: Bytes)
    ensures Salvage(raw[ValidLength(raw)..] + future) == Salvage(Kept(raw) + future)
  {
    VerdictMeaning(raw);
    var tail := raw[ValidLength(raw)..];
    if FromUtf8(raw).Error? && FromUtf8(raw).errorLen.Some? {
      SalvageSkipsInvalid(tail, future);
      assert tail[FromUtf8(raw).errorLen.value..] == Kept(raw);
    } else {
      assert tail == Kept(raw);
    }
  }

  /** One call either deletes an invalid run, or loses nothing and leaves at most three bytes. */
  lemma DecodeKeepsResidue(raw: Bytes)
    ensures FromUtf8(raw).Error? && FromUtf8(raw).errorLen.Some? ==> |Pushed(raw)| + |Kept(raw)| < |raw|
    ensures Clean(raw) ==> Pushed(raw) + Kept(raw) == raw && Residue(Kept(raw)) && |Kept(raw)| <= 3
    ensures |Pushed(raw)| + |Kept(raw)| <= |raw|
  {
    VerdictMeaning(raw);
  }

  lemma CleanPrefix(a: Bytes, b: Bytes)
    requires Clean(a + b)
    ensures Clean(a)
  {
    VerdictMeaning(a);
    if !Clean(a) {
      InvalidStays(a, b);
    }
  }

  /** Once an invalid run is reached, later bytes change neither its place nor its length. */
  lemma InvalidStays(a: Bytes, b: Bytes)
    requires !Clean(a)
    ensures FromUtf8(a + b) == FromUtf8(a)
  {
    var v := ValidLength(a);
    VerdictMeaning(a);
    ScanStable(a[v..], b);
    assert FromUtf8(a[v..] + b) == Error(0, FromUtf8(a).errorLen);
    VerdictAfter(a[..v], a[v..] + b);
    Rejoin(a, v, b);
  }

  lemma {:induction false} VerdictAfter(a: Bytes, t: Bytes)
    requires WellFormed(a)
    ensures FromUtf8(a + t) == match FromUtf8(t) { case Valid => Valid case Error(v, e) => Error(|a| + v, e) }
  {
    if a == [] {
      assert a + t == t;
    } else {
      var n := ScanOne(a).n;
      ScanStable(a, t);
      assert (a + t)[n..] == a[n..] + t;
      VerdictAfter(a[n..], t);
    }
  }

  lemma CleanSuffix(a: Bytes, t: Bytes)
    requires WellFormed(a)
    ensures Clean(a + t) <==> Clean(t)
    ensures ValidLength(a + t) == |a| + ValidLength(t)
  {
    VerdictAfter(a, t);
  }
}
