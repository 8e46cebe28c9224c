/** Streams with invalid runs, when every chunk brings at least one byte. */
module NonEmptyChunks {
  import opened Common
  import opened Utf8
  import opened Delimiters
  import opened SseStream
  import opened StreamTheorems
  import opened StreamCaps

  // ----- What a decoder has consumed -----------------------------------------------------

  /** `b` is what is left of `a` after some whole characters and whole invalid runs. */
  predicate Ahead(b: Bytes, a: Bytes)
    decreases |a|
  {
    b == a || (a != [] && !ScanOne(a).Incomplete? && Ahead(b, a[ScanOne(a).n..]))
  }

  lemma {:induction false} AheadTwice(c: Bytes, b: Bytes, a: Bytes)
    requires Ahead(c, b) && Ahead(b, a)
    ensures Ahead(c, a)
    decreases |a|
  {
    if b == a {
    } else {
      AheadTwice(c, b, a[ScanOne(a).n..]);
    }
  }

  lemma {:induction false} AheadAppend(b: Bytes, a: Bytes, x: Bytes)
    requires Ahead(b, a)
    ensures Ahead(b + x, a + x)
    decreases |a|
  {
    if b == a {
    } else {
      var n := ScanOne(a).n;
      ScanStable(a, x);
      DropAppend(a, x, n);
      AheadAppend(b, a[n..], x);
    }
  }

  /** One call consumes whole characters and at most one invalid run. */
  lemma {:induction false} KeptIsAhead(s: Bytes)
    ensures Ahead(Kept(s), s)
    decreases |s|
  {
    if s == [] {
    } else if ScanOne(s).Char? {
      KeptAfterChar(s);
      KeptIsAhead(s[ScanOne(s).n..]);
    } else {
      assert s[0..] == s;
    }
  }

  /** The length of what one call consumes. */
  function Used(s: Bytes): (n: nat)
    ensures n <= |s|
  {
    match FromUtf8(s) {
      case Valid => |s|
      case Error(v, None) => v
      case Error(v, Some(k)) => v + k
    }
  }

  lemma KeptIsRest(s: Bytes)
    ensures Kept(s) == s[Used(s)..]
  {
  }

  lemma KeptAfterChar(s: Bytes)
    requires s != [] && ScanOne(s).Char?
    ensures Kept(s) == Kept(s[ScanOne(s).n..])
  {
    var n := ScanOne(s).n;
    KeptIsRest(s);
    KeptIsRest(s[n..]);
    DropDrop(s, n, Used(s[n..]));
  }

  /** A decoder that is ahead stays ahead when both decode once. */
  lemma {:induction false} KeptStaysAhead(b: Bytes, a: Bytes)
    requires Ahead(b, a)
    ensures Ahead(Kept(b), Kept(a))
    decreases |a|
  {
    if b == a {
    } else {
      var rest := a[ScanOne(a).n..];
      if ScanOne(a).Char? {
        KeptAfterChar(a);
        KeptStaysAhead(b, rest);
      } else {
        assert Kept(a) == rest;
        KeptIsAhead(b);
        AheadTwice(Kept(b), b, rest);
      }
    }
  }

  /** What lies between was decoded, and the rest decodes alike. */
  lemma {:induction false} SalvageAhead(b: Bytes, a: Bytes) returns (text: Bytes)
    requires Ahead(b, a)
    ensures Salvage(a) == text + Salvage(b)
    decreases |a|
  {
    if b == a {
      text := [];
      NothingBefore(Salvage(a));
    } else {
      var n := ScanOne(a).n;
      var more := SalvageAhead(b, a[n..]);
      if ScanOne(a).Char? {
        text := a[..n] + more;
        Associate(a[..n], more, Salvage(b));
      } else {
        text := more;
      }
    }
  }

  // ----- Byte by byte --------------------------------------------------------------------

  /** What is left undecoded when every byte arrives on its own. */
  function ByteRaw(s: Bytes): Bytes {
    if s == [] then [] else Kept(ByteRaw(s[..|s| - 1]) + [s[|s| - 1]])
  }

  lemma ByteRawNext(s: Bytes, x: byte)
    ensures ByteRaw(s + [x]) == Kept(ByteRaw(s) + [x])
  {
    assert (s + [x])[..|s|] == s;
  }

  /** Deciding on every byte is ahead of not deciding at all. */
  lemma {:induction false} BytesStayAhead(s: Bytes, c: Bytes, a: Bytes)
    requires Ahead(ByteRaw(s), a)
    ensures Ahead(ByteRaw(s + c), a + c)
    decreases |c|
  {
    if c == [] {
      NothingAfter(s);
      NothingAfter(a);
    } else {
      var init, x := c[..|c| - 1], c[|c| - 1];
      LastApart(s, c);
      LastApart(a, c);
      BytesStayAhead(s, init, a);
      ByteRawNext(s + init, x);
      AheadAppend(ByteRaw(s + init), a + init, [x]);
      KeptIsAhead(ByteRaw(s + init) + [x]);
      AheadTwice(ByteRaw(s + c), ByteRaw(s + init) + [x], a + c);
    }
  }

  lemma LastApart(s: Bytes, c: Bytes)
    requires c != []
    ensures s + c == s + c[..|c| - 1] + [c[|c| - 1]]
  {
  }

  /** And ahead of deciding once, at the end of a chunk that brings something. */
  lemma ChunkStaysBehind(s: Bytes, c: Bytes, a: Bytes)
    requires Ahead(ByteRaw(s), a) && c != []
    ensures Ahead(ByteRaw(s + c), Kept(a + c))
  {
    var init, x := c[..|c| - 1], c[|c| - 1];
    LastApart(s, c);
    LastApart(a, c);
    BytesStayAhead(s, init, a);
    ByteRawNext(s + init, x);
    AheadAppend(ByteRaw(s + init), a + init, [x]);
    KeptStaysAhead(ByteRaw(s + init) + [x], a + c);
  }

  // ----- Any chunking against byte by byte -----------------------------------------------

  predicate NonEmptyParts(parts: seq<Bytes>) {
    forall i :: 0 <= i < |parts| ==> parts[i] != []
  }

  function ReadingOf(parts: seq<Bytes>): Reading {
    ChunkCountOfParts(parts);
    ReadingAfter(Chunks(parts), |parts|)
  }

  lemma {:induction false} ChunkCountOfParts(parts: seq<Bytes>)
    ensures ChunkCount(Chunks(parts)) == |parts|
  {
    if parts == [] {
    } else {
      assert Chunks(parts)[1..] == Chunks(parts[1..]);
      ChunkCountOfParts(parts[1..]);
    }
  }

  lemma {:induction false} SameReading(a: Wire, b: Wire, k: nat)
    requires k <= ChunkCount(a) && k <= ChunkCount(b) && forall i :: 0 <= i < k ==> a[i] == b[i]
    ensures ReadingAfter(a, k) == ReadingAfter(b, k)
  {
    if k == 0 {
    } else {
      SameReading(a, b, k - 1);
      SameReadingNext(a, b, k - 1);
    }
  }

  lemma SameReadingNext(a: Wire, b: Wire, k: nat)
    requires k < ChunkCount(a) && k < ChunkCount(b) && a[k] == b[k] && ReadingAfter(a, k) == ReadingAfter(b, k)
    ensures ReadingAfter(a, k + 1) == ReadingAfter(b, k + 1)
  {
  }

  lemma ReadingOfPrefix(parts: seq<Bytes>, k: nat)
    requires k <= |parts|
    ensures ChunkCount(Chunks(parts)) == |parts| && ReadingAfter(Chunks(parts), k) == ReadingOf(parts[..k])
  {
    ChunkCountOfParts(parts);
    ChunkCountOfParts(parts[..k]);
    SameReading(Chunks(parts), Chunks(parts[..k]), k);
  }

  lemma ReadingNext(parts: seq<Bytes>, chunk: Bytes)
    ensures var before, raw := ReadingOf(parts), ReadingOf(parts).raw + chunk;
            ReadingOf(parts + [chunk]) == Reading(Kept(raw), before.text + Pushed(raw))
  {
    ReadingOfPrefix(parts + [chunk], |parts|);
    assert (parts + [chunk])[..|parts|] == parts;
  }

  lemma FlattenNext(parts: seq<Bytes>, chunk: Bytes)
    ensures Flatten(parts + [chunk]) == Flatten(parts) + chunk
  {
    FlattenAppend(parts, [chunk]);
    var one := [chunk];
    assert one[1..] == [] && Flatten(one) == one[0] + Flatten(one[1..]);
  }

  lemma LastPart(parts: seq<Bytes>)
    requires parts != []
    ensures parts == parts[..|parts| - 1] + [parts[|parts| - 1]]
  {
  }

  /** Whatever comes later, text decoded and text waiting are the whole text. */
  lemma {:induction false} ReadingConserves(parts: seq<Bytes>, future: Bytes)
    ensures ReadingOf(parts).text + Salvage(ReadingOf(parts).raw + future) == Salvage(Flatten(parts) + future)
    decreases |parts|
  {
    if parts == [] {
    } else {
      var init, chunk := parts[..|parts| - 1], parts[|parts| - 1];
      var before := ReadingOf(init);
      LastPart(parts);
      ReadingNext(init, chunk);
      FlattenNext(init, chunk);
      ReadingConserves(init, chunk + future);
      DecodeConserves(before.raw + chunk, future);
      Associate(before.text, Pushed(before.raw + chunk), Salvage(Kept(before.raw + chunk) + future));
      Associate(before.raw, chunk, future);
      Associate(Flatten(init), chunk, future);
    }
  }

  lemma ReadingIsAll(parts: seq<Bytes>)
    ensures ReadingOf(parts).text + Salvage(ReadingOf(parts).raw) == Salvage(Flatten(parts))
  {
    ReadingConserves(parts, []);
    NothingAfter(ReadingOf(parts).raw);
    NothingAfter(Flatten(parts));
  }

  /** What is held never outgrows what was received. */
  lemma {:induction false} ReadingIsSmall(parts: seq<Bytes>)
    ensures |ReadingOf(parts).text| + |ReadingOf(parts).raw| <= |Flatten(parts)|
    decreases |parts|
  {
    if parts == [] {
    } else {
      var init, chunk := parts[..|parts| - 1], parts[|parts| - 1];
      LastPart(parts);
      ReadingIsSmall(init);
      ReadingNext(init, chunk);
      FlattenNext(init, chunk);
      DecodeKeepsResidue(ReadingOf(init).raw + chunk);
    }
  }

  lemma {:induction false} BytesAreAhead(parts: seq<Bytes>)
    requires NonEmptyParts(parts)
    ensures Ahead(ByteRaw(Flatten(parts)), ReadingOf(parts).raw)
    decreases |parts|
  {
    if parts == [] {
    } else {
      var init, chunk := parts[..|parts| - 1], parts[|parts| - 1];
      LastPart(parts);
      BytesAreAhead(init);
      ReadingNext(init, chunk);
      FlattenNext(init, chunk);
      ChunkStaysBehind(Flatten(init), chunk, ReadingOf(init).raw);
    }
  }

  lemma {:induction false} OneByOneRaw(s: Bytes)
    ensures ReadingOf(OneByOne(s)).raw == ByteRaw(s)
    decreases |s|
  {
    if s == [] {
    } else {
      var init, x := s[..|s| - 1], s[|s| - 1];
      OneByOneRaw(init);
      OneByOneNext(s);
      ReadingNext(OneByOne(init), [x]);
    }
  }

  lemma OneByOneNext(s: Bytes)
    requires s != []
    ensures OneByOne(s) == OneByOne(s[..|s| - 1]) + [[s[|s| - 1]]]
  {
  }

  /** No chunking into non-empty chunks decodes more than receiving the bytes one by one. */
  lemma BytesDecodeMost(parts: seq<Bytes>)
    requires NonEmptyParts(parts)
    ensures ReadingOf(parts).text <= ReadingOf(OneByOne(Flatten(parts))).text
  {
    var stream := Flatten(parts);
    var r, b := ReadingOf(parts), ReadingOf(OneByOne(stream));
    BytesAreAhead(parts);
    OneByOneRaw(stream);
    var text := SalvageAhead(b.raw, r.raw);
    ReadingIsAll(parts);
    ReadingIsAll(OneByOne(stream));
    FlattenOneByOne(stream);
    Associate(r.text, text, Salvage(b.raw));
    SamePrefix(r.text + text, b.text, Salvage(b.raw));
  }

  lemma SamePrefix(a: Bytes, b: Bytes, t: Bytes)
    requires a + t == b + t
    ensures a == b
  {
    assert |a| == |b| && (a + t)[..|a|] == a && (b + t)[..|b|] == b;
  }

  // ----- Runs ----------------------------------------------------------------------------

  lemma UncappedFrames(stream: Bytes, limit: nat, parts: seq<Bytes>)
    requires Uncapped(stream, limit, parts)
    ensures RunOfParts(limit, parts).frames == Frames(ReadingOf(parts).text)
  {
    ChunkCountOfParts(parts);
    UncappedReadsAll(limit, Chunks(parts));
  }

  /** A limit as large as the stream is never exceeded. */
  lemma LargeLimitFits(parts: seq<Bytes>)
    ensures Uncapped(Flatten(parts), |Flatten(parts)|, parts)
  {
    var limit, wire := |Flatten(parts)|, Chunks(parts);
    ChunkCountOfParts(parts);
    forall k | 0 <= k < |parts|
      ensures ReadFits(limit, wire, k)
    {
      PrefixFits(parts, k);
    }
    NoCapIff(limit, wire);
  }

  lemma PrefixFits(parts: seq<Bytes>, k: nat)
    requires k < |parts| && ChunkCount(Chunks(parts)) == |parts|
    ensures ReadFits(|Flatten(parts)|, Chunks(parts), k)
  {
    var r := ReadingOf(parts[..k]);
    ReadingOfPrefix(parts, k);
    ReadingIsSmall(parts[..k]);
    PartsUpTo(parts, k);
    TailIsShort(r.text);
    DecodeKeepsResidue(r.raw + parts[k]);
  }

  lemma PartsUpTo(parts: seq<Bytes>, k: nat)
    requires k < |parts|
    ensures |Flatten(parts[..k])| + |parts[k]| <= |Flatten(parts)|
  {
    FlattenNext(parts[..k], parts[k]);
    assert parts == parts[..k] + [parts[k]] + parts[k + 1..];
    FlattenAppend(parts[..k] + [parts[k]], parts[k + 1..]);
  }

  lemma {:induction false} TailIsShort(text: Bytes)
    ensures |Tail(text)| <= |text|
    decreases |text|
  {
    match FirstDelim(text) {
      case None =>
      case Some(d) => TailIsShort(After(text, d));
    }
  }

  lemma MoreTextMoreFrames(a: Bytes, b: Bytes)
    requires a <= b
    ensures Frames(a) <= Frames(b)
  {
    var t := b[|a|..];
    assert b == a + t;
    FramesAppend(a, t);
  }

  // ----- Which streams do not care -------------------------------------------------------

  /** All chunkings into non-empty chunks yield the frames of the decoded stream. */
  ghost predicate MeetsDecodingByParts(stream: Bytes) {
    forall limit: nat, parts :: NonEmptyParts(parts) && Uncapped(stream, limit, parts) ==>
                                  RunOfParts(limit, parts).frames == Frames(Salvage(stream))
  }

  /** No two chunkings into non-empty chunks yield different frames. */
  ghost predicate IndependentByParts(stream: Bytes) {
    forall limit1: nat, parts1, limit2: nat, parts2 ::
      NonEmptyParts(parts1) && NonEmptyParts(parts2)
      && Uncapped(stream, limit1, parts1) && Uncapped(stream, limit2, parts2) ==>
        RunOfParts(limit1, parts1).frames == RunOfParts(limit2, parts2).frames
  }

  /** Receiving the bytes one by one completes no frame after the first invalid run. */
  predicate NoFrameAfterInvalidByBytes(stream: Bytes) {
    Frames(ReadingOf(OneByOne(stream)).text) == Frames(Pushed(stream))
  }

  lemma FramesBetween(stream: Bytes, limit: nat, parts: seq<Bytes>)
    requires NonEmptyParts(parts) && Uncapped(stream, limit, parts)
    ensures Frames(Pushed(stream)) <= RunOfParts(limit, parts).frames
    ensures RunOfParts(limit, parts).frames <= Frames(ReadingOf(OneByOne(stream)).text)
  {
    UncappedFrames(stream, limit, parts);
    BytesDecodeMost(parts);
    MoreTextMoreFrames(ReadingOf(parts).text, ReadingOf(OneByOne(stream)).text);
    ReceivedChunks(parts);
    ValidPrefixFromStart(limit, Chunks(parts));
  }

  /**
    * With at least one byte in every chunk, the streams that meet the decoding are the same as before;
    * all chunkings agree exactly when the finest one completes no frame after the first invalid run.
    */
  lemma IndependentByPartsIff(stream: Bytes)
    ensures MeetsDecodingByParts(stream) <==> NoFrameAfterInvalid(stream)
    ensures IndependentByParts(stream) <==> NoFrameAfterInvalidByBytes(stream)
  {
    ChunkingIndependentIff(stream);
    if stream == [] {
      EmptyStream();
    } else {
      WholeAndBytes(stream);
    }
    if NoFrameAfterInvalidByBytes(stream) {
      forall limit: nat, parts | NonEmptyParts(parts) && Uncapped(stream, limit, parts)
        ensures RunOfParts(limit, parts).frames == Frames(Pushed(stream))
      {
        FramesBetween(stream, limit, parts);
      }
    }
  }

  lemma EmptyStream()
    ensures NoFrameAfterInvalid([]) && NoFrameAfterInvalidByBytes([])
  {
    assert OneByOne([]) == [];
  }

  /** The coarsest and the finest chunking. */
  lemma WholeAndBytes(stream: Bytes)
    requires stream != []
    ensures MeetsDecodingByParts(stream) ==> NoFrameAfterInvalid(stream)
    ensures IndependentByParts(stream) ==> NoFrameAfterInvalidByBytes(stream)
  {
    OneChunkRun(stream);
    assert NonEmptyParts([stream]) && NonEmptyParts(OneByOne(stream));
    FlattenOneByOne(stream);
    LargeLimitFits(OneByOne(stream));
    UncappedFrames(stream, |stream|, OneByOne(stream));
    SalvageSplit(stream);
    if !NoFrameAfterInvalid(stream) {
      assert |Frames(Salvage(stream))| > |Frames(Pushed(stream))|;
    }
  }
}
