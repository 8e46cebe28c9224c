/** What every run of the receive loop yields, compared with cutting the finished text. */
module StreamTheorems {
  import opened Common
  import opened Errors
  import opened Utf8
  import opened Delimiters
  import opened Newlines
  import opened Sse
  import opened SseStream

  // ----- Runs ----------------------------------------------------------------------------

  /** Polling until the stream ends: the frame texts yielded, the last poll, and the buffers dropped with it. */
  datatype Run = Run(frames: seq<Bytes>, ending: Poll, dropped: State)

  function RunFrom(limit: nat, s: State): (r: Run)
    ensures r.dropped.Dropped? && !r.ending.Frame?
    decreases if s.Live? then |s.wire| else 0, if s.Live? then |s.buf| else 0
  {
    var (poll, next) := PollSpec(limit, s);
    match poll {
      case Frame(text) =>
        var rest := RunFrom(limit, next);
        rest.(frames := [text] + rest.frames)
      case _ => Run([], poll, next)
    }
  }

  predicate CapHit(r: Run) {
    r.ending.Fail? && r.ending.error.SseFrameTooLarge?
  }

  function FrameOf<S>(parse: StateParser<S>, text: Bytes): SseFrame<S> {
    FrameOfLines(parse, Lines(Normalize(text)))
  }

  /** The parsed frames a run hands to its consumer. */
  function Delivered<S>(parse: StateParser<S>, frames: seq<Bytes>): seq<SseFrame<S>> {
    if frames == [] then [] else [FrameOf(parse, frames[0])] + Delivered(parse, frames[1..])
  }

  /** The stream items of a run: its frames, then the error that ends it, if one does. */
  function ItemsOf<S>(parse: StateParser<S>, r: Run): seq<Result<SseFrame<S>, ClientError>> {
    Oks(Delivered(parse, r.frames)) + if r.ending.Fail? then [Err(r.ending.error)] else []
  }

  /** A consumer that takes items until the stream ends. */
  method CollectItems<S>(st: SseStreamState<S>) returns (items: seq<Result<SseFrame<S>, ClientError>>)
    requires st.Valid()
    modifies st
    ensures st.Valid() && items == ItemsOf(st.parse, RunFrom(st.limit, old(st.State())))
  {
    items := [];
    while true
      invariant st.Valid()
      invariant ItemsOf(st.parse, RunFrom(st.limit, old(st.State())))
             == items + ItemsOf(st.parse, RunFrom(st.limit, st.State()))
      decreases st.live, |st.stream|, |st.buf|
    {
      ghost var before := st.State();
      var item := st.Next();
      ItemsStep(st.parse, st.limit, before);
      if item.None? {
        return;
      }
      Associate(items, [item.value], ItemsOf(st.parse, RunFrom(st.limit, st.State())));
      items := items + [item.value];
    }
  }

  lemma ItemsStep<S>(parse: StateParser<S>, limit: nat, s: State)
    ensures var (poll, next) := PollSpec(limit, s);
            ItemsOf(parse, RunFrom(limit, s)) == match Deliver(parse, poll) {
                                                   case None => []
                                                   case Some(item) => [item] + ItemsOf(parse, RunFrom(limit, next))
                                                 }
  {
    var (poll, next) := PollSpec(limit, s);
    match poll {
      case Frame(text) => ItemsCons(parse, text, RunFrom(limit, next));
      case _ => assert RunFrom(limit, next) == Run([], End, next);
    }
  }

  lemma ItemsCons<S>(parse: StateParser<S>, text: Bytes, r: Run)
    ensures ItemsOf(parse, r.(frames := [text] + r.frames)) == [Ok(FrameOf(parse, text))] + ItemsOf(parse, r)
  {
    var ending := if r.ending.Fail? then [Err(r.ending.error)] else [];
    assert ([text] + r.frames)[1..] == r.frames;
    Associate([Ok(FrameOf(parse, text))], Oks(Delivered(parse, r.frames)), ending);
    OksCons<SseFrame<S>, ClientError>(FrameOf(parse, text), Delivered(parse, r.frames));
  }

  /** The connection as a list of chunks that ends without an error. */
  function Chunks(parts: seq<Bytes>): Wire {
    seq(|parts|, i requires 0 <= i < |parts| => Ok(parts[i]))
  }

  lemma {:induction false} ReceivedChunks(parts: seq<Bytes>)
    ensures Received(Chunks(parts)) == Flatten(parts)
  {
    if parts == [] {
    } else {
      assert Chunks(parts)[1..] == Chunks(parts[1..]);
      ReceivedChunks(parts[1..]);
    }
  }

  /** The text still to be cut: what is buffered, then the decoding of everything not yet decoded. */
  function Text(s: State): Bytes {
    match s {
      case Live(raw, buf, wire) => buf + Salvage(raw + Received(wire))
      case Dropped(raw, buf) => buf + Salvage(raw)
    }
  }

  // ----- One poll against the whole text -------------------------------------------------

  /** Decoding a chunk moves text between the buffers but never changes the text still to be cut. */
  lemma AbsorbKeepsText(s: State)
    requires s.Live? && s.wire != [] && s.wire[0].Ok?
    ensures Text(Absorb(s)) == Text(s)
  {
    var raw := s.raw + s.wire[0].value;
    var future := Received(s.wire[1..]);
    assert s.raw + Received(s.wire) == raw + future;
    DecodeConserves(raw, future);
    Associate(s.buf, Pushed(raw), Salvage(Kept(raw) + future));
  }

  ghost predicate IsFirstFrame(text: Bytes, frame: Bytes, rest: Bytes) {
    match FirstDelim(text) {
      case None => false
      case Some(d) => frame == text[..d.pos] && rest == After(text, d)
    }
  }

  /**
    * A yielded frame is the first frame of the whole remaining text, and the next state holds the rest;
    * at the end, the text left is exactly what the buffers hold.
    */
  lemma {:induction false} PollMeaning(limit: nat, s: State)
    requires s.Live?
    ensures var (poll, next) := PollSpec(limit, s);
            match poll {
              case Frame(text) => IsFirstFrame(Text(s), text, Text(next))
              case Fail(e) => e.SseFrameTooLarge? || (Text(s) == Text(next) && FirstDelim(next.buf).None?)
              case End => Text(s) == Text(next) && FirstDelim(next.buf).None?
            }
    decreases |s.wire|
  {
    if ChunkWaits(s) {
      if WithinCaps(limit, s) {
        AbsorbKeepsText(s);
        PollMeaning(limit, Absorb(s));
      }
    } else if FirstDelim(s.buf).Some? {
      PollTakesFirst(limit, s);
    } else {
      assert s.raw + [] == s.raw;
    }
  }

  lemma PollTakesFirst(limit: nat, s: State)
    requires s.Live? && FirstDelim(s.buf).Some?
    ensures IsFirstFrame(Text(s), PollSpec(limit, s).0.text, Text(PollSpec(limit, s).1))
  {
    var d := FirstDelim(s.buf).value;
    var future := Salvage(s.raw + Received(s.wire));
    FirstDelimStable(s.buf, future);
    assert (s.buf + future)[..d.pos] == s.buf[..d.pos];
    assert After(s.buf + future, d) == After(s.buf, d) + future;
  }

  /**
    * The run's frames start the frames of `text`; without a cap error, what is missing is what the
    * dropped buffers held.
    */
  ghost predicate RunFits(text: Bytes, r: Run)
    requires r.dropped.Dropped?
  {
    && r.frames <= Frames(text)
    && (!CapHit(r) ==>
          && Frames(text) == r.frames + Frames(Text(r.dropped))
          && FirstDelim(r.dropped.buf).None?)
  }

  /** Every run, on every input: frames come in order from the whole decoded text, none altered, none skipped. */
  lemma {:induction false} RunMeaning(limit: nat, s: State)
    requires s.Live?
    ensures RunFits(Text(s), RunFrom(limit, s))
    decreases |s.wire|, |s.buf|
  {
    PollMeaning(limit, s);
    var (poll, next) := PollSpec(limit, s);
    match poll {
      case Frame(text) =>
        RunMeaning(limit, next);
        RunFitsStep(Text(s), text, Text(next), RunFrom(limit, next));
      case _ =>
        RunFitsEnd(Text(s), Run([], poll, next));
    }
  }

  /** From the start of a connection: the frames are a prefix of those of the decoded stream. */
  lemma FramesArePrefix(limit: nat, wire: Wire)
    ensures RunFrom(limit, Live([], [], wire)).frames <= Frames(Salvage(Received(wire)))
  {
    TextAtStart(wire);
    RunMeaning(limit, Live([], [], wire));
  }

  lemma TextAtStart(wire: Wire)
    ensures Text(Live([], [], wire)) == Salvage(Received(wire))
  {
    NothingBefore(Received(wire));
    NothingBefore(Salvage(Received(wire)));
  }

  lemma RunFitsEnd(text: Bytes, r: Run)
    requires r.dropped.Dropped? && r.frames == []
    requires CapHit(r) || (text == Text(r.dropped) && FirstDelim(r.dropped.buf).None?)
    ensures RunFits(text, r)
  {
  }

  lemma RunFitsStep(text: Bytes, frame: Bytes, rest: Bytes, r: Run)
    requires r.dropped.Dropped? && IsFirstFrame(text, frame, rest) && RunFits(rest, r)
    ensures RunFits(text, r.(frames := [frame] + r.frames))
  {
    assert Frames(text) == [frame] + Frames(rest);
    if !CapHit(r) {
      Associate([frame], r.frames, Frames(Text(r.dropped)));
    }
  }

  // ----- Streams without an invalid run --------------------------------------------------

  predicate CleanState(s: State) {
    match s {
      case Live(raw, _, wire) => Residue(raw) && Clean(raw + Received(wire))
      case Dropped(raw, _) => Residue(raw)
    }
  }

  lemma AbsorbKeepsClean(s: State)
    requires s.Live? && CleanState(s) && s.wire != [] && s.wire[0].Ok?
    ensures CleanState(Absorb(s))
    ensures var raw := s.raw + s.wire[0].value;
            Clean(raw) && Pushed(raw) + Kept(raw) == raw && |Kept(raw)| <= 3
  {
    var raw := s.raw + s.wire[0].value;
    var future := Received(s.wire[1..]);
    assert s.raw + Received(s.wire) == raw + future;
    CleanPrefix(raw, future);
    DecodeKeepsResidue(raw);
    CleanAfterPush(raw, future);
  }

  lemma CleanAfterPush(raw: Bytes, future: Bytes)
    requires Clean(raw + future) && Pushed(raw) + Kept(raw) == raw
    ensures Clean(Kept(raw) + future)
  {
    VerdictMeaning(raw);
    CleanSuffix(Pushed(raw), Kept(raw) + future);
    assert Pushed(raw) + (Kept(raw) + future) == raw + future;
  }

  lemma {:induction false} RunKeepsClean(limit: nat, s: State)
    requires s.Live? && CleanState(s)
    ensures !CapHit(RunFrom(limit, s)) ==> CleanState(RunFrom(limit, s).dropped)
    decreases |s.wire|, |s.buf|
  {
    if ChunkWaits(s) {
      if WithinCaps(limit, s) {
        AbsorbKeepsClean(s);
        RunKeepsClean(limit, Absorb(s));
      }
    } else if FirstDelim(s.buf).Some? {
      RunKeepsClean(limit, s.(buf := After(s.buf, FirstDelim(s.buf).value)));
    }
  }

  lemma ResidueHoldsNoText(raw: Bytes, buf: Bytes)
    requires Residue(raw)
    ensures Text(Dropped(raw, buf)) == buf
  {
    NothingAfter(buf);
  }

  /** When nothing decodable is dropped, every frame of the decoded stream was yielded. */
  lemma NothingDropped(limit: nat, wire: Wire)
    requires var r := RunFrom(limit, Live([], [], wire)); !CapHit(r) && Residue(r.dropped.raw)
    ensures RunFrom(limit, Live([], [], wire)).frames == Frames(Salvage(Received(wire)))
  {
    var r := RunFrom(limit, Live([], [], wire));
    TextAtStart(wire);
    RunMeaning(limit, Live([], [], wire));
    ResidueHoldsNoText(r.dropped.raw, r.dropped.buf);
    NothingAfter(r.frames);
  }

  /**
    * On a stream without invalid runs, the loop yields exactly the frames of the decoded stream, however
    * it is chunked.
    */
  lemma CleanStreamIsCut(limit: nat, wire: Wire)
    requires Clean(Received(wire)) && !CapHit(RunFrom(limit, Live([], [], wire)))
    ensures RunFrom(limit, Live([], [], wire)).frames == Frames(Salvage(Received(wire)))
  {
    NothingBefore(Received(wire));
    RunKeepsClean(limit, Live([], [], wire));
    NothingDropped(limit, wire);
  }

  lemma ChunkingDoesNotMatter(limit1: nat, parts1: seq<Bytes>, limit2: nat, parts2: seq<Bytes>)
    requires Flatten(parts1) == Flatten(parts2) && WellFormed(Flatten(parts1))
    requires !CapHit(RunFrom(limit1, Live([], [], Chunks(parts1))))
    requires !CapHit(RunFrom(limit2, Live([], [], Chunks(parts2))))
    ensures RunFrom(limit1, Live([], [], Chunks(parts1))).frames == RunFrom(limit2, Live([], [], Chunks(parts2))).frames
    ensures RunFrom(limit1, Live([], [], Chunks(parts1))).frames == Frames(Flatten(parts1))
  {
    ReceivedChunks(parts1);
    ReceivedChunks(parts2);
    SalvageWellFormed(Flatten(parts1));
    CleanStreamIsCut(limit1, Chunks(parts1));
    CleanStreamIsCut(limit2, Chunks(parts2));
  }

  // ----- Streams with invalid runs -------------------------------------------------------

  /** No delimiter is completed after the first invalid run of the stream. */
  predicate NoFrameAfterInvalid(stream: Bytes) {
    FirstDelim(Tail(Pushed(stream)) + Salvage(stream[ValidLength(stream)..])).None?
  }

  function RunOfParts(limit: nat, parts: seq<Bytes>): Run {
    RunFrom(limit, Live([], [], Chunks(parts)))
  }

  /** A chunking of the stream that hits no cap. */
  predicate Uncapped(stream: Bytes, limit: nat, parts: seq<Bytes>) {
    Flatten(parts) == stream && !CapHit(RunOfParts(limit, parts))
  }

  /** Whatever the chunks, the loop yields the frames of the decoded stream. */
  ghost predicate MeetsDecoding(stream: Bytes) {
    forall limit: nat, parts :: Uncapped(stream, limit, parts) ==>
                                  RunOfParts(limit, parts).frames == Frames(Salvage(stream))
  }

  /** No two chunkings yield different frames. */
  ghost predicate ChunkingIndependent(stream: Bytes) {
    forall limit1: nat, parts1, limit2: nat, parts2 ::
      Uncapped(stream, limit1, parts1) && Uncapped(stream, limit2, parts2) ==>
        RunOfParts(limit1, parts1).frames == RunOfParts(limit2, parts2).frames
  }

  /**
    * For arbitrary bytes the loop does not always meet its simple specification: one call removes one
    * invalid run, and bytes after it can be lost at the end.  It does for exactly these streams, and on
    * all others two chunkings, which may hold empty chunks, yield different frames.
    */
  lemma ChunkingIndependentIff(stream: Bytes)
    ensures ChunkingIndependent(stream) <==> NoFrameAfterInvalid(stream)
    ensures MeetsDecoding(stream) <==> NoFrameAfterInvalid(stream)
  {
    if NoFrameAfterInvalid(stream) {
      forall limit: nat, parts | Uncapped(stream, limit, parts)
        ensures RunOfParts(limit, parts).frames == Frames(Salvage(stream))
      {
        MeetsDecodingUncapped(stream, limit, parts);
      }
    } else {
      SalvageSplit(stream);
      OneChunkRun(stream);
      ManyReadsRun(stream);
      assert |Frames(Salvage(stream))| > |Frames(Pushed(stream))|;
    }
  }

  lemma MeetsDecodingUncapped(stream: Bytes, limit: nat, parts: seq<Bytes>)
    requires NoFrameAfterInvalid(stream) && Uncapped(stream, limit, parts)
    ensures RunOfParts(limit, parts).frames == Frames(Salvage(stream))
  {
    SalvageSplit(stream);
    NothingAfter(Frames(Pushed(stream)));
    ReceivedChunks(parts);
    FramesArePrefix(limit, Chunks(parts));
    ValidPrefixFromStart(limit, Chunks(parts));
  }

  lemma ValidPrefixFromStart(limit: nat, wire: Wire)
    requires !CapHit(RunFrom(limit, Live([], [], wire)))
    ensures Frames(Pushed(Received(wire))) <= RunFrom(limit, Live([], [], wire)).frames
  {
    NothingBefore(Received(wire));
    NothingBefore(Pushed(Received(wire)));
    ValidPrefixIsCut(limit, Live([], [], wire));
  }

  lemma SalvageSplit(stream: Bytes)
    ensures Frames(Salvage(stream))
         == Frames(Pushed(stream)) + Frames(Tail(Pushed(stream)) + Salvage(stream[ValidLength(stream)..]))
  {
    VerdictMeaning(stream);
    var rest := stream[ValidLength(stream)..];
    assert stream == Pushed(stream) + rest;
    SalvageStep(Pushed(stream), rest);
    FramesAppend(Pushed(stream), Salvage(rest));
  }

  /** The first read takes in the whole stream. */
  lemma RunAfterFirstChunk(stream: Bytes, rest: seq<Bytes>)
    ensures RunOfParts(|stream|, [stream] + rest)
         == RunFrom(|stream|, Live(Kept(stream), Pushed(stream), Chunks(rest)))
    ensures |Kept(stream)| + |Pushed(stream)| <= |stream|
  {
    var s := Live([], [], Chunks([stream] + rest));
    assert s.raw + s.wire[0].value == stream;
    assert s.buf + Pushed(stream) == Pushed(stream);
    assert Chunks([stream] + rest)[1..] == Chunks(rest);
    DecodeKeepsResidue(stream);
    assert Absorb(s) == Live(Kept(stream), Pushed(stream), Chunks(rest));
    assert PollSpec(|stream|, s) == PollSpec(|stream|, Absorb(s));
    RunOfPoll(|stream|, s, Absorb(s));
  }

  /** A stream that arrives as one chunk: only its longest decodable prefix is ever cut. */
  lemma OneChunkRun(stream: Bytes)
    ensures Uncapped(stream, |stream|, [stream])
    ensures RunOfParts(|stream|, [stream]).frames == Frames(Pushed(stream))
  {
    RunAfterFirstChunk(stream, []);
    assert [stream] + [] == [stream] && Chunks([]) == [];
    DrainOnly(|stream|, Kept(stream), Pushed(stream));
    FlattenOneThen(stream, 0);
  }

  /** The same chunk followed by `n` reads that bring nothing. */
  function ThenEmpty(stream: Bytes, n: nat): seq<Bytes> {
    [stream] + EmptyChunks(n)
  }

  function EmptyChunks(n: nat): seq<Bytes> {
    seq(n, i => [])
  }

  lemma FlattenOneThen(stream: Bytes, n: nat)
    ensures Flatten(ThenEmpty(stream, n)) == stream && (n == 0 ==> ThenEmpty(stream, n) == [stream])
  {
    FlattenEmpty(n);
    assert ThenEmpty(stream, n)[1..] == EmptyChunks(n);
  }

  lemma {:induction false} FlattenEmpty(n: nat)
    ensures Flatten(EmptyChunks(n)) == []
  {
    if n == 0 {
      assert EmptyChunks(0) == [];
    } else {
      assert EmptyChunks(n)[1..] == EmptyChunks(n - 1);
      FlattenEmpty(n - 1);
    }
  }

  lemma EmptyRead(raw: Bytes, buf: Bytes, n: nat)
    requires n > 0
    ensures var s := Live(raw, buf, Chunks(EmptyChunks(n)));
            s.raw + s.wire[0].value == raw
            && Absorb(s) == Live(Kept(raw), buf + Pushed(raw), Chunks(EmptyChunks(n - 1)))
  {
    NothingAfter(raw);
    assert Chunks(EmptyChunks(n))[1..] == Chunks(EmptyChunks(n - 1));
  }

  /** Each empty read removes one more invalid run, until nothing decodable waits. */
  lemma {:induction false} EmptyReadsDecode(limit: nat, raw: Bytes, buf: Bytes, n: nat)
    requires (|raw| <= n || Residue(raw)) && |raw| + |buf| <= limit
    ensures var r := RunFrom(limit, Live(raw, buf, Chunks(EmptyChunks(n))));
            !CapHit(r) && Residue(r.dropped.raw)
    decreases n, |buf|
  {
    var s := Live(raw, buf, Chunks(EmptyChunks(n)));
    if FirstDelim(buf).Some? {
      EmptyReadsDecode(limit, raw, Popped(s).buf, n);
    } else if n > 0 {
      EmptyRead(raw, buf, n);
      DecodeKeepsResidue(raw);
      EmptyReadsDecode(limit, Kept(raw), buf + Pushed(raw), n - 1);
      RunOfPoll(limit, s, Absorb(s));
    }
  }

  /** With enough reads after the last byte, everything decodable is decoded and cut. */
  lemma ManyReadsRun(stream: Bytes)
    ensures var parts := ThenEmpty(stream, |stream|);
            Uncapped(stream, |stream|, parts) && RunOfParts(|stream|, parts).frames == Frames(Salvage(stream))
  {
    var n := |stream|;
    FlattenOneThen(stream, n);
    RunAfterFirstChunk(stream, EmptyChunks(n));
    EmptyReadsDecode(n, Kept(stream), Pushed(stream), n);
    ReceivedChunks(ThenEmpty(stream, n));
    NothingDropped(n, Chunks(ThenEmpty(stream, n)));
  }

  /** A run is determined by its first poll. */
  lemma RunOfPoll(limit: nat, s: State, t: State)
    requires PollSpec(limit, s) == PollSpec(limit, t)
    ensures RunFrom(limit, s) == RunFrom(limit, t)
  {
  }

  lemma {:induction false} DrainOnly(limit: nat, raw: Bytes, buf: Bytes)
    ensures RunFrom(limit, Live(raw, buf, [])).frames == Frames(buf)
    ensures RunFrom(limit, Live(raw, buf, [])).ending == End
    decreases |buf|
  {
    match FirstDelim(buf) {
      case None =>
      case Some(d) => DrainOnly(limit, raw, After(buf, d));
    }
  }

  /** How the connection itself ends. */
  function Closing(wire: Wire): Poll {
    if wire == [] then End
    else match wire[0] {
      case Err(e) => Fail(Http(e))
      case Ok(_) => Closing(wire[1..])
    }
  }

  /** Unless a cap is hit, the stream ends as its connection does: cleanly, or with its transport error. */
  lemma {:induction false} RunEndsAsConnection(limit: nat, s: State)
    requires s.Live?
    ensures CapHit(RunFrom(limit, s)) || RunFrom(limit, s).ending == Closing(s.wire)
    decreases |s.wire|, |s.buf|
  {
    if ChunkWaits(s) {
      if WithinCaps(limit, s) {
        RunEndsAsConnection(limit, Absorb(s));
        RunOfPoll(limit, s, Absorb(s));
      }
    } else if FirstDelim(s.buf).Some? {
      RunEndsAsConnection(limit, Popped(s));
    }
  }

  /** Text already decoded is always cut. */
  lemma {:induction false} BufferedIsCut(limit: nat, s: State)
    requires s.Live?
    ensures Frames(s.buf) <= RunFrom(limit, s).frames
    decreases |s.buf|
  {
    if FirstDelim(s.buf).None? {
    } else {
      BufferedIsCut(limit, s.(buf := After(s.buf, FirstDelim(s.buf).value)));
    }
  }

  function Popped(s: State): State
    requires s.Live? && FirstDelim(s.buf).Some?
  {
    s.(buf := After(s.buf, FirstDelim(s.buf).value))
  }

  lemma RunPops(limit: nat, s: State)
    requires s.Live? && FirstDelim(s.buf).Some?
    ensures RunFrom(limit, s).frames == [s.buf[..FirstDelim(s.buf).value.pos]] + RunFrom(limit, Popped(s)).frames
    ensures CapHit(RunFrom(limit, s)) <==> CapHit(RunFrom(limit, Popped(s)))
  {
  }

  /** Without a cap error, everything before the first invalid run is decoded and cut. */
  lemma {:induction false} ValidPrefixIsCut(limit: nat, s: State)
    requires s.Live? && Residue(s.raw) && !CapHit(RunFrom(limit, s))
    ensures Frames(s.buf + Pushed(s.raw + Received(s.wire))) <= RunFrom(limit, s).frames
    decreases |s.wire|, |s.buf|
  {
    if ChunkWaits(s) {
      var next := Absorb(s);
      RunOfPoll(limit, s, next);
      if Clean(s.raw + s.wire[0].value) {
        PushedThenAbsorbed(s);
        ValidPrefixIsCut(limit, next);
      } else {
        PushedUpToInvalid(s);
        BufferedIsCut(limit, next);
      }
    } else if FirstDelim(s.buf).Some? {
      ValidPrefixIsCut(limit, Popped(s));
      FramesPop(s.buf, Pushed(s.raw + Received(s.wire)));
      RunPops(limit, s);
    } else {
      assert s.raw + Received(s.wire) == s.raw;
      assert s.buf + Pushed(s.raw) == s.buf;
    }
  }

  lemma PushedThenAbsorbed(s: State)
    requires s.Live? && s.wire != [] && s.wire[0].Ok? && Clean(s.raw + s.wire[0].value)
    ensures var next := Absorb(s);
            Residue(next.raw)
            && s.buf + Pushed(s.raw + Received(s.wire)) == next.buf + Pushed(next.raw + Received(next.wire))
  {
    var raw, future := s.raw + s.wire[0].value, Received(s.wire[1..]);
    assert s.raw + Received(s.wire) == raw + future;
    DecodeKeepsResidue(raw);
    PushedInTwoSteps(raw, future);
    assert s.buf + (Pushed(raw) + Pushed(Kept(raw) + future)) == s.buf + Pushed(raw) + Pushed(Kept(raw) + future);
  }

  lemma PushedUpToInvalid(s: State)
    requires s.Live? && s.wire != [] && s.wire[0].Ok? && !Clean(s.raw + s.wire[0].value)
    ensures s.buf + Pushed(s.raw + Received(s.wire)) == Absorb(s).buf
  {
    var raw, future := s.raw + s.wire[0].value, Received(s.wire[1..]);
    assert s.raw + Received(s.wire) == raw + future;
    InvalidStays(raw, future);
  }

  lemma PushedInTwoSteps(raw: Bytes, future: Bytes)
    requires Clean(raw)
    ensures Pushed(raw + future) == Pushed(raw) + Pushed(Kept(raw) + future)
  {
    DecodeKeepsResidue(raw);
    VerdictMeaning(raw);
    var rest := Kept(raw) + future;
    assert Pushed(raw) + rest == raw + future;
    CleanSuffix(Pushed(raw), rest);
  }

  lemma SalvageAfterInvalid(stream: Bytes)
    requires stream != [] && ScanOne(stream) == Invalid(1) && WellFormed(stream[1..])
    ensures Salvage(stream) == stream[1..] && Pushed(stream) == []
    ensures NoFrameAfterInvalid(stream) <==> FirstDelim(stream[1..]).None?
  {
    SalvageWellFormed(stream[1..]);
    assert stream[0..] == stream;
    NothingBefore(stream[1..]);
  }

  /** One chunk `FF 61 0A 0A`: the decoded stream has the frame `61`, but the loop ends without it. */
  lemma InvalidRunLosesFrame()
    ensures var stream: Bytes := [0xFF, 97, LF, LF];
            Frames(Salvage(stream)) == [[97]]
            && RunOfParts(4, [stream]).frames == []
            && !NoFrameAfterInvalid(stream)
  {
    var stream: Bytes := [0xFF, 97, LF, LF];
    var tail: Bytes := [97, LF, LF];
    assert stream[1..] == tail;
    AsciiWellFormed(tail);
    SalvageAfterInvalid(stream);
    OneChunkRun(stream);
    FirstIsUnique(tail, Delim(1, 2));
    assert After(tail, Delim(1, 2)) == [] && tail[..1] == [97];
  }
}
