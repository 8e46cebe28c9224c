/** Events sent over a sequence of connect attempts, received through the reconnecting stream. */
module PushDelivery {
  import opened Common
  import opened Delimiters
  import opened Errors
  import opened Sse
  import opened SseStream
  import opened SseRoundTrip
  import opened Backoff
  import opened Reconnect
  import opened StreamCaps
  import OneConnection = StreamTheorems
  import Reconnecting = ReconnectTheorems

  /** One connection of a server: what arrives on the wire, and the events it was meant to carry. */
  datatype Connection = Connection(wire: Wire, events: seq<(Event, Ending)>, cutOff: Bytes)

  /** What one connect attempt meets. */
  datatype Meeting = Refusal(error: ClientError) | Connected(connection: Connection)

  function RunOf(limit: nat, c: Connection): OneConnection.Run {
    OneConnection.RunFrom(limit, Live([], [], c.wire))
  }

  /** The attempt as the reconnect loop sees it: the items its inner stream yields. */
  function AttemptOf<S>(parse: StateParser<S>, limit: nat, m: Meeting): Attempt<S> {
    match m {
      case Refusal(e) => Refused(e)
      case Connected(c) => Opened(OneConnection.ItemsOf(parse, RunOf(limit, c)))
    }
  }

  function Attempts<S>(parse: StateParser<S>, limit: nat, script: seq<Meeting>): seq<Attempt<S>> {
    Map(m => AttemptOf(parse, limit, m), script)
  }

  // ----- What a script means, without running it -----------------------------------------

  /** Every connection's bytes render its events, the last one possibly cut off. */
  predicate AllCarry(script: seq<Meeting>) {
    forall i :: 0 <= i < |script| && script[i].Connected? ==>
                  Carries(script[i].connection.wire, script[i].connection.events, script[i].connection.cutOff)
  }

  predicate Capped(limit: nat, c: Connection) {
    FittingReads(limit, c.wire) < ChunkCount(c.wire)
  }

  /** The events completed before the connection ends: all of them, unless a chunk exceeds a cap first. */
  function Heard(limit: nat, m: Meeting): seq<(Event, Ending)> {
    match m {
      case Refusal(_) => []
      case Connected(c) => Take(c.events, |Frames(TextRead(limit, c.wire))|)
    }
  }

  function Take<T>(s: seq<T>, n: nat): seq<T> {
    if n <= |s| then s[..n] else s
  }

  function Cause(limit: nat, m: Meeting): Option<ClientError> {
    match m {
      case Refusal(e) => Some(e)
      case Connected(c) =>
        if Capped(limit, c) then Some(SseFrameTooLarge(limit))
        else if OneConnection.Closing(c.wire).Fail? then Some(OneConnection.Closing(c.wire).error)
        else None
    }
  }

  /** A failure that retrying cannot fix, or the last of `max + 1` attempts in a row without an event. */
  ghost predicate Stops(max: Option<nat>, limit: nat, script: seq<Meeting>, i: nat)
    requires i < |script|
  {
    || (Cause(limit, script[i]).Some? && !Retryable(Cause(limit, script[i]).value))
    || (max.Some? && max.value < U32_MAX && max.value <= i
        && forall j :: i - max.value <= j <= i ==> Heard(limit, script[j]) == [])
  }

  function AllHeard(limit: nat, script: seq<Meeting>): seq<(Event, Ending)> {
    if script == [] then [] else Heard(limit, script[0]) + AllHeard(limit, script[1..])
  }

  // ----- One attempt ---------------------------------------------------------------------

  lemma {:induction false} ItemsOfRun<S>(frames: seq<SseFrame<S>>, last: seq<Item<S>>)
    requires |last| <= 1 && (last != [] ==> last[0].Err?)
    ensures LeadingFrames(Oks(frames) + last) == frames
    ensures Reconnecting.FirstError(Oks(frames) + last) == if last == [] then None else Some(last[0].error)
  {
    var items := Oks(frames) + last;
    if frames == [] {
      assert items == last;
    } else {
      assert items[1..] == Oks(frames[1..]) + last;
      ItemsOfRun(frames[1..], last);
      assert frames == [frames[0]] + frames[1..];
    }
  }

  lemma {:induction false} DeliveredPrefix<S>(parse: StateParser<S>, frames: seq<Bytes>, all: seq<Bytes>)
    requires frames <= all
    ensures OneConnection.Delivered(parse, frames) <= OneConnection.Delivered(parse, all)
    ensures |OneConnection.Delivered(parse, frames)| == |frames|
  {
    if frames == [] {
    } else {
      assert frames[0] == all[0] && frames[1..] <= all[1..];
      DeliveredPrefix(parse, frames[1..], all[1..]);
    }
  }

  lemma {:induction false} ExpectedTake<S>(parse: StateParser<S>, es: seq<(Event, Ending)>, n: nat)
    ensures |ExpectedAll(parse, es)| == |es|
    ensures ExpectedAll(parse, Take(es, n)) == Take(ExpectedAll(parse, es), n)
  {
    if es == [] {
    } else if n == 0 {
      ExpectedTake(parse, es[1..], 0);
    } else {
      ExpectedTake(parse, es[1..], n - 1);
      if n <= |es| { assert es[..n][1..] == es[1..][..n - 1]; }
    }
  }

  /** The events received over one connection, whether or not a cap ends it. */
  lemma HeardIsDelivered<S>(parse: StateParser<S>, limit: nat, c: Connection)
    requires Carries(c.wire, c.events, c.cutOff)
    ensures OneConnection.Delivered(parse, RunOf(limit, c).frames) == ExpectedAll(parse, Heard(limit, Connected(c)))
    ensures !Capped(limit, c) ==> Heard(limit, Connected(c)) == c.events
  {
    RunOfReads(limit, c.wire);
    DeliveredIsTaken(parse, limit, c);
    if !Capped(limit, c) { AllHeardUncapped(parse, limit, c); }
  }

  lemma DeliveredIsTaken<S>(parse: StateParser<S>, limit: nat, c: Connection)
    requires Carries(c.wire, c.events, c.cutOff)
    ensures var frames := RunOf(limit, c).frames;
            OneConnection.Delivered(parse, frames) == ExpectedAll(parse, Take(c.events, |frames|))
            && |frames| <= |c.events|
  {
    var frames, all := RunOf(limit, c).frames, Frames(Utf8.Salvage(Received(c.wire)));
    CarriedFrames(parse, c.wire, c.events, c.cutOff);
    OneConnection.FramesArePrefix(limit, c.wire);
    DeliveredPrefix(parse, frames, all);
    ExpectedTake(parse, c.events, |frames|);
  }

  lemma AllHeardUncapped<S>(parse: StateParser<S>, limit: nat, c: Connection)
    requires Carries(c.wire, c.events, c.cutOff) && !Capped(limit, c)
    ensures Heard(limit, Connected(c)) == c.events
  {
    var frames := RunOf(limit, c).frames;
    RunOfReads(limit, c.wire);
    CapHitIffReadMisfits(limit, c.wire);
    EventsRoundTrip(parse, limit, c.wire, c.events, c.cutOff);
    DeliveredPrefix(parse, frames, frames);
    ExpectedTake(parse, c.events, |c.events|);
  }

  lemma AttemptMeaning<S>(parse: StateParser<S>, limit: nat, m: Meeting)
    requires AllCarry([m])
    ensures FramesOf(AttemptOf(parse, limit, m)) == ExpectedAll(parse, Heard(limit, m))
    ensures Reconnecting.CauseOf(AttemptOf(parse, limit, m)) == Cause(limit, m)
  {
    if m.Connected? {
      assert [m][0].Connected?;
      HeardIsDelivered(parse, limit, m.connection);
      ConnectionItems(parse, limit, m.connection);
    }
  }

  /** Whatever bytes arrive: the frames of the fitting reads, and then the cap error or the connection's own. */
  lemma ConnectionItems<S>(parse: StateParser<S>, limit: nat, c: Connection)
    ensures FramesOf(AttemptOf(parse, limit, Connected(c))) == OneConnection.Delivered(parse, RunOf(limit, c).frames)
    ensures RunOf(limit, c).frames == Frames(TextRead(limit, c.wire))
    ensures Reconnecting.CauseOf(AttemptOf(parse, limit, Connected(c))) == Cause(limit, Connected(c))
  {
    var r := RunOf(limit, c);
    RunOfReads(limit, c.wire);
    ItemsOfRun(OneConnection.Delivered(parse, r.frames), if r.ending.Fail? then [Err(r.ending.error)] else []);
  }

  // ----- Whole scripts -------------------------------------------------------------------

  lemma {:induction false} ExpectedAppend<S>(parse: StateParser<S>, a: seq<(Event, Ending)>, b: seq<(Event, Ending)>)
    ensures ExpectedAll(parse, a + b) == ExpectedAll(parse, a) + ExpectedAll(parse, b)
  {
    if a == [] {
      assert a + b == b;
    } else {
      assert (a + b)[1..] == a[1..] + b;
      ExpectedAppend(parse, a[1..], b);
    }
  }

  lemma {:induction false} HeardFrames<S>(parse: StateParser<S>, limit: nat, script: seq<Meeting>)
    requires AllCarry(script)
    ensures AllFrames(Attempts(parse, limit, script)) == ExpectedAll(parse, AllHeard(limit, script))
  {
    if script == [] {
      assert FrameLists(Attempts(parse, limit, script)) == [];
    } else {
      AttemptsCons(parse, limit, script);
      AttemptMeaning(parse, limit, script[0]);
      HeardFrames(parse, limit, script[1..]);
      ExpectedAppend(parse, Heard(limit, script[0]), AllHeard(limit, script[1..]));
    }
  }

  lemma AttemptsCons<S>(parse: StateParser<S>, limit: nat, script: seq<Meeting>)
    requires script != []
    ensures AllFrames(Attempts(parse, limit, script))
         == FramesOf(AttemptOf(parse, limit, script[0])) + AllFrames(Attempts(parse, limit, script[1..]))
  {
    MapCons(m => AttemptOf(parse, limit, m), script);
    AllFramesCons(AttemptOf(parse, limit, script[0]), Attempts(parse, limit, script[1..]));
  }

  lemma SilentIsBarren<S>(parse: StateParser<S>, limit: nat, m: Meeting)
    requires AllCarry([m])
    ensures Reconnecting.Barren(AttemptOf(parse, limit, m)) <==> Heard(limit, m) == []
  {
    AttemptMeaning(parse, limit, m);
  }

  /** The script stops the stream where its attempts do. */
  lemma StopsIff<S>(parse: StateParser<S>, limit: nat, max: Option<nat>, script: seq<Meeting>, i: nat)
    requires AllCarry(script) && i < |script|
    ensures Stops(max, limit, script, i) <==> Reconnecting.StopsAt(max, Attempts(parse, limit, script), i)
  {
    var network := Attempts(parse, limit, script);
    AttemptMeaning(parse, limit, script[i]);
    forall j | 0 <= j < |script|
      ensures Reconnecting.Barren(network[j]) <==> Heard(limit, script[j]) == []
    {
      SilentIsBarren(parse, limit, script[j]);
    }
  }

  /** The events heard up to and including entry `n - 1`, as the reconnecting stream hands them out. */
  function ItemsHeard<S>(parse: StateParser<S>, limit: nat, script: seq<Meeting>): seq<Item<S>> {
    Oks(ExpectedAll(parse, AllHeard(limit, script)))
  }

  /**
    * From bytes to events, for every script of refusals and connections, however the connections are
    * chunked, cut off, closed or failed: the stream yields every completed event once and in order, up to
    * the first attempt that stops it (a failure that retrying cannot fix, an exceeded cap, or the last of
    * `max_retries + 1` attempts in a row without an event) and that attempt's error.  One request is
    * made for each attempt up to there, and it names the latest event id received before.
    */
  lemma EventsAcrossConnections<S>(parse: StateParser<S>, limit: nat, max: Option<nat>, id: Option<Bytes>,
                                   script: seq<Meeting>, stop: nat)
    requires AllCarry(script) && (max.Some? ==> max.value <= U32_MAX) && stop <= |script|
    requires (forall i :: 0 <= i < stop ==> !Stops(max, limit, script, i))
    requires stop < |script| ==> Stops(max, limit, script, stop)
    ensures Reconnecting.RunFrom(max, Start(id, Attempts(parse, limit, script))) ==
              if stop == |script| then Reconnecting.Outcome(ItemsHeard(parse, limit, script), false, 0)
              else Reconnecting.Outcome(ItemsHeard(parse, limit, script[..stop + 1])
                                        + Reconnecting.Errs(Cause(limit, script[stop])), true, |script| - stop - 1)
    ensures var sent := Reconnecting.RequestsOf(max, id, Attempts(parse, limit, script));
            && |sent| == (if stop == |script| then stop else stop + 1)
            && forall k :: 0 <= k < |sent| ==>
                 sent[k].lastEventId == LastId(id, ExpectedAll(parse, AllHeard(limit, script[..k])))
  {
    var network := Attempts(parse, limit, script);
    SameStops(parse, limit, max, script, stop);
    Reconnecting.ReconnectRefines(max, id, network, stop);
    Reconnecting.ResumesFromLatest(max, id, network);
    forall k | 0 <= k <= |script|
      ensures AllFrames(network[..k]) == ExpectedAll(parse, AllHeard(limit, script[..k]))
    {
      HeardFramesUpTo(parse, limit, script, k);
    }
    assert network[..|script|] == network && script[..|script|] == script;
    if stop < |script| { AttemptMeaning(parse, limit, script[stop]); }
  }

  lemma SameStops<S>(parse: StateParser<S>, limit: nat, max: Option<nat>, script: seq<Meeting>, stop: nat)
    requires AllCarry(script) && stop <= |script|
    requires (forall i :: 0 <= i < stop ==> !Stops(max, limit, script, i))
    requires stop < |script| ==> Stops(max, limit, script, stop)
    ensures Reconnecting.NoStopIn(max, Attempts(parse, limit, script), 0, stop)
    ensures stop < |script| ==> Reconnecting.StopsAt(max, Attempts(parse, limit, script), stop)
  {
    forall i | 0 <= i < |script|
      ensures Stops(max, limit, script, i) <==> Reconnecting.StopsAt(max, Attempts(parse, limit, script), i)
    {
      StopsIff(parse, limit, max, script, i);
    }
  }

  lemma HeardFramesUpTo<S>(parse: StateParser<S>, limit: nat, script: seq<Meeting>, k: nat)
    requires AllCarry(script) && k <= |script|
    ensures AllFrames(Attempts(parse, limit, script)[..k]) == ExpectedAll(parse, AllHeard(limit, script[..k]))
  {
    HeardFrames(parse, limit, script[..k]);
    MapTake(m => AttemptOf(parse, limit, m), script, k);
  }

  /**
    * Whatever bytes the connections bring: one that exceeds a cap is not retried.  If no attempt before it
    * stops the stream, its finished frames and then the cap error are the last items.
    */
  lemma CapErrorIsFatal<S>(parse: StateParser<S>, limit: nat, max: Option<nat>, id: Option<Bytes>,
                           script: seq<Meeting>, stop: nat)
    requires (max.Some? ==> max.value <= U32_MAX) && stop < |script|
    requires script[stop].Connected? && Capped(limit, script[stop].connection)
    requires Reconnecting.NoStopIn(max, Attempts(parse, limit, script), 0, stop)
    ensures var network, wire := Attempts(parse, limit, script), script[stop].connection.wire;
            Reconnecting.RunFrom(max, Start(id, network)) ==
              Reconnecting.Outcome(
                Oks(AllFrames(network[..stop]) + OneConnection.Delivered(parse, Frames(TextRead(limit, wire))))
                + [Err(SseFrameTooLarge(limit))], true, |script| - stop - 1)
  {
    var network := Attempts(parse, limit, script);
    ConnectionItems(parse, limit, script[stop].connection);
    Reconnecting.ReconnectRefines(max, id, network, stop);
    AllFramesSnoc(network, stop);
  }
}
