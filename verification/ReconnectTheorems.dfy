/** What every run of the reconnecting stream yields, for every script of connection outcomes. */
module ReconnectTheorems {
  import opened Common
  import opened Errors
  import opened Sse
  import opened Backoff
  import opened Reconnect

  // ----- Runs ----------------------------------------------------------------------------

  /**
    * The items a run yields, whether it then ends or waits for an attempt that never completes, and how
    * many outcomes of the script it leaves unused.
    */
  datatype Outcome<S> = Outcome(items: seq<Item<S>>, ended: bool, unused: nat)

  function Before<S>(items: seq<Item<S>>, rest: Outcome<S>): Outcome<S> {
    rest.(items := items + rest.items)
  }

  lemma BeforeTwice<S>(a: seq<Item<S>>, b: seq<Item<S>>, rest: Outcome<S>)
    ensures Before(a, Before(b, rest)) == Before(a + b, rest)
  {
    Associate(a, b, rest.items);
  }

  lemma BeforeNothing<S>(rest: Outcome<S>)
    ensures Before([], rest) == rest
  {
    NothingBefore(rest.items);
  }

  function RunFrom<S>(max: Option<nat>, st: State<S>): Outcome<S>
    decreases st.live, |st.network|, InnerLength(st)
  {
    var (poll, next) := PollSpec(max, st);
    match poll {
      case Yield(item) => Before([item], RunFrom(max, next))
      case Done => Outcome([], true, |next.network|)
      case Pending => Outcome([], false, |next.network|)
    }
  }

  /** The state when the run ends or hangs. */
  function FinalState<S>(max: Option<nat>, st: State<S>): State<S>
    decreases st.live, |st.network|, InnerLength(st)
  {
    var (poll, next) := PollSpec(max, st);
    if poll.Yield? then FinalState(max, next) else next
  }

  /** A run is its first loop turn followed by the rest of the run. */
  lemma RunStep<S>(max: Option<nat>, st: State<S>)
    requires st.live
    ensures var (stop, next) := Step(max, st);
            RunFrom(max, st) == match stop {
                                  case None => RunFrom(max, next)
                                  case Some(Yield(item)) => Before([item], RunFrom(max, next))
                                  case Some(Done) => Outcome([], true, |next.network|)
                                  case Some(Pending) => Outcome([], false, |next.network|)
                                }
  {
  }

  /** A consumer that takes items until the stream ends or waits for ever. */
  method CollectRun<S>(st: SseReconnectState<S>) returns (items: seq<Item<S>>, ended: bool)
    requires st.Valid()
    modifies st
    ensures var r := RunFrom(st.policy.maxRetries, old(st.Model())); items == r.items && ended == r.ended
    ensures st.Model() == FinalState(st.policy.maxRetries, old(st.Model()))
  {
    items := [];
    BeforeNothing(RunFrom(st.policy.maxRetries, st.Model()));
    while true
      invariant st.Valid()
      invariant RunFrom(st.policy.maxRetries, old(st.Model()))
             == Before(items, RunFrom(st.policy.maxRetries, st.Model()))
      invariant FinalState(st.policy.maxRetries, old(st.Model())) == FinalState(st.policy.maxRetries, st.Model())
      decreases st.live, |st.network|, InnerLength(st.Model())
    {
      var poll := st.Next();
      match poll {
        case Yield(item) =>
          BeforeTwice(items, [item], RunFrom(st.policy.maxRetries, st.Model()));
          items := items + [item];
        case Done => return items, true;
        case Pending => return items, false;
      }
    }
  }

  // ----- Reference: attempt by attempt ---------------------------------------------------

  /** The error that ends an attempt; `None` when the server closed the connection. */
  function CauseOf<S>(a: Attempt<S>): Option<ClientError> {
    match a {
      case Refused(e) => Some(e)
      case Opened(items) => FirstError(items)
    }
  }

  function FirstError<S>(items: seq<Item<S>>): Option<ClientError> {
    if items == [] then None else if items[0].Err? then Some(items[0].error) else FirstError(items[1..])
  }

  function Errs<S>(cause: Option<ClientError>): seq<Item<S>> {
    if cause.Some? then [Err(cause.value)] else []
  }

  predicate Fatal<S>(a: Attempt<S>) {
    CauseOf(a).Some? && !Retryable(CauseOf(a).value)
  }

  predicate Barren<S>(a: Attempt<S>) {
    FramesOf(a) == []
  }

  /** The run by whole attempts, counting consecutive barren ones. */
  function ByAttempts<S>(max: Option<nat>, failures: nat, network: seq<Attempt<S>>): Outcome<S>
    decreases |network|
  {
    if network == [] then Outcome([], false, 0)
    else
      var a := network[0];
      if Fatal(a) then Outcome(Oks(FramesOf(a)) + Errs(CauseOf(a)), true, |network| - 1)
      else if !Barren(a) then Before(Oks(FramesOf(a)), ByAttempts(max, 0, network[1..]))
      else if GivesUp(max, SaturatingSucc(failures)) then Outcome(Errs(CauseOf(a)), true, |network| - 1)
      else ByAttempts(max, SaturatingSucc(failures), network[1..])
  }

  /** From an open connection: its remaining frames, its end, then the attempts after it. */
  function FromInner<S>(max: Option<nat>, st: State<S>): Outcome<S>
    requires st.inner.Some?
  {
    var frames, cause := LeadingFrames(st.inner.value), FirstError(st.inner.value);
    if cause.Some? && !Retryable(cause.value) then Outcome(Oks(frames) + Errs(cause), true, |st.network|)
    else if frames != [] then Before(Oks(frames), ByAttempts(max, 0, st.network))
    else if st.delivered then ByAttempts(max, st.failures, st.network)
    else if GivesUp(max, SaturatingSucc(st.failures)) then Outcome(Errs(cause), true, |st.network|)
    else ByAttempts(max, SaturatingSucc(st.failures), st.network)
  }

  /** The loop, item by item, is the run by whole attempts. */
  lemma {:induction false} RunIsByAttempts<S>(max: Option<nat>, st: State<S>)
    requires st.live && st.inner.None?
    ensures RunFrom(max, st) == ByAttempts(max, st.failures, st.network)
    decreases |st.network|, 0
  {
    RunStep(max, st);
    if st.network == [] {
    } else {
      match st.network[0] {
        case Opened(items) =>
          RunIsFromInner(max, Connect(st).(inner := Some(items), delivered := false));
        case Refused(e) =>
          if Retryable(e) && !GivesUp(max, SaturatingSucc(st.failures)) {
            RunIsByAttempts(max, CountFailure(max, Connect(st), Some(e)).1);
          }
      }
    }
  }

  lemma {:induction false} RunIsFromInner<S>(max: Option<nat>, st: State<S>)
    requires st.live && st.inner.Some? && (st.delivered ==> st.failures == 0)
    ensures RunFrom(max, st) == FromInner(max, st)
    decreases |st.network|, InnerLength(st)
  {
    RunStep(max, st);
    var items := st.inner.value;
    if items != [] && items[0].Ok? {
      RunIsFromInner(max, TakeFrame(st));
      FromInnerCons(max, st);
    } else if items == [] || Retryable(items[0].error) {
      var next := CloseInner(max, st, FirstError(items)).1;
      if next.live {
        RunIsByAttempts(max, next);
      }
    }
  }

  lemma FromInnerCons<S>(max: Option<nat>, st: State<S>)
    requires st.inner.Some? && st.inner.value != [] && st.inner.value[0].Ok?
    ensures FromInner(max, st) == Before([st.inner.value[0]], FromInner(max, TakeFrame(st)))
  {
    var items := st.inner.value;
    var first, frames, cause := items[0].value, LeadingFrames(items[1..]), FirstError(items[1..]);
    OksCons<SseFrame<S>, ClientError>(first, frames);
    if cause.Some? && !Retryable(cause.value) {
      Associate([items[0]], Oks(frames), Errs(cause));
    } else if frames == [] {
      NothingAfter([items[0]]);
    } else {
      BeforeTwice([items[0]], Oks(frames), ByAttempts(max, 0, st.network));
    }
  }

  // ----- Reference: the attempt that stops the run ---------------------------------------

  /**
    * Attempt `i` completes `m + 1` consecutive attempts that deliver no frame; never for `u32::MAX`,
    * where the count saturates.
    */
  ghost predicate Exhausts<S>(max: Option<nat>, network: seq<Attempt<S>>, i: nat)
    requires i < |network|
  {
    max.Some? && max.value < U32_MAX && i >= max.value && AllBarren(network, i - max.value, i + 1)
  }

  ghost predicate AllBarren<S>(network: seq<Attempt<S>>, lo: nat, hi: nat)
    requires hi <= |network|
  {
    forall j :: lo <= j < hi ==> Barren(network[j])
  }

  ghost predicate StopsAt<S>(max: Option<nat>, network: seq<Attempt<S>>, i: nat)
    requires i < |network|
  {
    Fatal(network[i]) || Exhausts(max, network, i)
  }

  ghost predicate NoStopIn<S>(max: Option<nat>, network: seq<Attempt<S>>, lo: nat, hi: nat)
    requires hi <= |network|
  {
    forall i :: lo <= i < hi ==> !StopsAt(max, network, i)
  }

  function Marks<S>(network: seq<Attempt<S>>): seq<bool> {
    seq(|network|, i requires 0 <= i < |network| => Barren(network[i]))
  }

  /** The number of consecutive marks just before position `i`. */
  function MarkedRun(marks: seq<bool>, i: nat): (n: nat)
    requires i <= |marks|
    ensures n <= i
  {
    if i == 0 || !marks[i - 1] then 0 else 1 + MarkedRun(marks, i - 1)
  }

  /** The number of consecutive barren attempts just before attempt `i`. */
  function BarrenRun<S>(network: seq<Attempt<S>>, i: nat): nat
    requires i <= |network|
  {
    MarkedRun(Marks(network), i)
  }

  lemma {:induction false} MarkedRunMeaning(marks: seq<bool>, i: nat, k: nat)
    requires i <= |marks|
    ensures k <= MarkedRun(marks, i) <==> k <= i && forall j :: i - k <= j < i ==> marks[j]
  {
    if k == 0 || i < k {
    } else {
      MarkedRunMeaning(marks, i - 1, k - 1);
    }
  }

  /** The failure counter at attempt `i`: the barren run, saturated. */
  function Count<S>(network: seq<Attempt<S>>, i: nat): nat
    requires i <= |network|
  {
    Min(BarrenRun(network, i), U32_MAX)
  }

  lemma CountStep<S>(network: seq<Attempt<S>>, i: nat)
    requires i < |network|
    ensures Count(network, i + 1) == if Barren(network[i]) then SaturatingSucc(Count(network, i)) else 0
  {
    assert Marks(network)[i] == Barren(network[i]);
  }

  lemma MarksMeanBarren<S>(network: seq<Attempt<S>>, lo: nat, hi: nat)
    requires hi <= |network|
    ensures AllBarren(network, lo, hi) <==> forall j :: lo <= j < hi ==> Marks(network)[j]
  {
    forall j | 0 <= j < |network|
      ensures Marks(network)[j] == Barren(network[j])
    {
    }
  }

  lemma GivesUpIff<S>(max: Option<nat>, network: seq<Attempt<S>>, i: nat)
    requires i < |network| && Barren(network[i]) && (max.Some? ==> max.value <= U32_MAX)
    ensures GivesUp(max, SaturatingSucc(Count(network, i))) <==> Exhausts(max, network, i)
  {
    if max.Some? && max.value <= i {
      MarkedRunMeaning(Marks(network), i, max.value);
      MarksMeanBarren(network, i - max.value, i);
      OneMoreBarren(network, i - max.value, i);
    }
  }

  lemma OneMoreBarren<S>(network: seq<Attempt<S>>, lo: nat, i: nat)
    requires lo <= i < |network| && Barren(network[i])
    ensures AllBarren(network, lo, i + 1) <==> AllBarren(network, lo, i)
  {
  }

  lemma FirstAttemptFrames<S>(network: seq<Attempt<S>>, i: nat, j: nat)
    requires i < j <= |network|
    ensures AllFrames(network[i..j]) == FramesOf(network[i]) + AllFrames(network[i + 1..j])
  {
    assert network[i..j] == [network[i]] + network[i + 1..j];
    AllFramesAppend([network[i]], network[i + 1..j]);
    AllFramesOne(network[i]);
  }

  /** What the run yields from attempt `i` on, when attempt `j` is the first to stop it, or none does. */
  function FromTo<S>(network: seq<Attempt<S>>, i: nat, j: nat): Outcome<S>
    requires i <= j <= |network|
  {
    if j == |network| then Outcome(Oks(AllFrames(network[i..])), false, 0)
    else Outcome(Oks(AllFrames(network[i..j + 1])) + Errs(CauseOf(network[j])), true, |network| - j - 1)
  }

  lemma {:induction false} ByAttemptsFrom<S>(max: Option<nat>, network: seq<Attempt<S>>, i: nat, j: nat)
    requires i <= j <= |network| && (max.Some? ==> max.value <= U32_MAX)
    requires NoStopIn(max, network, i, j) && (j < |network| ==> StopsAt(max, network, j))
    ensures ByAttempts(max, Count(network, i), network[i..]) == FromTo(network, i, j)
    decreases j - i
  {
    if i == |network| {
    } else if i == j {
      ByAttemptsStep(max, network, i);
      StopHere(network, i);
    } else {
      ByAttemptsGoesOn(max, network, i);
      ByAttemptsFrom(max, network, i + 1, j);
      FromToStep(network, i, j);
    }
  }

  lemma ByAttemptsGoesOn<S>(max: Option<nat>, network: seq<Attempt<S>>, i: nat)
    requires i < |network| && (max.Some? ==> max.value <= U32_MAX) && !StopsAt(max, network, i)
    ensures ByAttempts(max, Count(network, i), network[i..])
         == Before(Oks(FramesOf(network[i])), ByAttempts(max, Count(network, i + 1), network[i + 1..]))
  {
    ByAttemptsStep(max, network, i);
  }

  /** One attempt of the run: it stops the run, or its frames come before the rest. */
  lemma ByAttemptsStep<S>(max: Option<nat>, network: seq<Attempt<S>>, i: nat)
    requires i < |network| && (max.Some? ==> max.value <= U32_MAX)
    ensures ByAttempts(max, Count(network, i), network[i..]) ==
              if StopsAt(max, network, i) then
                Outcome(Oks(FramesOf(network[i])) + Errs(CauseOf(network[i])), true, |network| - i - 1)
              else Before(Oks(FramesOf(network[i])), ByAttempts(max, Count(network, i + 1), network[i + 1..]))
  {
    var rest := ByAttempts(max, Count(network, i + 1), network[i + 1..]);
    DropDrop(network, i, 1);
    assert network[i..][0] == network[i];
    CountStep(network, i);
    if Barren(network[i]) {
      GivesUpIff(max, network, i);
      BeforeNothing(rest);
      NothingBefore(Errs<S>(CauseOf(network[i])));
    } else if max.Some? {
      NotExhausted(max, network, i);
    }
  }

  lemma NotExhausted<S>(max: Option<nat>, network: seq<Attempt<S>>, i: nat)
    requires i < |network| && !Barren(network[i])
    ensures !Exhausts(max, network, i)
  {
  }

  lemma FromToStep<S>(network: seq<Attempt<S>>, i: nat, j: nat)
    requires i < j <= |network|
    ensures FromTo(network, i, j) == Before(Oks(FramesOf(network[i])), FromTo(network, i + 1, j))
  {
    var end := if j == |network| then j else j + 1;
    var head, tail := FramesOf(network[i]), AllFrames(network[i + 1..end]);
    FirstAttemptFrames(network, i, end);
    OksAppend<SseFrame<S>, ClientError>(head, tail);
    assert network[i..|network|] == network[i..] && network[i + 1..|network|] == network[i + 1..];
    if j < |network| {
      Associate(Oks(head), Oks(tail), Errs(CauseOf(network[j])));
    }
  }

  lemma StopHere<S>(network: seq<Attempt<S>>, i: nat)
    requires i < |network|
    ensures FromTo(network, i, i)
         == Outcome(Oks(FramesOf(network[i])) + Errs(CauseOf(network[i])), true, |network| - i - 1)
  {
    FirstAttemptFrames(network, i, i + 1);
    assert network[i + 1..i + 1] == [];
    assert FramesOf(network[i]) + [] == FramesOf(network[i]);
  }

  /**
    * For every script of connection outcomes, the stream yields every frame the attempts deliver, in
    * order, none lost and none repeated.  It ends at the first attempt that fails for good or completes
    * `max_retries + 1` consecutive barren attempts, with that attempt's error, if any, as its last item.
    */
  lemma ReconnectRefines<S>(max: Option<nat>, id: Option<Bytes>, network: seq<Attempt<S>>, stop: nat)
    requires (max.Some? ==> max.value <= U32_MAX) && stop <= |network|
    requires NoStopIn(max, network, 0, stop) && (stop < |network| ==> StopsAt(max, network, stop))
    ensures RunFrom(max, Start(id, network)) ==
              if stop == |network| then Outcome(Oks(AllFrames(network)), false, 0)
              else Outcome(Oks(AllFrames(network[..stop + 1])) + Errs(CauseOf(network[stop])), true,
                           |network| - stop - 1)
  {
    RunIsByAttempts(max, Start(id, network));
    ByAttemptsFrom(max, network, 0, stop);
    assert network[0..] == network;
    if stop < |network| { assert network[0..stop + 1] == network[..stop + 1]; }
  }

  /** Every script has such an attempt, unless nothing in it stops the run. */
  lemma FirstStop<S>(max: Option<nat>, network: seq<Attempt<S>>) returns (stop: nat)
    ensures stop <= |network| && NoStopIn(max, network, 0, stop) && (stop < |network| ==> StopsAt(max, network, stop))
  {
    stop := 0;
    while stop < |network| && !StopsAt(max, network, stop)
      invariant stop <= |network| && NoStopIn(max, network, 0, stop)
    {
      stop := stop + 1;
    }
  }

  /** The stream can give up on retryable failures exactly when `max_retries` is below `u32::MAX`. */
  lemma GivingUpIsPossibleIff<S>(m: nat)
    requires m <= U32_MAX
    ensures (exists network: seq<Attempt<S>> ::
               (forall i :: 0 <= i < |network| ==> !Fatal(network[i])) && RunFrom(Some(m), Start(None, network)).ended)
            <==> m < U32_MAX
  {
    var barren: Attempt<S> := Refused(Http(HttpError(false, None)));
    var outage := seq(m + 1, i => barren);
    assert Barren(barren) && !Fatal(barren);
    if m < U32_MAX {
      assert Exhausts(Some(m), outage, m);
      ReconnectRefines(Some(m), None, outage, m);
    } else {
      forall network: seq<Attempt<S>> | forall i :: 0 <= i < |network| ==> !Fatal(network[i])
        ensures !RunFrom(Some(m), Start(None, network)).ended
      {
        ReconnectRefines(Some(m), None, network, |network|);
      }
    }
  }

  /** `n` attempts in a row that are refused retryably. */
  function Outage<S>(n: nat, e: ClientError): seq<Attempt<S>> {
    seq(n, i => Refused(e))
  }

  /**
    * It takes `max_retries + 1` consecutive failures, not `max_retries`, to end the stream; the last
    * error is then its only item.
    */
  lemma OutageEndsIff<S>(m: nat, n: nat, e: ClientError)
    requires m <= U32_MAX && Retryable(e)
    ensures var r := RunFrom(Some(m), Start(None, Outage<S>(n, e)));
            (r.ended <==> m < U32_MAX && n > m) && r.items == if r.ended then [Err(e)] else []
  {
    var network := Outage<S>(n, e);
    var stop := if m < U32_MAX && n > m then m else n;
    assert forall i :: 0 <= i < n ==> Barren(network[i]) && !Fatal(network[i]);
    ReconnectRefines(Some(m), None, network, stop);
    NoFramesInOutage(network[..if stop < n then stop + 1 else n]);
    assert network[..n] == network;
  }

  lemma {:induction false} NoFramesInOutage<S>(network: seq<Attempt<S>>)
    requires forall i :: 0 <= i < |network| ==> Barren(network[i])
    ensures AllFrames(network) == []
  {
    if network == [] {
      assert FrameLists(network) == [];
    } else {
      HeadAndTail(network);
      AllFramesCons(network[0], network[1..]);
      NoFramesInOutage(network[1..]);
    }
  }

  // ----- The errors that end a run -------------------------------------------------------

  /** Without `max_retries` the failure count decides nothing. */
  lemma {:induction false} CountDecidesNothing<S>(f: nat, g: nat, network: seq<Attempt<S>>)
    ensures ByAttempts(None, f, network) == ByAttempts(None, g, network)
    decreases |network|
  {
    if network != [] && !Fatal(network[0]) && Barren(network[0]) {
      CountDecidesNothing(SaturatingSucc(f), SaturatingSucc(g), network[1..]);
    }
  }

  /** A connection that delivers `frames` and then breaks with `e`; nothing after the error is read. */
  function Broken<S>(frames: seq<SseFrame<S>>, e: ClientError, unread: seq<Item<S>>): Attempt<S> {
    Opened(Oks(frames) + ([Err(e)] + unread))
  }

  lemma {:induction false} BrokenMeaning<S>(frames: seq<SseFrame<S>>, e: ClientError, unread: seq<Item<S>>)
    ensures FramesOf(Broken(frames, e, unread)) == frames && CauseOf(Broken(frames, e, unread)) == Some(e)
  {
    var items: seq<Item<S>> := Oks(frames) + ([Err(e)] + unread);
    if frames == [] {
      NothingBefore([Err(e)] + unread);
    } else {
      BrokenMeaning(frames[1..], e, unread);
      HeadAndTail(frames);
      OksCons<SseFrame<S>, ClientError>(frames[0], frames[1..]);
      assert items[1..] == Oks(frames[1..]) + ([Err(e)] + unread);
    }
  }

  /** The first attempt ends the run, or its frames come before the run of the others. */
  lemma FirstAttemptDecides<S>(a: Attempt<S>, id: Option<Bytes>, rest: seq<Attempt<S>>)
    ensures RunFrom(None, Start(id, [a] + rest)) ==
              if Fatal(a) then Outcome(Oks(FramesOf(a)) + Errs(CauseOf(a)), true, |rest|)
              else Before(Oks(FramesOf(a)), RunFrom(None, Start(id, rest)))
  {
    var network := [a] + rest;
    assert network[0] == a && network[1..] == rest;
    RunIsByAttempts(None, Start(id, network));
    RunIsByAttempts(None, Start(id, rest));
    CountDecidesNothing(SaturatingSucc(0), 0, rest);
    BeforeNothing(ByAttempts(None, 0, rest));
  }

  /**
    * A refused request ends the run exactly when it could not be built or got a status below 500 other
    * than 408 and 429; otherwise the next attempt is made.
    */
  lemma RefusalEndsRunIff<S>(builder: bool, status: Option<nat>, id: Option<Bytes>, rest: seq<Attempt<S>>)
    ensures var e := Http(HttpError(builder, status));
            RunFrom(None, Start(id, [Refused(e)] + rest)) ==
              if builder || (status.Some? && status.value < 500 && status.value != 408 && status.value != 429) then
                Outcome([Err(e)], true, |rest|)
              else RunFrom(None, Start(id, rest))
  {
    var e := Http(HttpError(builder, status));
    FirstAttemptDecides(Refused(e), id, rest);
    NothingBefore(Errs<S>(Some(e)));
    BeforeNothing(RunFrom(None, Start(id, rest)));
  }

  /** The same errors end the run when they break an open connection, after the frames before them. */
  lemma BreakEndsRunIff<S>(builder: bool, status: Option<nat>, frames: seq<SseFrame<S>>, unread: seq<Item<S>>,
                           id: Option<Bytes>, rest: seq<Attempt<S>>)
    ensures var e := Http(HttpError(builder, status));
            RunFrom(None, Start(id, [Broken(frames, e, unread)] + rest)) ==
              if builder || (status.Some? && status.value < 500 && status.value != 408 && status.value != 429) then
                Outcome(Oks(frames) + [Err(e)], true, |rest|)
              else Before(Oks(frames), RunFrom(None, Start(id, rest)))
  {
    var e := Http(HttpError(builder, status));
    BrokenMeaning(frames, e, unread);
    FirstAttemptDecides(Broken(frames, e, unread), id, rest);
  }

  /** Every error that is not an HTTP error ends the run, wherever it occurs and whatever `max_retries` is. */
  lemma OtherErrorsEndRun<S>(max: Option<nat>, e: ClientError, frames: seq<SseFrame<S>>, unread: seq<Item<S>>,
                             id: Option<Bytes>, rest: seq<Attempt<S>>)
    requires !e.Http?
    ensures RunFrom(max, Start(id, [Refused(e)] + rest)) == Outcome([Err(e)], true, |rest|)
    ensures RunFrom(max, Start(id, [Broken(frames, e, unread)] + rest))
         == Outcome(Oks(frames) + [Err(e)], true, |rest|)
  {
    BrokenMeaning(frames, e, unread);
    FatalEndsRun(max, Refused(e), id, rest);
    FatalEndsRun(max, Broken(frames, e, unread), id, rest);
    NothingBefore(Errs<S>(Some(e)));
  }

  lemma FatalEndsRun<S>(max: Option<nat>, a: Attempt<S>, id: Option<Bytes>, rest: seq<Attempt<S>>)
    requires Fatal(a)
    ensures RunFrom(max, Start(id, [a] + rest)) == Outcome(Oks(FramesOf(a)) + Errs(CauseOf(a)), true, |rest|)
  {
    var network := [a] + rest;
    assert network[0] == a;
    RunIsByAttempts(max, Start(id, network));
  }

  // ----- Attempts and waits of one poll --------------------------------------------------

  /** Between polls: at the start, or after a frame. */
  predicate Idle<S>(st: State<S>) {
    st.live && st.failures == 0 && (st.inner.Some? ==> st.delivered)
  }

  /** The failure count of the next request of this poll. */
  function NextCount<S>(st: State<S>): nat {
    if st.inner.Some? && !st.delivered then st.failures + 1 else st.failures
  }

  ghost predicate CountsUp<S>(st: State<S>, next: State<S>, m: nat) {
    && st.sent <= next.sent
    && |next.sent| - |st.sent| <= m + 1 - NextCount(st)
    && forall k :: |st.sent| <= k < |next.sent| ==> next.sent[k].failures == NextCount(st) + (k - |st.sent|)
  }

  lemma {:induction false} PollCountsUp<S>(m: nat, st: State<S>)
    requires m < U32_MAX && st.live && st.failures <= m
    requires st.inner.Some? && st.delivered ==> st.failures == 0
    ensures CountsUp(st, PollSpec(Some(m), st).1, m)
    decreases |st.network|, InnerLength(st)
  {
    var (stop, next) := Step(Some(m), st);
    StepCountsUp(m, st);
    if stop.None? {
      PollCountsUp(m, next);
      CountsUpTransitive(st, next, PollSpec(Some(m), next).1, m);
    }
  }

  /** One turn sends at most one request, with the count that was next. */
  lemma StepCountsUp<S>(m: nat, st: State<S>)
    requires m < U32_MAX && st.live && st.failures <= m
    requires st.inner.Some? && st.delivered ==> st.failures == 0
    ensures var (stop, next) := Step(Some(m), st);
            && CountsUp(st, next, m)
            && (stop.None? ==> next.failures <= m && (next.inner.Some? && next.delivered ==> next.failures == 0)
                               && NextCount(next) == NextCount(st) + (|next.sent| - |st.sent|))
  {
  }

  lemma CountsUpTransitive<S>(a: State<S>, b: State<S>, c: State<S>, m: nat)
    requires CountsUp(a, b, m) && CountsUp(b, c, m) && NextCount(b) == NextCount(a) + (|b.sent| - |a.sent|)
    ensures CountsUp(a, c, m)
  {
  }

  /** A poll makes at most `max_retries + 1` connect attempts; the `k`-th is delayed for `k` failures. */
  lemma PollIsBounded<S>(m: nat, st: State<S>)
    requires m < U32_MAX && Idle(st)
    ensures var (poll, next) := PollSpec(Some(m), st);
            && st.sent <= next.sent && |next.sent| - |st.sent| <= m + 1
            && (forall k :: |st.sent| <= k < |next.sent| ==> next.sent[k].failures == k - |st.sent|)
            && (poll.Yield? && next.live ==> Idle(next))
  {
    PollCountsUp(m, st);
    FrameLeavesIdle(Some(m), st);
  }

  lemma {:induction false} FrameLeavesIdle<S>(max: Option<nat>, st: State<S>)
    requires st.live
    ensures PollSpec(max, st).0.Yield? && PollSpec(max, st).1.live ==> Idle(PollSpec(max, st).1)
    decreases |st.network|, InnerLength(st)
  {
    var (stop, next) := Step(max, st);
    if stop.None? {
      FrameLeavesIdle(max, next);
    }
  }

  lemma {:induction false} SumAppend(a: seq<nat>, b: seq<nat>)
    ensures Sum(a + b) == Sum(a) + Sum(b)
  {
    if b == [] {
      assert a + b == a;
    } else {
      assert (a + b)[..|a + b| - 1] == a + b[..|b| - 1];
      SumAppend(a, b[..|b| - 1]);
    }
  }

  /** The waits of one poll add up to at most `initial * (2^m - 1)` and at most `m * max_delay`. */
  lemma PollWaitIsBounded<S>(policy: Policy, m: nat, st: State<S>, waits: seq<nat>)
    requires m < U32_MAX && Idle(st) && WaitsFit(policy, PollSpec(Some(m), st).1.sent, waits)
    ensures |waits| >= |st.sent|
    ensures Sum(waits[|st.sent|..]) <= policy.initialDelay * (Pow2(m) - 1)
    ensures Sum(waits[|st.sent|..]) <= m * policy.maxDelay
  {
    PollIsBounded(m, st);
    var sent := PollSpec(Some(m), st).1.sent;
    var n := |st.sent|;
    forall k | 0 <= k < |waits[n..]|
      ensures if k == 0 then waits[n..][k] == 0 else InRange(policy, k, waits[n..][k])
    {
      assert waits[n..][k] == waits[n + k] && sent[n + k].failures == k;
    }
    RetryWaits(policy, m, waits[n..]);
  }

  lemma RetryWaits(policy: Policy, m: nat, waits: seq<nat>)
    requires |waits| <= m + 1
    requires forall k :: 0 <= k < |waits| ==> if k == 0 then waits[k] == 0 else InRange(policy, k, waits[k])
    ensures Sum(waits) <= policy.initialDelay * (Pow2(m) - 1) && Sum(waits) <= m * policy.maxDelay
  {
    if waits == [] {
      MoreRetriesWaitLonger(policy, 0, m);
    } else {
      var retries := waits[1..];
      SumAfterZero(waits);
      forall k | 0 <= k < |retries|
        ensures InRange(policy, k + 1, retries[k])
      {
        assert retries[k] == waits[k + 1];
      }
      TotalWait(policy, retries);
      MoreRetriesWaitLonger(policy, |retries|, m);
    }
  }

  lemma SumAfterZero(waits: seq<nat>)
    requires waits != [] && waits[0] == 0
    ensures Sum(waits) == Sum(waits[1..])
  {
    assert waits == [0] + waits[1..];
    SumAppend([0], waits[1..]);
    assert [0][..0] == [] && Sum([0]) == 0;
  }

  lemma MoreRetriesWaitLonger(policy: Policy, n: nat, m: nat)
    requires n <= m
    ensures policy.initialDelay * (Pow2(n) - 1) <= policy.initialDelay * (Pow2(m) - 1)
    ensures n * policy.maxDelay <= m * policy.maxDelay
  {
    Pow2Monotone(n, m);
    Scale(policy.initialDelay, Pow2(n) - 1, Pow2(m) - 1);
    Scale(policy.maxDelay, n, m);
  }

  // ----- Resumption over a whole run -----------------------------------------------------

  lemma {:induction false} FinalUnused<S>(max: Option<nat>, st: State<S>)
    ensures |FinalState(max, st).network| == RunFrom(max, st).unused
    decreases st.live, |st.network|, InnerLength(st)
  {
    var (poll, next) := PollSpec(max, st);
    if !poll.Yield? {
    } else {
      FinalUnused(max, next);
    }
  }

  lemma {:induction false} FinalOnTrack<S>(max: Option<nat>, id: Option<Bytes>, network: seq<Attempt<S>>, st: State<S>)
    requires OnTrack(id, network, st)
    ensures OnTrack(id, network, FinalState(max, st))
    decreases st.live, |st.network|, InnerLength(st)
  {
    PollOnTrack(max, id, network, st);
    if PollSpec(max, st).0.Yield? {
      FinalOnTrack(max, id, network, PollSpec(max, st).1);
    }
  }

  /** The requests a whole run makes. */
  function RequestsOf<S>(max: Option<nat>, id: Option<Bytes>, network: seq<Attempt<S>>): seq<Request> {
    FinalState(max, Start(id, network)).sent
  }

  /**
    * A run uses the script up to the attempt that stops it, one request each, and every request carries
    * the id of the latest frame that had one among all frames delivered before it.
    */
  lemma ResumesFromLatest<S>(max: Option<nat>, id: Option<Bytes>, network: seq<Attempt<S>>)
    ensures SentLatestId(id, network, RequestsOf(max, id, network))
    ensures |RequestsOf(max, id, network)| == |network| - RunFrom(max, Start(id, network)).unused
  {
    StartOnTrack(id, network);
    FinalOnTrack(max, id, network, Start(id, network));
    FinalUnused(max, Start(id, network));
  }

  /** The position after the last frame that carries an id; 0 when none does. */
  function LastIdPosition<S>(frames: seq<SseFrame<S>>): (p: nat)
    ensures p <= |frames|
  {
    if frames == [] || frames[|frames| - 1].id.Some? then |frames|
    else LastIdPosition(frames[..|frames| - 1])
  }

  lemma {:induction false} IdAtPosition<S>(id: Option<Bytes>, frames: seq<SseFrame<S>>)
    ensures var p := LastIdPosition(frames); LastId(id, frames) == if p == 0 then id else frames[p - 1].id
  {
    if frames == [] || frames[|frames| - 1].id.Some? {
    } else {
      IdAtPosition(id, frames[..|frames| - 1]);
    }
  }

  lemma {:induction false} PositionAdvances<S>(frames: seq<SseFrame<S>>, more: seq<SseFrame<S>>)
    ensures LastIdPosition(frames) <= LastIdPosition(frames + more)
  {
    if more == [] {
      assert frames + more == frames;
    } else {
      assert (frames + more)[..|frames + more| - 1] == frames + more[..|more| - 1];
      PositionAdvances(frames, more[..|more| - 1]);
    }
  }

  /** The id sent comes from that position, and the position never moves back: no later attempt sends an older id. */
  lemma NeverRevertsToOlderId<S>(id: Option<Bytes>, frames: seq<SseFrame<S>>, more: seq<SseFrame<S>>)
    ensures LastIdPosition(frames) <= LastIdPosition(frames + more)
    ensures var p := LastIdPosition(frames + more);
            LastId(id, frames + more) == if p == 0 then id else (frames + more)[p - 1].id
  {
    PositionAdvances(frames, more);
    IdAtPosition(id, frames + more);
  }
}
