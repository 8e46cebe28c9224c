/** The reconnecting event stream: `subscribe_events_reconnecting`. */
module Reconnect {
  import opened Common
  import opened Errors
  import opened Sse
  import opened Backoff

  type Item<S> = Result<SseFrame<S>, ClientError>

  /** What one connect attempt leads to: an error, or a connection that delivers items and then ends. */
  datatype Attempt<S> = Refused(error: ClientError) | Opened(items: seq<Item<S>>)

  /** A connect request: the `Last-Event-ID` it carries, and the failure count it was delayed for. */
  datatype Request = Request(lastEventId: Option<Bytes>, failures: nat)

  /** `Pending`: the script of outcomes has run out, and the attempt in flight never completes. */
  datatype Poll<S> = Yield(item: Item<S>) | Done | Pending

  /** Transport failures and HTTP 408, 429 and 5xx. */
  predicate Retryable(e: ClientError) {
    match e {
      case Http(h) =>
        !h.builder && (h.status.None? || h.status.value == 408 || h.status.value == 429 || h.status.value >= 500)
      case _ => false
    }
  }

  function SaturatingSucc(n: nat): nat {
    if n >= U32_MAX then U32_MAX else n + 1
  }

  // ----- Specification of one poll -------------------------------------------------------

  /** The unfold state with its environment: outcomes still to come, requests made, frames handed out. */
  datatype State<S> = State(
    inner: Option<seq<Item<S>>>,
    delivered: bool,
    failures: nat,
    lastEventId: Option<Bytes>,
    live: bool,
    network: seq<Attempt<S>>,
    sent: seq<Request>,
    yielded: seq<SseFrame<S>>)

  function Start<S>(id: Option<Bytes>, network: seq<Attempt<S>>): State<S> {
    State(None, false, 0, id, true, network, [], [])
  }

  function InnerLength<S>(st: State<S>): nat {
    if st.inner.None? then 0 else 1 + |st.inner.value|
  }

  /** A frame is handed out: its id, if it has one, is remembered and the failure count restarts. */
  function TakeFrame<S>(st: State<S>): State<S>
    requires st.inner.Some? && st.inner.value != [] && st.inner.value[0].Ok?
  {
    var frame := st.inner.value[0].value;
    st.(inner := Some(st.inner.value[1..]), delivered := true, failures := 0,
        lastEventId := if frame.id.Some? then frame.id else st.lastEventId,
        yielded := st.yielded + [frame])
  }

  function Connect<S>(st: State<S>): State<S>
    requires st.network != []
  {
    st.(network := st.network[1..], sent := st.sent + [Request(st.lastEventId, st.failures)])
  }

  predicate GivesUp(max: Option<nat>, failures: nat) {
    max.Some? && failures > max.value
  }

  /** Counting a failed attempt: the poll that ends the stream, if it does, and the next state. */
  function CountFailure<S>(max: Option<nat>, st: State<S>, cause: Option<ClientError>): (Option<Poll<S>>, State<S>) {
    var failures := SaturatingSucc(st.failures);
    if GivesUp(max, failures) then
      (Some(if cause.Some? then Yield(Err(cause.value)) else Done), st.(failures := failures, live := false))
    else (None, st.(failures := failures))
  }

  /** The connection ended, cleanly or with a retryable error. */
  function CloseInner<S>(max: Option<nat>, st: State<S>, cause: Option<ClientError>): (Option<Poll<S>>, State<S>) {
    if st.delivered then (None, st.(inner := None)) else CountFailure(max, st.(inner := None), cause)
  }

  /** One iteration of the loop inside a poll. */
  function Step<S>(max: Option<nat>, st: State<S>): (r: (Option<Poll<S>>, State<S>))
    requires st.live
    ensures r.0.None? ==> r.1.live
    ensures r.0 != Some(Pending) && r.1.live ==>
              |r.1.network| < |st.network| || (r.1.network == st.network && InnerLength(r.1) < InnerLength(st))
    ensures r.0 == Some(Done) ==> !r.1.live
  {
    match st.inner {
      case Some(items) =>
        if items == [] then CloseInner(max, st, None)
        else if items[0].Ok? then (Some(Yield(items[0])), TakeFrame(st))
        else if !Retryable(items[0].error) then (Some(Yield(items[0])), st.(live := false))
        else CloseInner(max, st, Some(items[0].error))
      case None =>
        if st.network == [] then (Some(Pending), st)
        else match st.network[0] {
          case Opened(items) => (None, Connect(st).(inner := Some(items), delivered := false))
          case Refused(e) =>
            if !Retryable(e) then (Some(Yield(Err(e))), Connect(st).(live := false))
            else CountFailure(max, Connect(st), Some(e))
        }
    }
  }

  function PollSpec<S>(max: Option<nat>, st: State<S>): (r: (Poll<S>, State<S>))
    ensures r.0.Yield? && r.1.live ==>
              |r.1.network| < |st.network| || (r.1.network == st.network && InnerLength(r.1) < InnerLength(st))
    ensures r.0.Yield? ==> st.live
    ensures r.0.Done? ==> !r.1.live
    decreases |st.network|, InnerLength(st)
  {
    if !st.live then (Done, st)
    else
      var (stop, next) := Step(max, st);
      if stop.Some? then (stop.value, next) else PollSpec(max, next)
  }

  // ----- Resumption ----------------------------------------------------------------------

  /** The frames a connection delivers: those before its first error. */
  function LeadingFrames<S>(items: seq<Item<S>>): seq<SseFrame<S>> {
    if items == [] || items[0].Err? then [] else [items[0].value] + LeadingFrames(items[1..])
  }

  function FramesOf<S>(a: Attempt<S>): seq<SseFrame<S>> {
    match a {
      case Refused(_) => []
      case Opened(items) => LeadingFrames(items)
    }
  }

  /** Every frame the given attempts deliver, in order. */
  function AllFrames<S>(network: seq<Attempt<S>>): seq<SseFrame<S>> {
    Flatten(FrameLists(network))
  }

  function FrameLists<S>(network: seq<Attempt<S>>): seq<seq<SseFrame<S>>> {
    seq(|network|, i requires 0 <= i < |network| => FramesOf(network[i]))
  }

  lemma AllFramesAppend<S>(a: seq<Attempt<S>>, b: seq<Attempt<S>>)
    ensures AllFrames(a + b) == AllFrames(a) + AllFrames(b)
  {
    assert FrameLists(a + b) == FrameLists(a) + FrameLists(b);
    FlattenAppend(FrameLists(a), FrameLists(b));
  }

  lemma AllFramesOne<S>(a: Attempt<S>)
    ensures AllFrames([a]) == FramesOf(a)
  {
    var lists := FrameLists([a]);
    assert |lists| == 1 && lists[0] == FramesOf(a) && lists[1..] == [];
    assert Flatten(lists) == lists[0] + Flatten(lists[1..]);
  }

  /** The id of the most recent frame that carried one, or the initial value. */
  function LastId<S>(initial: Option<Bytes>, frames: seq<SseFrame<S>>): Option<Bytes> {
    if frames == [] then initial
    else if frames[|frames| - 1].id.Some? then frames[|frames| - 1].id
    else LastId(initial, frames[..|frames| - 1])
  }

  lemma AllFramesCons<S>(a: Attempt<S>, rest: seq<Attempt<S>>)
    ensures AllFrames([a] + rest) == FramesOf(a) + AllFrames(rest)
  {
    AllFramesAppend([a], rest);
    AllFramesOne(a);
  }

  lemma AllFramesSnoc<S>(network: seq<Attempt<S>>, n: nat)
    requires n < |network|
    ensures AllFrames(network[..n + 1]) == AllFrames(network[..n]) + FramesOf(network[n])
  {
    assert network[..n + 1] == network[..n] + [network[n]];
    AllFramesAppend(network[..n], [network[n]]);
    AllFramesOne(network[n]);
  }

  /** Every request carried the id of the last frame with an id among all frames of the attempts before it. */
  ghost predicate SentLatestId<S>(initial: Option<Bytes>, network: seq<Attempt<S>>, sent: seq<Request>) {
    |sent| <= |network|
    && forall k :: 0 <= k < |sent| ==> sent[k].lastEventId == LastId(initial, AllFrames(network[..k]))
  }

  /** The frames handed out are those of the attempts made, up to what the open connection still holds. */
  ghost predicate HandedOut<S>(network: seq<Attempt<S>>, st: State<S>) {
    && |st.sent| + |st.network| == |network| && st.network == network[|st.sent|..]
    && AllFrames(network[..|st.sent|]) == st.yielded + (if st.inner.Some? then LeadingFrames(st.inner.value) else [])
  }

  ghost predicate OnTrack<S>(initial: Option<Bytes>, network: seq<Attempt<S>>, st: State<S>) {
    && HandedOut(network, st)
    && st.lastEventId == LastId(initial, st.yielded)
    && SentLatestId(initial, network, st.sent)
  }

  lemma StartOnTrack<S>(initial: Option<Bytes>, network: seq<Attempt<S>>)
    ensures OnTrack(initial, network, Start(initial, network))
  {
    assert network[0..] == network;
  }

  lemma TakeFrameOnTrack<S>(initial: Option<Bytes>, network: seq<Attempt<S>>, st: State<S>)
    requires OnTrack(initial, network, st)
    requires st.inner.Some? && st.inner.value != [] && st.inner.value[0].Ok?
    ensures OnTrack(initial, network, TakeFrame(st))
  {
    LastIdAfter(initial, st.yielded, st.inner.value[0].value);
    LeadingFramesAfter(st.yielded, st.inner.value);
  }

  lemma LastIdAfter<S>(initial: Option<Bytes>, frames: seq<SseFrame<S>>, frame: SseFrame<S>)
    ensures LastId(initial, frames + [frame]) == if frame.id.Some? then frame.id else LastId(initial, frames)
  {
    assert (frames + [frame])[..|frames|] == frames;
  }

  lemma LeadingFramesAfter<S>(yielded: seq<SseFrame<S>>, items: seq<Item<S>>)
    requires items != [] && items[0].Ok?
    ensures yielded + [items[0].value] + LeadingFrames(items[1..]) == yielded + LeadingFrames(items)
  {
  }

  /** After the next attempt: its connection is open, if there is one. */
  function Connected<S>(st: State<S>): State<S>
    requires st.network != []
  {
    Connect(st).(inner := if st.network[0].Opened? then Some(st.network[0].items) else None)
  }

  lemma ConnectHandsOut<S>(network: seq<Attempt<S>>, st: State<S>)
    requires HandedOut(network, st) && st.inner.None? && st.network != []
    ensures HandedOut(network, Connected(st))
  {
    var n := |st.sent|;
    NothingAfter(st.yielded);
    DropDrop(network, n, 1);
    assert st.network[0] == network[n];
    AllFramesSnoc(network, n);
    if st.network[0].Refused? { NothingAfter(AllFrames(network[..n])); }
  }

  /** The request just made carries the id of the frames before it, none of which is still unread. */
  lemma ConnectSendsLatest<S>(initial: Option<Bytes>, network: seq<Attempt<S>>, st: State<S>)
    requires OnTrack(initial, network, st) && st.inner.None? && st.network != []
    ensures SentLatestId(initial, network, Connected(st).sent)
  {
    NothingAfter(st.yielded);
    assert st.yielded == AllFrames(network[..|st.sent|]);
  }

  lemma ConnectOnTrack<S>(initial: Option<Bytes>, network: seq<Attempt<S>>, st: State<S>)
    requires OnTrack(initial, network, st) && st.inner.None? && st.network != []
    ensures OnTrack(initial, network, Connected(st))
  {
    ConnectHandsOut(network, st);
    ConnectSendsLatest(initial, network, st);
  }

  lemma StepOnTrack<S>(max: Option<nat>, initial: Option<Bytes>, network: seq<Attempt<S>>, st: State<S>)
    requires st.live && OnTrack(initial, network, st)
    ensures OnTrack(initial, network, Step(max, st).1)
  {
    if st.inner.Some? {
      ItemOnTrack(max, initial, network, st);
    } else if st.network != [] {
      ConnectOnTrack(initial, network, st);
      OnTrackRelies(initial, network, Connected(st), Step(max, st).1);
    }
  }

  lemma ItemOnTrack<S>(max: Option<nat>, initial: Option<Bytes>, network: seq<Attempt<S>>, st: State<S>)
    requires st.live && OnTrack(initial, network, st) && st.inner.Some?
    ensures OnTrack(initial, network, Step(max, st).1)
  {
    var next := Step(max, st).1;
    if st.inner.value != [] && st.inner.value[0].Ok? {
      TakeFrameOnTrack(initial, network, st);
    } else if next.inner.None? {
      CloseOnTrack(initial, network, st);
      OnTrackRelies(initial, network, st.(inner := None), next);
    } else {
      OnTrackRelies(initial, network, st, next);
    }
  }

  /** Counters and flags do not matter. */
  lemma OnTrackRelies<S>(initial: Option<Bytes>, network: seq<Attempt<S>>, a: State<S>, b: State<S>)
    requires OnTrack(initial, network, a)
    requires a.inner == b.inner && a.network == b.network && a.sent == b.sent
    requires a.yielded == b.yielded && a.lastEventId == b.lastEventId
    ensures OnTrack(initial, network, b)
  {
  }

  /** Dropping a connection that has nothing left loses nothing. */
  lemma CloseOnTrack<S>(initial: Option<Bytes>, network: seq<Attempt<S>>, st: State<S>)
    requires OnTrack(initial, network, st) && st.inner.Some? && LeadingFrames(st.inner.value) == []
    ensures OnTrack(initial, network, st.(inner := None))
  {
  }

  /** Every poll of every run keeps the stream on track. */
  lemma {:induction false} PollOnTrack<S>(max: Option<nat>, initial: Option<Bytes>, network: seq<Attempt<S>>,
                                          st: State<S>)
    requires OnTrack(initial, network, st)
    ensures OnTrack(initial, network, PollSpec(max, st).1)
    decreases |st.network|, InnerLength(st)
  {
    if !st.live {
    } else {
      StepOnTrack(max, initial, network, st);
      if Step(max, st).0.None? {
        PollOnTrack(max, initial, network, Step(max, st).1);
      }
    }
  }

  // ----- The loop ------------------------------------------------------------------------

  /** Each attempt was delayed by the backoff of its failure count; the first and any after a delivery, not at all. */
  predicate WaitsFit(policy: Policy, sent: seq<Request>, waits: seq<nat>) {
    && |waits| == |sent|
    && forall k :: 0 <= k < |sent| ==>
         if sent[k].failures == 0 then waits[k] == 0 else InRange(policy, sent[k].failures, waits[k])
  }

  class SseReconnectState<S> {
    const policy: Policy
    var lastEventId: Option<Bytes>
    var inner: Option<seq<Item<S>>>
    var delivered: bool
    var failures: nat
    /** `false` once the unfold state is `None`. */
    var live: bool
    /** The outcomes of the connect attempts still to come. */
    var network: seq<Attempt<S>>

    ghost const initialId: Option<Bytes>
    ghost const script: seq<Attempt<S>>
    ghost var sent: seq<Request>
    ghost var waits: seq<nat>
    ghost var yielded: seq<SseFrame<S>>

    ghost function Model(): State<S>
      reads this
    {
      State(inner, delivered, failures, lastEventId, live, network, sent, yielded)
    }

    ghost predicate Delayed()
      reads this
    {
      failures <= U32_MAX && WaitsFit(policy, sent, waits)
    }

    ghost predicate Valid()
      reads this
    {
      Delayed() && OnTrack(initialId, script, Model())
    }

    constructor (policy: Policy, lastEventId: Option<Bytes>, network: seq<Attempt<S>>)
      ensures Valid() && Model() == Start(lastEventId, network)
      ensures this.policy == policy && initialId == lastEventId && script == network
    {
      this.policy := policy;
      this.lastEventId := lastEventId;
      this.network := network;
      inner, delivered, failures, live := None, false, 0, true;
      initialId, script := lastEventId, network;
      sent, waits, yielded := [], [], [];
      new;
      StartOnTrack(lastEventId, network);
    }

    method Next() returns (r: Poll<S>)
      requires Valid()
      modifies this
      ensures Valid()
      ensures (r, Model()) == PollSpec(policy.maxRetries, old(Model()))
    {
      PollOnTrack(policy.maxRetries, initialId, script, Model());
      if !live {
        return Done;
      }
      while true
        invariant Delayed() && live
        invariant PollSpec(policy.maxRetries, Model()) == PollSpec(policy.maxRetries, old(Model()))
        decreases |network|, InnerLength(Model())
      {
        var stop := Iterate();
        if stop.Some? {
          return stop.value;
        }
      }
    }

    /** One turn of the loop; `None` means `continue`. */
    method Iterate() returns (stop: Option<Poll<S>>)
      requires Delayed() && live
      modifies this
      ensures Delayed()
      ensures (stop, Model()) == Step(policy.maxRetries, old(Model()))
    {
      var lastErr: Option<ClientError> := None;
      if inner.Some? {
        var items := inner.value;
        if items != [] {
          match items[0] {
            case Ok(frame) =>
              inner := Some(items[1..]);
              if frame.id.Some? {
                lastEventId := frame.id;
              }
              delivered, failures := true, 0;
              yielded := yielded + [frame];
              return Some(Yield(Ok(frame)));
            case Err(e) =>
              if !Retryable(e) {
                live := false;
                return Some(Yield(Err(e)));
              }
              lastErr := Some(e);
          }
        }
        inner := None;
        if delivered {
          return None;
        }
      } else {
        if network == [] {
          return Some(Pending);
        }
        var outcome := Connect();
        match outcome {
          case Opened(items) =>
            inner, delivered := Some(items), false;
            return None;
          case Refused(e) =>
            if !Retryable(e) {
              live := false;
              return Some(Yield(Err(e)));
            }
            lastErr := Some(e);
        }
      }
      failures := SaturatingSucc(failures);
      if policy.maxRetries.Some? && failures > policy.maxRetries.value {
        live := false;
        return Some(match lastErr { case Some(e) => Yield(Err(e)) case None => Done });
      }
      return None;
    }

    /** The sleep, then the request with the id remembered so far. */
    method Connect() returns (outcome: Attempt<S>)
      requires Delayed() && network != []
      modifies this`network, this`sent, this`waits
      ensures Delayed() && outcome == old(network)[0] && network == old(network)[1..]
      ensures sent == old(sent) + [Request(lastEventId, failures)]
    {
      var delay := 0;
      if failures > 0 {
        var jitter: u64 := *;
        DelayInRange(policy, failures, jitter);
        delay := DelayFor(policy, failures, jitter);
      }
      outcome := network[0];
      network := network[1..];
      sent, waits := sent + [Request(lastEventId, failures)], waits + [delay];
    }
  }
}
