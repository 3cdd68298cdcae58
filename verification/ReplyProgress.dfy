/** When a call gets its reply, when it gives up, and when a reply nobody wants holds up the others. */
module ReplyProgress {
  import opened CString
  import opened FrameFacts
  import opened Frames
  import opened ReplyMatching

  /** The state after further actions. */
  function Continue(scan: Scanner, cap: Q.uint16, s: State, actions: seq<Action>): State
    decreases |actions|
  {
    if actions == [] then s else Continue(scan, cap, Next(scan, cap, s, actions[0]), actions[1..])
  }

  lemma {:induction false} ContinueConcat(scan: Scanner, cap: Q.uint16, s: State, a: seq<Action>, b: seq<Action>)
    ensures Continue(scan, cap, s, a + b) == Continue(scan, cap, Continue(scan, cap, s, a), b)
    decreases |a|
  {
    hide Next;
    if a == [] {
      assert a + b == b;
    } else {
      assert (a + b)[1..] == a[1..] + b;
      ContinueConcat(scan, cap, Next(scan, cap, s, a[0]), a[1..], b);
    }
  }

  lemma {:induction false} RunIsContinue(scan: Scanner, cap: Q.uint16, actions: seq<Action>)
    ensures Run(scan, cap, actions) == Continue(scan, cap, INITIAL, actions)
  {
    if actions != [] {
      var before, a := actions[..|actions| - 1], actions[|actions| - 1];
      RunIsContinue(scan, cap, before);
      ContinueConcat(scan, cap, INITIAL, before, [a]);
      assert actions == before + [a];
      hide Next;
    }
  }

  lemma {:induction false} StaysUndefined(scan: Scanner, cap: Q.uint16, s: State, actions: seq<Action>)
    requires s.undefined
    ensures Continue(scan, cap, s, actions) == s
    decreases |actions|
  {
    if actions != [] {
      StaysUndefined(scan, cap, s, actions[1..]);
    }
  }

  // ---- Every call returns ----

  function PollsOf(thread: nat, actions: seq<Action>): (r: nat)
    ensures r <= |actions|
  {
    if actions == [] then 0
    else PollsOf(thread, actions[1..]) + (if actions[0] == Poll(thread) then 1 else 0)
  }

  /** What a poll makes its call return, if it returns: nothing once its countdown is 0, else the reply at the front. */
  ghost predicate ReturnsNow(scan: Scanner, before: State, after: State, r: Request) {
    && r.thread in before.calls && before.calls[r.thread].request == r && after.calls == before.calls - {r.thread}
    && if before.calls[r.thread].count == 0 then
         after.returned == before.returned + [Returned(r, None)] && after.exits == before.exits
       else
         && before.replies != [] && Reads(scan, r, before.replies[0]).Got?
         && var result := Returned(r, Some(Reads(scan, r, before.replies[0]).readings));
            after.returned == before.returned + [result]
              && after.exits == before.exits + [Given(before.replies[0], result)]
  }

  lemma PollOfOther(scan: Scanner, cap: Q.uint16, s: State, thread: nat, a: Action)
    requires thread in s.calls && a != Poll(thread) && !Next(scan, cap, s, a).undefined
    ensures var s' := Next(scan, cap, s, a); thread in s'.calls && s'.calls[thread] == s.calls[thread]
  {
    hide Reads, Q.Pushed, Q.Overflows;
  }

  lemma PollOfThis(scan: Scanner, cap: Q.uint16, s: State, thread: nat)
    requires thread in s.calls && s.calls[thread].request.thread == thread
      && !Next(scan, cap, s, Poll(thread)).undefined
    ensures var s' := Next(scan, cap, s, Poll(thread));
      ReturnsNow(scan, s, s', s.calls[thread].request)
      || (s.calls[thread].count > 0
          && s' == s.(calls := s.calls[thread := s.calls[thread].(count := s.calls[thread].count - 1)]))
  {
    hide Reads;
  }

  /**
   * A call that is polled once more than its countdown returns by then, whatever the other threads do meanwhile, unless
   * one reads outside a frame first: with the reading of the reply at the front, or without one, and then only after
   * that many polls of its own.
   */
  lemma {:induction false} EveryCallReturns(scan: Scanner, cap: Q.uint16, s: State, thread: nat, actions: seq<Action>)
    returns (n: nat)
    requires thread in s.calls && s.calls[thread].request.thread == thread
    requires PollsOf(thread, actions) > s.calls[thread].count
    ensures n < |actions|
    ensures var (before, after) := (Continue(scan, cap, s, actions[..n]), Continue(scan, cap, s, actions[..n + 1]));
      after.undefined
      || (ReturnsNow(scan, before, after, s.calls[thread].request)
          && actions[n] == Poll(thread)
          && PollsOf(thread, actions[..n]) + before.calls[thread].count == s.calls[thread].count)
    decreases |actions|
  {
    hide *;
    var s1 := Next(scan, cap, s, actions[0]);
    n := 0;
    OneStepIn(scan, cap, s, thread, actions, 0);
    OneStepIn(scan, cap, s, thread, actions, 1);
    if s1.undefined {
      return;
    }
    if actions[0] == Poll(thread) {
      PollOfThis(scan, cap, s, thread);
      if ReturnsNow(scan, s, s1, s.calls[thread].request) {
        return;
      }
    } else {
      PollOfOther(scan, cap, s, thread, actions[0]);
    }
    var k := EveryCallReturns(scan, cap, s1, thread, actions[1..]);
    n := k + 1;
    OneStepIn(scan, cap, s, thread, actions, n);
    OneStepIn(scan, cap, s, thread, actions, n + 1);
  }

  /** The first action and then those before the `n`th. */
  lemma OneStepIn(scan: Scanner, cap: Q.uint16, s: State, thread: nat, actions: seq<Action>, n: nat)
    requires actions != [] && n <= |actions|
    ensures Continue(scan, cap, s, actions[..n])
      == if n == 0 then s else Continue(scan, cap, Next(scan, cap, s, actions[0]), actions[1..][..n - 1])
    ensures n == 1 ==> Continue(scan, cap, s, actions[..n]) == Next(scan, cap, s, actions[0])
    ensures PollsOf(thread, actions[..n])
      == if n == 0 then 0 else PollsOf(thread, actions[1..][..n - 1]) + (if actions[0] == Poll(thread) then 1 else 0)
    ensures PollsOf(thread, actions) == PollsOf(thread, actions[1..]) + (if actions[0] == Poll(thread) then 1 else 0)
  {
    hide Next;
    if n > 0 {
      assert actions[..n][1..] == actions[1..][..n - 1];
    }
  }

  // ---- When a call gets a reply ----

  /**
   * A polling call gets reply number `n` of those received exactly when `n` replies have left before it and it reads
   * it.
   */
  lemma {:induction false} ReplyDeliveredIff(scan: Scanner, cap: Q.uint16, actions: seq<Action>, thread: nat)
    requires var s := Run(scan, cap, actions); !s.undefined && thread in s.calls
    ensures var (s, s') := (Run(scan, cap, actions), Run(scan, cap, actions + [Poll(thread)]));
      var (call, all, n) := (s.calls[thread], ReceivedBy(actions), |s.exits|);
      (!s'.undefined && |s'.returned| > |s.returned| && s'.returned[|s.returned|].readings.Some?) <==>
        call.count > 0 && n < |all| && Reads(scan, call.request, all[n]).Got?
    ensures var (s, s') := (Run(scan, cap, actions), Run(scan, cap, actions + [Poll(thread)]));
      !s'.undefined && |s'.returned| > |s.returned| && s'.returned[|s.returned|].readings.Some? ==>
        s'.returned[|s.returned|] ==
          Returned(s.calls[thread].request,
                   Some(Reads(scan, s.calls[thread].request, ReceivedBy(actions)[|s.exits|]).readings))
  {
    var s := Run(scan, cap, actions);
    RunKeeps(scan, cap, actions);
    ReceivedIs(scan, cap, actions);
    assert (actions + [Poll(thread)])[..|actions|] == actions;
    assert Run(scan, cap, actions + [Poll(thread)]) == Next(scan, cap, s, Poll(thread));
    hide Run, ReceivedBy, Next;
    PollDelivers(scan, cap, s, thread);
  }

  lemma PollDelivers(scan: Scanner, cap: Q.uint16, s: State, thread: nat)
    requires Inv(scan, cap, s) && !s.undefined && thread in s.calls
    ensures var s' := Next(scan, cap, s, Poll(thread));
      var (call, n) := (s.calls[thread], |s.exits|);
      && ((!s'.undefined && |s'.returned| > |s.returned| && s'.returned[|s.returned|].readings.Some?) <==>
           call.count > 0 && n < |s.received| && Reads(scan, call.request, s.received[n]).Got?)
      && (!s'.undefined && |s'.returned| > |s.returned| && s'.returned[|s.returned|].readings.Some? ==>
           s'.returned[|s.returned|] == Returned(call.request, Some(Reads(scan, call.request, s.received[n]).readings)))
  {
    hide Inv, Reads;
    FrontIsReceived(scan, cap, s);
  }

  lemma FrontIsReceived(scan: Scanner, cap: Q.uint16, s: State)
    requires Inv(scan, cap, s)
    ensures |s.received| == |s.exits| + |s.replies|
    ensures s.replies != [] ==> s.received[|s.exits|] == s.replies[0]
  {
    hide AllProper, Takers, Successes, Identified;
  }

  // ---- A reply that nobody wants ----

  /** Some call in progress would not refuse the reply at the front. */
  ghost predicate Wanted(scan: Scanner, s: State)
    requires s.replies != []
  {
    exists t :: t in s.calls && s.calls[t].count > 0 && !Reads(scan, s.calls[t].request, s.replies[0]).Refused?
  }

  function AfterPolls(scan: Scanner, cap: Q.uint16, s: State, polls: seq<nat>): State
    decreases |polls|
  {
    if polls == [] then s else AfterPolls(scan, cap, Next(scan, cap, s, Poll(polls[0])), polls[1..])
  }

  /** However the calls poll, the queue stays as it is exactly when no call in progress wants the reply at its front. */
  lemma {:induction false} FrontMovesIffWanted(scan: Scanner, cap: Q.uint16, s: State)
    requires !s.undefined && s.replies != []
    ensures (exists polls :: var s' := AfterPolls(scan, cap, s, polls); s'.undefined || s'.replies != s.replies)
        <==> Wanted(scan, s)
  {
    hide Next, AfterPolls, Wanted;
    if Wanted(scan, s) {
      var t := WantedMoves(scan, cap, s);
      var s' := AfterPolls(scan, cap, s, [t]);
      assert s'.undefined || s'.replies != s.replies;
    } else {
      forall polls
        ensures var s' := AfterPolls(scan, cap, s, polls); !s'.undefined && s'.replies == s.replies
      {
        UnwantedUnderPolls(scan, cap, s, polls);
      }
    }
  }

  lemma WantedMoves(scan: Scanner, cap: Q.uint16, s: State) returns (t: nat)
    requires !s.undefined && s.replies != [] && Wanted(scan, s)
    ensures var s' := AfterPolls(scan, cap, s, [t]); s'.undefined || s'.replies == s.replies[1..]
  {
    t :| t in s.calls && s.calls[t].count > 0 && !Reads(scan, s.calls[t].request, s.replies[0]).Refused?;
    hide Reads;
    assert AfterPolls(scan, cap, Next(scan, cap, s, Poll(t)), [t][1..]) == Next(scan, cap, s, Poll(t));
  }

  lemma {:induction false} UnwantedUnderPolls(scan: Scanner, cap: Q.uint16, s: State, polls: seq<nat>)
    requires !s.undefined && s.replies != [] && !Wanted(scan, s)
    ensures var s' := AfterPolls(scan, cap, s, polls); !s'.undefined && s'.replies == s.replies && !Wanted(scan, s')
    decreases |polls|
  {
    if polls != [] {
      var s1 := Next(scan, cap, s, Poll(polls[0]));
      UnwantedStays(scan, cap, s, Poll(polls[0]));
      UnwantedUnderPolls(scan, cap, s1, polls[1..]);
    }
  }

  function Arrivals(actions: seq<Action>): seq<string> {
    if actions == [] then []
    else
      (if actions[0].Receive? && actions[0].command == CMD_GET then [actions[0].frame] else []) + Arrivals(actions[1..])
  }

  /** A call that starts refuses a given reply. */
  ghost predicate Refuses(scan: Scanner, a: Action, frame: string) {
    a.Start? ==> ReadReply(scan, a.device, a.types, frame).Refused?
  }

  lemma UnwantedStays(scan: Scanner, cap: Q.uint16, s: State, a: Action)
    requires !s.undefined && s.replies != [] && !Wanted(scan, s) && Refuses(scan, a, s.replies[0])
    requires a.Receive? && a.command == CMD_GET ==> |s.replies| < Q.Bound(cap)
    ensures var s' := Next(scan, cap, s, a);
      && !s'.undefined && s'.exits == s.exits
      && s'.replies == s.replies + (if a.Receive? && a.command == CMD_GET then [a.frame] else [])
      && !Wanted(scan, s')
  {
    hide ReadReply;
  }

  /**
   * Until the queue overflows, a reply at its front that no call wants, and that no new call wants either, stays
   * there with all replies behind it: arrivals queue up, and no call is given anything.
   */
  lemma {:induction false} UnwantedBlocks(scan: Scanner, cap: Q.uint16, s: State, actions: seq<Action>)
    requires !s.undefined && s.replies != [] && !Wanted(scan, s)
    requires |s.replies| + |Arrivals(actions)| <= Q.Bound(cap)
    requires forall i :: 0 <= i < |actions| ==> Refuses(scan, actions[i], s.replies[0])
    ensures var s' := Continue(scan, cap, s, actions);
      && !s'.undefined && s'.exits == s.exits && s'.replies == s.replies + Arrivals(actions) && !Wanted(scan, s')
    decreases |actions|
  {
    if actions != [] {
      var s1 := Next(scan, cap, s, actions[0]);
      assert Refuses(scan, actions[0], s.replies[0]);
      UnwantedStays(scan, cap, s, actions[0]);
      assert s1.replies[0] == s.replies[0];
      forall i | 0 <= i < |actions[1..]|
        ensures Refuses(scan, actions[1..][i], s1.replies[0])
      {
        assert actions[1..][i] == actions[i + 1];
      }
      ArrivalsSplit(s.replies, actions);
      hide Next, Refuses, Wanted, Arrivals;
      UnwantedBlocks(scan, cap, s1, actions[1..]);
    }
  }

  lemma ArrivalsSplit(replies: seq<string>, actions: seq<Action>)
    requires actions != []
    ensures var first := if actions[0].Receive? && actions[0].command == CMD_GET then [actions[0].frame] else [];
      && replies + Arrivals(actions) == replies + first + Arrivals(actions[1..])
      && |Arrivals(actions)| == |first| + |Arrivals(actions[1..])|
  {
    var first := if actions[0].Receive? && actions[0].command == CMD_GET then [actions[0].frame] else [];
    var rest := Arrivals(actions[1..]);
    assert Arrivals(actions) == first + rest;
    hide Arrivals;
    assert replies + (first + rest) == replies + first + rest;
  }

  /** It does happen: a call waits for the lamp, and the first reply to arrive is the door's. */
  lemma StrangerAtFront(scan: Scanner, cap: Q.uint16)
    ensures var s := Run(scan, cap, [Start(0, "lamp", []), Receive(CMD_GET, EventText("door", 7, "repget", ["30"]))]);
      !s.undefined && 0 in s.calls && s.replies != [] && !Wanted(scan, s)
  {
    var frame := EventText("door", 7, "repget", ["30"]);
    EventIsRead("door", 7, "repget", ["30"]);
    hide TakeEvent, EventText;
    var s1 := Begin(INITIAL, 0, "lamp", []);
    RunOfTwo(scan, cap, Start(0, "lamp", []), Receive(CMD_GET, frame));
    assert Next(scan, cap, INITIAL, Start(0, "lamp", [])) == s1;
    hide Run;
    assert Next(scan, cap, s1, Receive(CMD_GET, frame)) == Arrive(s1, cap, frame);
    assert "door" != "lamp";
  }

  lemma RunOfTwo(scan: Scanner, cap: Q.uint16, a: Action, b: Action)
    ensures Run(scan, cap, [a, b]) == Next(scan, cap, Next(scan, cap, INITIAL, a), b)
  {
    hide Next;
    assert [a, b][..1] == [a] && [a][..0] == [];
    assert Run(scan, cap, []) == INITIAL;
    assert Run(scan, cap, [a]) == Next(scan, cap, INITIAL, a);
  }

  // ---- Late replies ----

  /** The call `r` is given a reply that was received before it sent its request. */
  ghost predicate GivenStale(scan: Scanner, cap: Q.uint16, s: State, r: Request, actions: seq<Action>) {
    var s' := Continue(scan, cap, s, actions);
    exists i :: 0 <= i < |s'.exits| && i < r.since && s'.exits[i].Given? && s'.exits[i].to.request == r
  }

  /** Nothing that has left the queue changes; what was received stays the beginning of what is received. */
  ghost predicate Extends(s: State, s': State) {
    s.exits <= s'.exits && s.received <= s'.received
  }

  lemma NextExtends(scan: Scanner, cap: Q.uint16, s: State, a: Action)
    ensures Extends(s, Next(scan, cap, s, a))
  {
    hide Reads, Q.Pushed, Q.Overflows;
  }

  lemma {:induction false} ContinueExtends(scan: Scanner, cap: Q.uint16, s: State, actions: seq<Action>)
    requires Inv(scan, cap, s)
    ensures Extends(s, Continue(scan, cap, s, actions)) && Inv(scan, cap, Continue(scan, cap, s, actions))
    decreases |actions|
  {
    if actions != [] {
      NextExtends(scan, cap, s, actions[0]);
      NextKeeps(scan, cap, s, actions[0]);
      hide Next, Inv;
      ContinueExtends(scan, cap, Next(scan, cap, s, actions[0]), actions[1..]);
    }
  }

  /** Arrivals alone, of whatever frame, bring the reply at position `k` to the front. */
  lemma {:induction false} BroughtToFront(scan: Scanner, cap: Q.uint16, s: State, k: nat, frame: string)
    returns (actions: seq<Action>)
    requires !s.undefined && k < |s.replies| <= Q.Bound(cap)
    ensures var s' := Continue(scan, cap, s, actions);
      && !s'.undefined && s'.calls == s.calls && s'.replies != [] && s'.replies[0] == s.replies[k]
      && |s'.exits| == |s.exits| + k
    decreases Q.Bound(cap) - |s.replies| + k
  {
    actions := [];
    if k > 0 {
      var a := Receive(CMD_GET, frame);
      var s1 := Next(scan, cap, s, a);
      var j := if |s.replies| == Q.Bound(cap) then k - 1 else k;
      assert s1.replies[j] == s.replies[k];
      var rest := BroughtToFront(scan, cap, s1, j, frame);
      actions := [a] + rest;
      assert actions[1..] == rest;
    }
  }

  /**
   * A call can be given a reply received before it sent its request, such as one to an earlier call that had given up,
   * exactly when a reply it would read is queued at that moment. With none queued, what it gets was received after it
   * began.
   */
  lemma {:induction false} StaleIffQueued(scan: Scanner, cap: Q.uint16, s: State, thread: nat, device: string,
                                          types: seq<ValueType>)
    requires Inv(scan, cap, s) && !s.undefined && thread !in s.calls
    ensures var s1 := Begin(s, thread, device, types);
      (exists actions :: GivenStale(scan, cap, s1, s1.calls[thread].request, actions))
      <==> exists k :: 0 <= k < |s.replies| && ReadReply(scan, device, types, s.replies[k]).Got?
  {
    var s1 := Begin(s, thread, device, types);
    var r := s1.calls[thread].request;
    BeginKeeps(scan, cap, s, thread, device, types);
    if k :| 0 <= k < |s.replies| && ReadReply(scan, device, types, s.replies[k]).Got? {
      var actions := StaleRun(scan, cap, s, thread, device, types, k);
    }
    if actions :| GivenStale(scan, cap, s1, r, actions) {
      var i := StaleWasQueued(scan, cap, s, thread, device, types, actions);
    }
  }

  lemma StaleRun(scan: Scanner, cap: Q.uint16, s: State, thread: nat, device: string, types: seq<ValueType>, k: nat)
    returns (actions: seq<Action>)
    requires Inv(scan, cap, s) && !s.undefined && thread !in s.calls
    requires k < |s.replies| && ReadReply(scan, device, types, s.replies[k]).Got?
    ensures var s1 := Begin(s, thread, device, types); GivenStale(scan, cap, s1, s1.calls[thread].request, actions)
  {
    var s1 := Begin(s, thread, device, types);
    var before := BroughtToFront(scan, cap, s1, k, s.replies[k]);
    var s2 := Continue(scan, cap, s1, before);
    actions := before + [Poll(thread)];
    ContinueConcat(scan, cap, s1, before, [Poll(thread)]);
    assert |s.exits| + |s.replies| == |s.received|;
    hide Inv, ReadReply;
    var s3 := Next(scan, cap, s2, Poll(thread));
    assert Continue(scan, cap, s2, [Poll(thread)]) == s3 by {
      assert [Poll(thread)][1..] == [];
    }
    assert s3.exits[|s.exits| + k].Given?;
  }

  lemma StaleWasQueued(scan: Scanner, cap: Q.uint16, s: State, thread: nat, device: string, types: seq<ValueType>,
                       actions: seq<Action>)
    returns (k: nat)
    requires Inv(scan, cap, s) && !s.undefined && thread !in s.calls
    requires var s1 := Begin(s, thread, device, types); GivenStale(scan, cap, s1, s1.calls[thread].request, actions)
    ensures k < |s.replies| && ReadReply(scan, device, types, s.replies[k]).Got?
  {
    var s1 := Begin(s, thread, device, types);
    var r := s1.calls[thread].request;
    var s' := Continue(scan, cap, s1, actions);
    var i :| 0 <= i < |s'.exits| && i < r.since && s'.exits[i].Given? && s'.exits[i].to.request == r;
    BeginKeeps(scan, cap, s, thread, device, types);
    ContinueExtends(scan, cap, s1, actions);
    assert Extends(s, s');
    hide *;
    GivenIs(scan, cap, s', i);
    k := QueuedBefore(scan, cap, s, s', r, i);
  }

  lemma GivenIs(scan: Scanner, cap: Q.uint16, s: State, i: nat)
    requires Inv(scan, cap, s) && i < |s.exits| && s.exits[i].Given?
    ensures i < |s.received| && s.received[i] == s.exits[i].frame
    ensures Reads(scan, s.exits[i].to.request, s.received[i]).Got?
  {
    assert Proper(scan, s.exits[i]);
    hide ReadValues, TakeEvent, Takers, Successes, Identified;
  }

  lemma QueuedBefore(scan: Scanner, cap: Q.uint16, s: State, s': State, r: Request, i: nat) returns (k: nat)
    requires Inv(scan, cap, s) && Extends(s, s') && r.id == s.started
    requires i < |s'.exits| && i < |s.received| && s'.exits[i].Given? && s'.exits[i].to.request == r
    ensures k < |s.replies| && s.replies[k] == s'.received[i]
  {
    hide AllProper, Takers, Successes, FramesOf;
    NotAmongOld(s, s', r, i);
    hide Identified;
    ReceivedAt(cap, s, i);
    k := i - |s.exits|;
    assert s'.received[i] == s.received[i];
  }

  lemma NotAmongOld(s: State, s': State, r: Request, i: nat)
    requires Identified(s) && s.exits <= s'.exits && r.id == s.started
    requires i < |s'.exits| && s'.exits[i].Given? && s'.exits[i].to.request == r
    ensures i >= |s.exits|
  {
    if i < |s.exits| {
      assert false;
    }
  }

  /** Reply number `i` of those received has left the queue or is in it. */
  lemma ReceivedAt(cap: Q.uint16, s: State, i: nat)
    requires Conserved(cap, s) && i < |s.received|
    ensures s.received[i] == if i < |s.exits| then s.exits[i].frame else s.replies[i - |s.exits|]
    ensures |s.received| == |s.exits| + |s.replies|
  {
  }

  function Polls(thread: nat, n: nat): seq<Action> {
    seq(n, _ => Poll(thread))
  }

  lemma {:induction false} WaitsInVain(scan: Scanner, cap: Q.uint16, s: State, thread: nat, n: nat)
    requires !s.undefined && s.replies == [] && thread in s.calls && n <= s.calls[thread].count
    ensures Continue(scan, cap, s, Polls(thread, n))
         == s.(calls := s.calls[thread := s.calls[thread].(count := s.calls[thread].count - n)])
    decreases n
  {
    if n == 0 {
      assert s.calls[thread := s.calls[thread]] == s.calls;
    } else {
      var s1 := Next(scan, cap, s, Poll(thread));
      assert Polls(thread, n)[1..] == Polls(thread, n - 1);
      WaitsInVain(scan, cap, s1, thread, n - 1);
    }
  }

  /** For instance: the reply to a call that has given up is given to the next call for the same device. */
  lemma {:induction false} LateReplyGoesToNextCall(scan: Scanner, cap: Q.uint16, thread: nat, device: string,
                                                   types: seq<ValueType>, late: string)
    requires ReadReply(scan, device, types, late).Got?
    ensures var first := [Start(thread, device, types)] + Polls(thread, POLLS + 1);
      var s := Run(scan, cap, first + [Receive(CMD_GET, late), Start(thread, device, types), Poll(thread)]);
      && s.returned == [Returned(Request(thread, device, types, 0, 0), None),
                        Returned(Request(thread, device, types, 1, 1),
                                 Some(ReadReply(scan, device, types, late).readings))]
      && s.exits == [Given(late, s.returned[1])]
  {
    var s := Return(Begin(INITIAL, thread, device, types), thread, None);
    var first := [Start(thread, device, types)] + Polls(thread, POLLS + 1);
    var rest := [Receive(CMD_GET, late), Start(thread, device, types), Poll(thread)];
    GivesUp(scan, cap, thread, device, types);
    RunIsContinue(scan, cap, first + rest);
    ContinueConcat(scan, cap, INITIAL, first, rest);
    ThreeMore(scan, cap, s, rest[0], rest[1], rest[2]);
    hide *;
    GivenLate(scan, cap, s, thread, device, types, late);
  }

  lemma GivenLate(scan: Scanner, cap: Q.uint16, s: State, thread: nat, device: string, types: seq<ValueType>,
                  late: string)
    requires s == Return(Begin(INITIAL, thread, device, types), thread, None)
    requires ReadReply(scan, device, types, late).Got?
    ensures var s1 := Next(scan, cap, s, Receive(CMD_GET, late));
      var s3 := Next(scan, cap, Next(scan, cap, s1, Start(thread, device, types)), Poll(thread));
      && s3.returned == [Returned(Request(thread, device, types, 0, 0), None),
                         Returned(Request(thread, device, types, 1, 1),
                                  Some(ReadReply(scan, device, types, late).readings))]
      && s3.exits == [Given(late, s3.returned[1])]
  {
    hide ReadReply;
    var s1 := Next(scan, cap, s, Receive(CMD_GET, late));
    assert s1 == Arrive(s, cap, late) && s1.replies == [late];
    var s2 := Next(scan, cap, s1, Start(thread, device, types));
    assert s2 == Begin(s1, thread, device, types);
    hide Arrive;
    assert Next(scan, cap, s2, Poll(thread)) == PollOnce(scan, s2, thread);
  }

  lemma ThreeMore(scan: Scanner, cap: Q.uint16, s: State, a: Action, b: Action, c: Action)
    ensures Continue(scan, cap, s, [a, b, c]) == Next(scan, cap, Next(scan, cap, Next(scan, cap, s, a), b), c)
  {
    hide Next;
    assert [a, b, c][1..] == [b, c] && [b, c][1..] == [c] && [c][1..] == [];
    var s1 := Next(scan, cap, s, a);
    var s2 := Next(scan, cap, s1, b);
    assert Continue(scan, cap, s2, [c]) == Next(scan, cap, s2, c);
    assert Continue(scan, cap, s1, [b, c]) == Continue(scan, cap, s2, [c]);
  }

  lemma GivesUp(scan: Scanner, cap: Q.uint16, thread: nat, device: string, types: seq<ValueType>)
    ensures var s1 := Begin(INITIAL, thread, device, types);
      Continue(scan, cap, INITIAL, [Start(thread, device, types)] + Polls(thread, POLLS + 1))
        == Return(s1, thread, None)
  {
    var s1 := Begin(INITIAL, thread, device, types);
    var all := [Start(thread, device, types)] + Polls(thread, POLLS + 1);
    assert all[1..] == Polls(thread, POLLS) + [Poll(thread)];
    WaitsInVain(scan, cap, s1, thread, POLLS);
    ContinueConcat(scan, cap, s1, Polls(thread, POLLS), [Poll(thread)]);
    var s2 := s1.(calls := s1.calls[thread := s1.calls[thread].(count := 0)]);
    assert [Poll(thread)][1..] == [];
    assert s2.calls - {thread} == s1.calls - {thread};
  }
}
