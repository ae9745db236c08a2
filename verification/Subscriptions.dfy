/**
 * The subscription table of lib/nirantara-net: nr_subscribe (net.c) by any number of callers while on_message (mqtt.c)
 * dispatches a message, letting the lock go around every callback.
 */
module Subscriptions {
  import opened Text

  const NR_MAX_SUBSCRIPTIONS := 16
  const TOPIC_SIZE := 256

  /** Callbacks and user data are opaque. */
  datatype Slot = Slot(topic: string, cb: int, userdata: int, active: bool)

  /** A callback invocation. */
  datatype Call = Call(slot: nat, cb: int, userdata: int)

  /** mosquitto_topic_matches_sub (section 4.7 of MQTT 3.1.1), which the dispatch does not depend on. */
  type Matcher = (string, string) -> bool

  function SlotFor(topic: string, cb: int, userdata: int): Slot {
    Slot(Prefix(topic, TOPIC_SIZE - 1), cb, userdata, true)
  }

  /** The first inactive slot at or after i, or the number of slots. */
  function FirstFree(subs: seq<Slot>, i: nat): (k: nat)
    requires i <= |subs|
    ensures i <= k <= |subs| && (k < |subs| ==> !subs[k].active)
    ensures forall j | i <= j < k :: subs[j].active
    decreases |subs| - i
  {
    if i < |subs| && subs[i].active then FirstFree(subs, i + 1) else i
  }

  predicate Hits(slot: Slot, msg: string, matches: Matcher) {
    slot.active && matches(slot.topic, msg)
  }

  /** The calls for a message that the slots from i on ask for, in the order of the slots. */
  function Matching(subs: seq<Slot>, msg: string, matches: Matcher, i: nat): seq<Call>
    requires i <= |subs|
    decreases |subs| - i
  {
    if i == |subs| then []
    else
      (if Hits(subs[i], msg, matches) then [Call(i, subs[i].cb, subs[i].userdata)] else [])
      + Matching(subs, msg, matches, i + 1)
  }

  /** The part of nr_ctx that holds the subscriptions. */
  class Table {
    const subs: array<Slot>

    constructor ()
      ensures fresh(subs) && subs.Length == 16
      ensures forall i | 0 <= i < subs.Length :: !subs[i].active
    {
      subs := new Slot[NR_MAX_SUBSCRIPTIONS](_ => Slot("", 0, 0, false));
    }

    /** The locked part of nr_subscribe: the claimed slot, or -1 if all are active. */
    method Claim(topic: string, cb: int, userdata: int) returns (slot: int)
      modifies subs
      ensures var k := FirstFree(old(subs[..]), 0);
              if k == subs.Length then slot == -1 && subs[..] == old(subs[..])
              else slot == k && subs[..] == old(subs[..])[
                     k := Slot(if |topic| <= 255 then topic else topic[..255], cb, userdata, true)]
    {
      slot := -1;
      var i := 0;
      while i < subs.Length
        invariant 0 <= i <= subs.Length && slot == -1
        invariant FirstFree(subs[..], 0) == FirstFree(subs[..], i)
      {
        if !subs[i].active {
          slot := i;
          break;
        }
        i := i + 1;
      }
      if slot < 0 {
        return;
      }
      subs[slot] := SlotFor(topic, cb, userdata);
    }

    /** on_message when nobody subscribes meanwhile. */
    method Dispatch(msg: string, matches: Matcher) returns (calls: seq<Call>)
      ensures calls == Matching(subs[..], msg, matches, 0)
    {
      calls := [];
      var i := 0;
      while i < subs.Length
        invariant 0 <= i <= subs.Length
        invariant calls + Matching(subs[..], msg, matches, i) == Matching(subs[..], msg, matches, 0)
      {
        if !subs[i].active {
          i := i + 1;
          continue;
        }
        ghost var before := calls;
        if matches(subs[i].topic, msg) {
          calls := calls + [Call(i, subs[i].cb, subs[i].userdata)];
        }
        assert calls + Matching(subs[..], msg, matches, i + 1) == before + Matching(subs[..], msg, matches, i);
        i := i + 1;
      }
    }

    /** What nr_subscribe does to its slot when the broker refuses, without the lock. */
    method Release(slot: nat)
      requires slot < subs.Length
      modifies subs
      ensures subs[..] == old(subs[..])[slot := old(subs[slot]).(active := false)]
    {
      subs[slot] := subs[slot].(active := false);
    }
  }

  // ----- Interleavings -----

  /** The dispatching thread: idle, about to look at slot i with the lock held, or in the callback of slot i. */
  datatype Dispatch = Idle | AtSlot(msg: string, i: nat) | InCallback(msg: string, i: nat)

  /**
   * callers maps each caller between its claim and the broker's answer to its slot; confirmed (a history variable)
   * holds the slots whose nr_subscribe returned NR_OK, and calls those made by the current dispatch.
   */
  datatype Sys = Sys(subs: seq<Slot>, callers: map<nat, nat>, confirmed: map<nat, Slot>, dispatch: Dispatch,
                     calls: seq<Call>)

  datatype Step =
    | Claim(caller: nat, topic: string, cb: int, userdata: int)
    | Confirm(caller: nat)    // mosquitto_subscribe succeeds: NR_OK
    | Rollback(caller: nat)   // it fails: the slot is released, with or without anyone holding the lock
    | Message(msg: string)    // on_message takes the lock
    | Look                    // one iteration up to the callback
    | Resume                  // the callback returned and the lock is held again
    | Finish

  predicate Enabled(s: Sys, step: Step) {
    match step
    case Claim(caller, _, _, _) => !s.dispatch.AtSlot? && caller !in s.callers && FirstFree(s.subs, 0) < |s.subs|
    case Confirm(caller) => caller in s.callers && s.callers[caller] < |s.subs|
    case Rollback(caller) => caller in s.callers && s.callers[caller] < |s.subs|
    case Message(_) => s.dispatch.Idle?
    case Look => s.dispatch.AtSlot? && s.dispatch.i < |s.subs|
    case Resume => s.dispatch.InCallback?
    case Finish => s.dispatch.AtSlot? && s.dispatch.i >= |s.subs|
  }

  function Next(s: Sys, step: Step, matches: Matcher): Sys
    requires Enabled(s, step)
  {
    match step
    case Claim(caller, topic, cb, userdata) =>
      var k := FirstFree(s.subs, 0);
      s.(subs := s.subs[k := SlotFor(topic, cb, userdata)], callers := s.callers[caller := k])
    case Confirm(caller) =>
      var k := s.callers[caller];
      s.(callers := s.callers - {caller}, confirmed := s.confirmed[k := s.subs[k]])
    case Rollback(caller) =>
      var k := s.callers[caller];
      s.(callers := s.callers - {caller}, subs := s.subs[k := s.subs[k].(active := false)])
    case Message(msg) => s.(dispatch := AtSlot(msg, 0), calls := [])
    case Look =>
      var AtSlot(msg, i) := s.dispatch;
      var slot := s.subs[i];
      if Hits(slot, msg, matches) then
        s.(dispatch := InCallback(msg, i), calls := s.calls + [Call(i, slot.cb, slot.userdata)])
      else s.(dispatch := AtSlot(msg, i + 1))
    case Resume => s.(dispatch := AtSlot(s.dispatch.msg, s.dispatch.i + 1))
    case Finish => s.(dispatch := Idle)
  }

  ghost predicate Init(s: Sys) {
    && |s.subs| == NR_MAX_SUBSCRIPTIONS && (forall i | 0 <= i < |s.subs| :: !s.subs[i].active)
    && s.callers == map[] && s.confirmed == map[] && s.dispatch.Idle? && s.calls == []
  }

  ghost predicate IsRun(trace: seq<Sys>, steps: seq<Step>, matches: Matcher) {
    && |trace| == |steps| + 1
    && forall i | 0 <= i < |steps| :: Enabled(trace[i], steps[i]) && trace[i + 1] == Next(trace[i], steps[i], matches)
  }

  /** Claimed slots are active and held by one caller each; confirmed ones are active, held by none, and unchanged. */
  ghost predicate Inv(s: Sys) {
    && |s.subs| == NR_MAX_SUBSCRIPTIONS
    && (forall c | c in s.callers :: s.callers[c] < |s.subs| && s.subs[s.callers[c]].active)
    && (forall c, d | c in s.callers && d in s.callers && s.callers[c] == s.callers[d] :: c == d)
    && (forall k | k in s.confirmed :: k < |s.subs| && s.subs[k] == s.confirmed[k] && s.subs[k].active)
    && (forall c | c in s.callers :: s.callers[c] !in s.confirmed)
  }

  /** Every active slot is a confirmed one or in the hands of a caller that waits for the broker. */
  ghost predicate NoLeak(s: Sys) {
    forall k: nat | k < |s.subs| && s.subs[k].active :: k in s.confirmed || Held(s, k)
  }

  predicate Held(s: Sys, k: nat) {
    exists c | c in s.callers :: s.callers[c] == k
  }

  lemma InvStep(s: Sys, step: Step, matches: Matcher)
    requires Enabled(s, step) && Inv(s)
    ensures Inv(Next(s, step, matches))
    ensures forall k | k in s.confirmed ::
              k in Next(s, step, matches).confirmed && Next(s, step, matches).confirmed[k] == s.confirmed[k]
  {
    hide Inv, Enabled, Next;
    if step.Claim? {
      InvClaim(s, step, matches);
    } else {
      InvElse(s, step, matches);
    }
  }

  lemma InvClaim(s: Sys, step: Step, matches: Matcher)
    requires step.Claim? && Enabled(s, step) && Inv(s)
    ensures Inv(Next(s, step, matches)) && Next(s, step, matches).confirmed == s.confirmed
  {
    hide Prefix, Hits;
  }

  lemma InvElse(s: Sys, step: Step, matches: Matcher)
    requires !step.Claim? && Enabled(s, step) && Inv(s)
    ensures Inv(Next(s, step, matches))
    ensures forall k | k in s.confirmed ::
              k in Next(s, step, matches).confirmed && Next(s, step, matches).confirmed[k] == s.confirmed[k]
  {
    hide FirstFree, Prefix, Hits;
  }

  lemma {:induction false} InvAlong(trace: seq<Sys>, steps: seq<Step>, matches: Matcher, i: nat)
    requires IsRun(trace, steps, matches) && Init(trace[0]) && i < |trace|
    ensures Inv(trace[i])
  {
    if i > 0 {
      hide Enabled, Next, Inv;
      InvAlong(trace, steps, matches, i - 1);
      InvStep(trace[i - 1], steps[i - 1], matches);
    }
  }

  /** A slot whose nr_subscribe returned NR_OK keeps its topic, callback and user data, and stays active. */
  lemma {:induction false} ConfirmedKept(trace: seq<Sys>, steps: seq<Step>, matches: Matcher, i: nat, j: nat, k: nat)
    requires IsRun(trace, steps, matches) && Init(trace[0]) && i <= j < |trace| && k in trace[i].confirmed
    ensures k in trace[j].confirmed && trace[j].confirmed[k] == trace[i].confirmed[k]
    ensures k < |trace[j].subs| && trace[j].subs[k] == trace[i].confirmed[k] && trace[j].subs[k].active
    decreases j
  {
    hide Enabled, Next, Init;
    InvAlong(trace, steps, matches, j);
    if i < j {
      ConfirmedKept(trace, steps, matches, i, j - 1, k);
      InvAlong(trace, steps, matches, j - 1);
      InvStep(trace[j - 1], steps[j - 1], matches);
    }
  }

  lemma NoLeakStep(s: Sys, step: Step, matches: Matcher)
    requires Enabled(s, step) && Inv(s) && NoLeak(s)
    ensures NoLeak(Next(s, step, matches))
  {
    hide FirstFree, Prefix, Hits;
    var t := Next(s, step, matches);
    forall k: nat | k < |t.subs| && t.subs[k].active
      ensures k in t.confirmed || Held(t, k)
    {
      if step.Claim? && t.callers[step.caller] == k {
        assert Held(t, k);
      } else if k !in s.confirmed {
        assert s.subs[k].active;
        var c :| c in s.callers && s.callers[c] == k;
        assert c in t.callers ==> t.callers[c] == k;
      }
    }
  }

  /** In every run the active slots are exactly those confirmed or held by a waiting caller: a rollback frees its slot. */
  lemma {:induction false} NoSlotLeaks(trace: seq<Sys>, steps: seq<Step>, matches: Matcher, i: nat)
    requires IsRun(trace, steps, matches) && Init(trace[0]) && i < |trace|
    ensures |trace[i].subs| == 16
    ensures forall k: nat | k < 16 :: trace[i].subs[k].active <==> k in trace[i].confirmed || Held(trace[i], k)
  {
    InvAlong(trace, steps, matches, i);
    NoLeakAlong(trace, steps, matches, i);
  }

  lemma {:induction false} NoLeakAlong(trace: seq<Sys>, steps: seq<Step>, matches: Matcher, i: nat)
    requires IsRun(trace, steps, matches) && Init(trace[0]) && i < |trace|
    ensures NoLeak(trace[i])
  {
    if i > 0 {
      hide Enabled, Next, Inv, NoLeak;
      NoLeakAlong(trace, steps, matches, i - 1);
      InvAlong(trace, steps, matches, i - 1);
      NoLeakStep(trace[i - 1], steps[i - 1], matches);
    }
  }

  // ----- One subscription -----

  /** The slot of a subscription, with exactly what its caller passed. */
  ghost predicate Holds(s: Sys, k: nat, topic: string, cb: int, userdata: int) {
    && k < |s.subs| && k < 16
    && s.subs[k] == Slot(if |topic| <= 255 then topic else topic[..255], cb, userdata, true)
  }

  lemma ClaimTakes(s: Sys, step: Step, matches: Matcher) returns (k: nat)
    requires step.Claim? && Enabled(s, step) && Inv(s)
    ensures var t := Next(s, step, matches);
            && step.caller in t.callers && t.callers[step.caller] == k
            && Holds(t, k, step.topic, step.cb, step.userdata)
  {
    k := FirstFree(s.subs, 0);
  }

  /** The lock is free around callbacks: while one runs, and even from it, a subscription goes through. */
  lemma SubscribeInCallback(s: Sys, c: nat, topic: string, cb: int, userdata: int, matches: Matcher)
    requires s.dispatch.InCallback? && Inv(s) && c !in s.callers && exists k: nat :: k < |s.subs| && !s.subs[k].active
    ensures var claim := Claim(c, topic, cb, userdata);
            && Enabled(s, claim)
            && var t := Next(s, claim, matches);
               && c in t.callers && Holds(t, t.callers[c], topic, cb, userdata)
               && Enabled(t, Confirm(c)) && Enabled(t, Rollback(c)) && Enabled(t, Resume)
  {
    var claim := Claim(c, topic, cb, userdata);
    var k := ClaimTakes(s, claim, matches);
  }

  /** Until its own answer comes, a caller keeps its slot and what is in it. */
  lemma PendingStep(s: Sys, step: Step, matches: Matcher, c: nat)
    requires Enabled(s, step) && Inv(s) && c in s.callers && step != Confirm(c) && step != Rollback(c)
    ensures var t := Next(s, step, matches);
            && c in t.callers && t.callers[c] == s.callers[c] < |t.subs|
            && t.subs[s.callers[c]] == s.subs[s.callers[c]]
  {
    hide Prefix, Hits;
  }

  lemma {:induction false} PendingAlong(trace: seq<Sys>, steps: seq<Step>, matches: Matcher, i: nat, j: nat, c: nat, k: nat)
    requires IsRun(trace, steps, matches) && Init(trace[0]) && i < j < |trace| && steps[i].Claim? && steps[i].caller == c
    requires forall t | i < t < j :: steps[t] != Confirm(c) && steps[t] != Rollback(c)
    requires c in trace[i + 1].callers && trace[i + 1].callers[c] == k
    requires Holds(trace[i + 1], k, steps[i].topic, steps[i].cb, steps[i].userdata)
    ensures c in trace[j].callers && trace[j].callers[c] == k
    ensures Holds(trace[j], k, steps[i].topic, steps[i].cb, steps[i].userdata)
    decreases j
  {
    hide Enabled, Next, Init, Inv;
    if j > i + 1 {
      PendingAlong(trace, steps, matches, i, j - 1, c, k);
      InvAlong(trace, steps, matches, j - 1);
      InvAlong(trace, steps, matches, j);
      PendingStep(trace[j - 1], steps[j - 1], matches, c);
    }
  }

  lemma ConfirmTakes(s: Sys, step: Step, matches: Matcher)
    requires step.Confirm? && Enabled(s, step) && Inv(s)
    ensures var k, t := s.callers[step.caller], Next(s, step, matches);
            k in t.confirmed && t.confirmed[k] == s.subs[k]
  {
  }

  /**
   * A subscription that nr_subscribe confirmed: from the claim on, in every later state, its slot holds the topic (up
   * to 255 bytes), the callback and the user data that its caller passed.
   */
  lemma SubscriptionKept(trace: seq<Sys>, steps: seq<Step>, matches: Matcher, i: nat, j: nat) returns (k: nat)
    requires IsRun(trace, steps, matches) && Init(trace[0]) && i < j < |steps|
    requires steps[i].Claim? && steps[j] == Confirm(steps[i].caller)
    requires forall t | i < t < j :: steps[t] != Confirm(steps[i].caller) && steps[t] != Rollback(steps[i].caller)
    ensures forall t | i < t < |trace| :: Holds(trace[t], k, steps[i].topic, steps[i].cb, steps[i].userdata)
    ensures k in trace[j + 1].confirmed && k < |trace[j + 1].subs| && trace[j + 1].confirmed[k] == trace[j + 1].subs[k]
  {
    hide Enabled, Next, Init, Inv;
    InvAlong(trace, steps, matches, i);
    k := ClaimTakes(trace[i], steps[i], matches);
    PendingAlong(trace, steps, matches, i, j, steps[i].caller, k);
    InvAlong(trace, steps, matches, j);
    ConfirmTakes(trace[j], steps[j], matches);
    forall t | i < t < |trace|
      ensures Holds(trace[t], k, steps[i].topic, steps[i].cb, steps[i].userdata)
    {
      if t <= j {
        PendingAlong(trace, steps, matches, i, t, steps[i].caller, k);
      } else {
        ConfirmedKept(trace, steps, matches, j + 1, t, k);
        SixteenSlots(trace, steps, matches, t);
      }
    }
  }

  lemma SixteenSlots(trace: seq<Sys>, steps: seq<Step>, matches: Matcher, i: nat)
    requires IsRun(trace, steps, matches) && Init(trace[0]) && i < |trace|
    ensures |trace[i].subs| == 16
  {
    InvAlong(trace, steps, matches, i);
  }

  // ----- One dispatch -----

  /** Slot k was active and matched the message in every state from a on to j. */
  ghost predicate Throughout(trace: seq<Sys>, a: nat, j: nat, k: nat, msg: string, matches: Matcher)
    requires j < |trace|
  {
    forall t | a <= t <= j :: k < |trace[t].subs| && Hits(trace[t].subs[k], msg, matches)
  }

  /** The call was made when its slot was active and matched, with the callback and user data it had then. */
  ghost predicate Justified(trace: seq<Sys>, a: nat, j: nat, call: Call, msg: string, matches: Matcher)
    requires j < |trace|
  {
    exists t | a <= t <= j ::
      && call.slot < |trace[t].subs| && Hits(trace[t].subs[call.slot], msg, matches)
      && call.cb == trace[t].subs[call.slot].cb && call.userdata == trace[t].subs[call.slot].userdata
  }

  /** How many slots the dispatch is done with. */
  function Looked(d: Dispatch): nat {
    match d
    case Idle => NR_MAX_SUBSCRIPTIONS
    case AtSlot(_, i) => i
    case InCallback(_, i) => i + 1
  }

  predicate Called(calls: seq<Call>, k: nat) {
    exists c | c in calls :: c.slot == k
  }

  /** The calls so far: in increasing order of slots already looked at, justified, and missing no steady match. */
  ghost predicate DispatchInv(trace: seq<Sys>, a: nat, j: nat, msg: string, matches: Matcher)
    requires j < |trace|
  {
    var s := trace[j];
    && (!s.dispatch.Idle? ==> s.dispatch.msg == msg)
    && Looked(s.dispatch) <= NR_MAX_SUBSCRIPTIONS
    && (forall x, y | 0 <= x < y < |s.calls| :: s.calls[x].slot < s.calls[y].slot)
    && (forall c | c in s.calls :: c.slot < Looked(s.dispatch) && Justified(trace, a, j, c, msg, matches))
    && (forall k: nat | k < Looked(s.dispatch) && Throughout(trace, a, j, k, msg, matches) :: Called(s.calls, k))
  }

  /**
   * A dispatch that takes message msg at a: whatever callers do meanwhile, it calls slots in increasing order, so each
   * at most once, each with the callback and data of a slot that was active and matched; and when it is done it has
   * called every slot that was active and matched throughout.
   */
  lemma {:induction false} DispatchCalls(trace: seq<Sys>, steps: seq<Step>, matches: Matcher, a: nat, j: nat, msg: string)
    requires IsRun(trace, steps, matches) && Init(trace[0]) && a < j < |trace|
    requires steps[a] == Message(msg) && forall t | a < t < j :: !steps[t].Message?
    ensures DispatchInv(trace, a + 1, j, msg, matches)
    decreases j
  {
    hide Init, Enabled, Next, DispatchInv;
    InvAlong(trace, steps, matches, j - 1);
    if j == a + 1 {
      DispatchStarts(trace, a, msg, matches);
    } else {
      DispatchCalls(trace, steps, matches, a, j - 1, msg);
      DispatchStep(trace, steps, matches, a + 1, j - 1, msg);
    }
  }

  lemma DispatchStarts(trace: seq<Sys>, a: nat, msg: string, matches: Matcher)
    requires a + 1 < |trace| && Enabled(trace[a], Message(msg)) && trace[a + 1] == Next(trace[a], Message(msg), matches)
    ensures DispatchInv(trace, a + 1, a + 1, msg, matches)
  {
  }

  lemma DispatchStep(trace: seq<Sys>, steps: seq<Step>, matches: Matcher, a: nat, j: nat, msg: string)
    requires IsRun(trace, steps, matches) && a <= j < |steps| && |trace[j].subs| == NR_MAX_SUBSCRIPTIONS
    requires !steps[j].Message?
    requires DispatchInv(trace, a, j, msg, matches)
    ensures DispatchInv(trace, a, j + 1, msg, matches)
  {
    hide Called, Justified, Throughout, Hits, FirstFree;
    var s, t := trace[j], trace[j + 1];
    forall c | c in s.calls
      ensures Justified(trace, a, j + 1, c, msg, matches)
    {
      JustifiedStill(trace, a, j, c, msg, matches);
    }
    forall k: nat | k < Looked(s.dispatch) && Throughout(trace, a, j + 1, k, msg, matches)
      ensures Called(t.calls, k)
    {
      ThroughoutBefore(trace, a, j, k, msg, matches);
      CalledStill(s.calls, t.calls[|s.calls|..], k);
      assert t.calls == s.calls + t.calls[|s.calls|..];
    }
    if steps[j].Look? {
      SlotLooked(trace, a, j, s.dispatch.i, msg, matches);
    }
  }

  lemma JustifiedStill(trace: seq<Sys>, a: nat, j: nat, c: Call, msg: string, matches: Matcher)
    requires j + 1 < |trace| && Justified(trace, a, j, c, msg, matches)
    ensures Justified(trace, a, j + 1, c, msg, matches)
  {
  }

  lemma ThroughoutBefore(trace: seq<Sys>, a: nat, j: nat, k: nat, msg: string, matches: Matcher)
    requires j + 1 < |trace| && Throughout(trace, a, j + 1, k, msg, matches)
    ensures Throughout(trace, a, j, k, msg, matches)
  {
  }

  lemma CalledStill(calls: seq<Call>, more: seq<Call>, k: nat)
    requires Called(calls, k)
    ensures Called(calls + more, k)
  {
    var c :| c in calls && c.slot == k;
    assert c in calls + more;
  }

  /** Looking at a slot calls it if it is active and matches then; it is, if it was so throughout. */
  lemma SlotLooked(trace: seq<Sys>, a: nat, j: nat, i: nat, msg: string, matches: Matcher)
    requires a <= j < |trace| - 1 && i < |trace[j].subs|
    ensures var slot := trace[j].subs[i];
            var call := Call(i, slot.cb, slot.userdata);
            && (Hits(slot, msg, matches) ==> Justified(trace, a, j + 1, call, msg, matches))
            && (Throughout(trace, a, j + 1, i, msg, matches) ==> Hits(slot, msg, matches))
            && forall calls: seq<Call> :: Called(calls + [call], i)
  {
    var slot := trace[j].subs[i];
    var call := Call(i, slot.cb, slot.userdata);
    forall calls: seq<Call>
      ensures Called(calls + [call], i)
    {
      assert (calls + [call])[|calls|] == call;
    }
  }

  /**
   * A confirmed subscription and a later message that its topic (up to 255 bytes) matches: the dispatch calls its slot
   * exactly once, with the callback and the user data that nr_subscribe was given.
   */
  lemma SubscriberCalledOnce(trace: seq<Sys>, steps: seq<Step>, matches: Matcher, i: nat, j: nat, a: nat, d: nat, msg: string)
    returns (k: nat)
    requires IsRun(trace, steps, matches) && Init(trace[0]) && i < j < a < d < |trace|
    requires steps[i].Claim? && steps[j] == Confirm(steps[i].caller)
    requires forall t | i < t < j :: steps[t] != Confirm(steps[i].caller) && steps[t] != Rollback(steps[i].caller)
    requires steps[a] == Message(msg) && (forall t | a < t < d :: !steps[t].Message?) && trace[d].dispatch.Idle?
    requires matches(if |steps[i].topic| <= 255 then steps[i].topic else steps[i].topic[..255], msg)
    ensures exists x | 0 <= x < |trace[d].calls| ::
              && trace[d].calls[x] == Call(k, steps[i].cb, steps[i].userdata)
              && forall y | 0 <= y < |trace[d].calls| && trace[d].calls[y].slot == k :: y == x
  {
    hide Enabled, Next, Init, Inv;
    k := SubscriptionKept(trace, steps, matches, i, j);
    ConfirmedKept(trace, steps, matches, j + 1, a + 1, k);
    assert Holds(trace[a + 1], k, steps[i].topic, steps[i].cb, steps[i].userdata);
    ConfirmedCalledOnce(trace, steps, matches, a, d, msg, k);
  }

  // ----- A dispatch can finish -----

  ghost predicate OnlyDispatch(steps: seq<Step>) {
    forall step | step in steps :: step in {Look, Resume, Finish}
  }

  /** From slot i on, with nobody else taking steps. */
  lemma {:induction false} DispatchRest(s: Sys, msg: string, i: nat, matches: Matcher)
    returns (trace: seq<Sys>, steps: seq<Step>)
    requires s.dispatch == AtSlot(msg, i) && i <= |s.subs|
    ensures IsRun(trace, steps, matches) && trace[0] == s && OnlyDispatch(steps)
    ensures trace[|steps|] == s.(dispatch := Idle, calls := s.calls + Matching(s.subs, msg, matches, i))
    decreases |s.subs| - i
  {
    hide IsRun, Hits;
    if i == |s.subs| {
      var t := Next(s, Finish, matches);
      trace, steps := [s, t], [Finish];
      OneStep(s, Finish, matches);
      assert s.calls + [] == s.calls;
    } else {
      var t := Next(s, Look, matches);
      if Hits(s.subs[i], msg, matches) {
        var u := Next(t, Resume, matches);
        trace, steps := DispatchRest(u, msg, i + 1, matches);
        RunPrepend(t, Resume, trace, steps, matches);
        RunPrepend(s, Look, [t] + trace, [Resume] + steps, matches);
        Associates(s.calls, t.calls[|s.calls|..], Matching(s.subs, msg, matches, i + 1));
        trace, steps := [s] + ([t] + trace), [Look] + ([Resume] + steps);
      } else {
        trace, steps := DispatchRest(t, msg, i + 1, matches);
        RunPrepend(s, Look, trace, steps, matches);
        assert [] + Matching(s.subs, msg, matches, i + 1) == Matching(s.subs, msg, matches, i + 1);
        trace, steps := [s] + trace, [Look] + steps;
      }
    }
  }

  lemma Associates(a: seq<Call>, b: seq<Call>, c: seq<Call>)
    ensures a + b + c == a + (b + c)
  {
  }

  lemma OneStep(s: Sys, step: Step, matches: Matcher)
    requires Enabled(s, step)
    ensures IsRun([s, Next(s, step, matches)], [step], matches)
  {
  }

  lemma RunPrepend(s: Sys, step: Step, trace: seq<Sys>, steps: seq<Step>, matches: Matcher)
    requires IsRun(trace, steps, matches) && Enabled(s, step) && Next(s, step, matches) == trace[0]
    ensures IsRun([s] + trace, [step] + steps, matches) && ([s] + trace)[|steps| + 1] == trace[|steps|]
  {
    hide Enabled, Next;
    forall i | 0 <= i < |steps| + 1
      ensures Enabled(([s] + trace)[i], ([step] + steps)[i])
           && ([s] + trace)[i + 1] == Next(([s] + trace)[i], ([step] + steps)[i], matches)
    {
      if i > 0 {
        assert ([s] + trace)[i] == trace[i - 1] && ([step] + steps)[i] == steps[i - 1];
      }
    }
  }

  /** A dispatch left alone ends, having called the active matching slots in their order: what Table.Dispatch computes. */
  lemma DispatchCompletes(s: Sys, msg: string, matches: Matcher) returns (trace: seq<Sys>, steps: seq<Step>)
    requires s.dispatch.Idle?
    ensures IsRun(trace, steps, matches) && trace[0] == s && steps != [] && steps[0] == Message(msg)
    ensures OnlyDispatch(steps[1..])
    ensures trace[|steps|] == s.(dispatch := Idle, calls := Matching(s.subs, msg, matches, 0))
  {
    hide IsRun;
    var t := Next(s, Message(msg), matches);
    trace, steps := DispatchRest(t, msg, 0, matches);
    RunPrepend(s, Message(msg), trace, steps, matches);
    assert [] + Matching(s.subs, msg, matches, 0) == Matching(s.subs, msg, matches, 0);
    trace, steps := [s] + trace, [Message(msg)] + steps;
  }

  /**
   * A subscription confirmed before the message was taken, whose topic matches, is called exactly once by the
   * dispatch, with its own callback and user data.
   */
  lemma ConfirmedCalledOnce(trace: seq<Sys>, steps: seq<Step>, matches: Matcher, a: nat, j: nat, msg: string, k: nat)
    requires IsRun(trace, steps, matches) && Init(trace[0]) && a < j < |trace|
    requires steps[a] == Message(msg) && (forall t | a < t < j :: !steps[t].Message?) && trace[j].dispatch.Idle?
    requires k in trace[a + 1].confirmed && matches(trace[a + 1].confirmed[k].topic, msg)
    ensures var v := trace[a + 1].confirmed[k];
            exists x | 0 <= x < |trace[j].calls| ::
              && trace[j].calls[x] == Call(k, v.cb, v.userdata)
              && forall y | 0 <= y < |trace[j].calls| && trace[j].calls[y].slot == k :: y == x
  {
    hide Enabled, Next, Init;
    var v := trace[a + 1].confirmed[k];
    DispatchCalls(trace, steps, matches, a, j, msg);
    InvAlong(trace, steps, matches, j);
    forall t | a + 1 <= t <= j
      ensures k < |trace[t].subs| && trace[t].subs[k] == v && v.active
    {
      ConfirmedKept(trace, steps, matches, a + 1, t, k);
    }
    assert Throughout(trace, a + 1, j, k, msg, matches);
    var c :| c in trace[j].calls && c.slot == k;
    assert Justified(trace, a + 1, j, c, msg, matches);
  }
}
