/** The state machine of Common/state_machine.cpp. The callbacks are an arbitrary function of
    everything called so far. */
module StateMachine {
  import opened Bytes

  const EINVAL := 22

  datatype Kind = Enter | Work | Exit

  /** One callback of the state at index `state`, and the hash it returned. */
  datatype Call = Call(kind: Kind, state: nat, result: u32)

  /** What a callback returns, from the calls before it. */
  type Callbacks = (seq<Call>, Kind, nat) -> u32

  // ----- how the calls of a visit follow each other

  /** `Entered`: enter was called, work must come. `Leaving`: work named the next state, exit must come. */
  datatype Mode =
    | Entering(state: nat)
    | Entered(state: nat)
    | Working(state: nat)
    | Leaving(state: nat, target: nat)
    | Broken

  function Find(hashes: seq<u32>, hash: u32): (k: nat)
    ensures k <= |hashes| && (k < |hashes| ==> hashes[k] == hash)
    ensures forall i | 0 <= i < k :: hashes[i] != hash
  {
    if hashes == [] then 0 else if hashes[0] == hash then 0 else 1 + Find(hashes[1..], hash)
  }

  /** The protocol: a visit is one enter that redirects, or one enter, then one or more work calls,
      then one exit; the next visit is to the state named last. */
  function Follow(hashes: seq<u32>, m: Mode, c: Call): Mode {
    var target := Find(hashes, c.result);
    match (m, c.kind)
    case (Entering(s), Enter) =>
      if c.state != s then Broken
      else if c.result == 0 then Entered(s)
      else if target < |hashes| then Entering(target) else Broken
    case (Entered(s), Work) => Worked(hashes, s, c)
    case (Working(s), Work) => Worked(hashes, s, c)
    case (Leaving(s, t), Exit) =>
      if c.state != s then Broken
      else if c.result == 0 then Entering(t)
      else if target < |hashes| then Entering(target) else Broken
    case _ => Broken
  }

  function Worked(hashes: seq<u32>, s: nat, c: Call): Mode {
    if c.state != s then Broken
    else if c.result == 0 then Working(s)
    else if Find(hashes, c.result) < |hashes| then Leaving(s, Find(hashes, c.result)) else Broken
  }

  function FollowAll(hashes: seq<u32>, trace: seq<Call>): Mode {
    if trace == [] then Entering(0)
    else Follow(hashes, FollowAll(hashes, trace[..|trace| - 1]), trace[|trace| - 1])
  }

  lemma FollowNext(hashes: seq<u32>, trace: seq<Call>, c: Call)
    ensures FollowAll(hashes, trace + [c]) == Follow(hashes, FollowAll(hashes, trace), c)
  {
    assert (trace + [c])[..|trace|] == trace;
  }

  /** Every result in the trace is what the callback returned after the calls before it. */
  ghost predicate Honest(callbacks: Callbacks, trace: seq<Call>) {
    forall i | 0 <= i < |trace| :: trace[i].result == callbacks(trace[..i], trace[i].kind, trace[i].state)
  }

  lemma HonestNext(callbacks: Callbacks, trace: seq<Call>, c: Call)
    requires Honest(callbacks, trace) && c.result == callbacks(trace, c.kind, c.state)
    ensures Honest(callbacks, trace + [c])
  {
    var all := trace + [c];
    forall i | 0 <= i < |all| ensures all[i].result == callbacks(all[..i], all[i].kind, all[i].state) {
      assert all[..i] == trace[..i];
    }
  }

  /** The callback named a state that is not in the table. */
  predicate Unknown(hashes: seq<u32>, c: Call) {
    c.result != 0 && c.result !in hashes
  }

  /** The calls of one step, all of the current state: enter if the mode has changed; work after a silent enter, or
      if it has not; exit after work that named a state of the table. */
  predicate IsStep(hashes: seq<u32>, calls: seq<Call>, current: nat, modeChange: bool) {
    && calls != [] && calls[0].kind == (if modeChange then Enter else Work)
    && (forall i | 0 <= i < |calls| :: calls[i].state == current)
    && (forall i | 0 <= i < |calls| - 1 :: Continues(hashes, calls[i], calls[i + 1]))
    && Last(hashes, calls[|calls| - 1])
  }

  predicate Continues(hashes: seq<u32>, a: Call, b: Call) {
    || (a.kind == Enter && a.result == 0 && b.kind == Work)
    || (a.kind == Work && a.result != 0 && a.result in hashes && b.kind == Exit)
  }

  /** No call of the step follows this one. */
  predicate Last(hashes: seq<u32>, c: Call) {
    || (c.kind == Enter && c.result != 0)
    || (c.kind == Work && (c.result == 0 || Unknown(hashes, c)))
    || c.kind == Exit
  }

  /** Where the calls of a step that does not fail lead to: a silent work stays; otherwise the next step enters
      the state that was named last. */
  predicate LeadsTo(hashes: seq<u32>, calls: seq<Call>, next: nat, modeChange: bool)
    requires calls != []
  {
    var last := calls[|calls| - 1];
    if last.kind == Work then !modeChange && next == last.state
    else
      && modeChange
      && (last.result != 0 ==> next == Find(hashes, last.result))
      && (last.result == 0 ==> |calls| >= 2 && next == Find(hashes, calls[|calls| - 2].result))
  }

  lemma OneCall(hashes: seq<u32>, before: seq<Call>, c: Call)
    ensures (before + [c])[|before|..] == [c]
    ensures c.kind != Exit && Last(hashes, c) ==> IsStep(hashes, [c], c.state, c.kind == Enter)
  {
  }

  lemma TwoCalls(hashes: seq<u32>, before: seq<Call>, a: Call, b: Call)
    ensures (before + [a] + [b])[|before|..] == [a, b]
    ensures a.kind == Work && a.state == b.state && Continues(hashes, a, b) ==> IsStep(hashes, [a, b], a.state, false)
  {
  }

  lemma EnterFirst(hashes: seq<u32>, before: seq<Call>, enter: Call, trace: seq<Call>)
    requires enter.kind == Enter && enter.result == 0 && before + [enter] < trace
    requires IsStep(hashes, trace[|before| + 1..], enter.state, false)
    ensures IsStep(hashes, trace[|before|..], enter.state, true)
    ensures forall next, mode :: LeadsTo(hashes, trace[|before| + 1..], next, mode) ==>
      LeadsTo(hashes, trace[|before|..], next, mode)
  {
    var calls, rest := trace[|before|..], trace[|before| + 1..];
    assert calls == [enter] + rest;
    forall i | 0 <= i < |calls| - 1 ensures Continues(hashes, calls[i], calls[i + 1]) {
      if i > 0 { assert Continues(hashes, rest[i - 1], rest[i - 1 + 1]); }
    }
  }

  lemma FollowEnter(hashes: seq<u32>, s: nat, c: Call)
    requires c.kind == Enter && c.state == s
    ensures c.result == 0 ==> Follow(hashes, Entering(s), c) == Entered(s)
    ensures c.result != 0 && Find(hashes, c.result) < |hashes| ==>
      Follow(hashes, Entering(s), c) == Entering(Find(hashes, c.result))
  {
  }

  lemma FollowWork(hashes: seq<u32>, m: Mode, s: nat, c: Call)
    requires (m == Entered(s) || m == Working(s)) && c.kind == Work && c.state == s
    ensures c.result == 0 ==> Follow(hashes, m, c) == Working(s)
    ensures c.result != 0 && Find(hashes, c.result) < |hashes| ==>
      Follow(hashes, m, c) == Leaving(s, Find(hashes, c.result))
  {
  }

  lemma FollowExit(hashes: seq<u32>, s: nat, t: nat, c: Call)
    requires c.kind == Exit && c.state == s
    ensures c.result == 0 ==> Follow(hashes, Leaving(s, t), c) == Entering(t)
    ensures c.result != 0 && Find(hashes, c.result) < |hashes| ==>
      Follow(hashes, Leaving(s, t), c) == Entering(Find(hashes, c.result))
  {
  }

  class Machine {
    const hashes: seq<u32>
    const callbacks: Callbacks
    var current: nat
    var modeChange: bool
    var trace: seq<Call>

    constructor (hashes: seq<u32>, callbacks: Callbacks)
      requires hashes != []
      ensures this.hashes == hashes && this.callbacks == callbacks
      ensures Valid() && InProtocol() && current == 0 && trace == []
    {
      this.hashes, this.callbacks := hashes, callbacks;
      current, modeChange, trace := 0, true, [];
    }

    /** The current state is in the table, and the trace holds what the callbacks returned. */
    ghost predicate Valid()
      reads this
    {
      current < |hashes| && Honest(callbacks, trace)
    }

    /** The calls so far follow the protocol. */
    ghost predicate InProtocol()
      reads this
    {
      FollowAll(hashes, trace) == if modeChange then Entering(current) else Working(current)
    }

    method FindStateByHash(hash: u32) returns (k: nat)
      ensures k == Find(hashes, hash)
      ensures k == |hashes| <==> hash !in hashes
    {
      k := 0;
      while k < |hashes|
        invariant 0 <= k <= |hashes|
        invariant forall i | 0 <= i < k :: hashes[i] != hash
      {
        if hashes[k] == hash {
          return;
        }
        k := k + 1;
      }
    }

    method Invoke(kind: Kind) returns (result: u32)
      requires Valid()
      modifies this`trace
      ensures Valid() && result == callbacks(old(trace), kind, current)
      ensures trace == old(trace) + [Call(kind, current, result)]
      ensures FollowAll(hashes, trace) == Follow(hashes, old(FollowAll(hashes, trace)), Call(kind, current, result))
    {
      result := callbacks(trace, kind, current);
      FollowNext(hashes, trace, Call(kind, current, result));
      HonestNext(callbacks, trace, Call(kind, current, result));
      trace := trace + [Call(kind, current, result)];
    }

    /** The part of a step from work on. */
    method WorkAndExit() returns (rc: int)
      requires Valid() && !modeChange
      modifies this
      ensures Valid() && old(trace) < trace
      ensures IsStep(hashes, trace[|old(trace)|..], old(current), false)
      ensures rc == if Unknown(hashes, trace[|trace| - 1]) then -22 else 0
      ensures rc == 0 ==> LeadsTo(hashes, trace[|old(trace)|..], current, modeChange)
      ensures rc != 0 ==> current == old(current)
      ensures rc == 0 && (old(FollowAll(hashes, trace)) == Entered(old(current)) || old(InProtocol())) ==> InProtocol()
    {
      hide FollowAll, Follow, Find, Honest, IsStep;
      ghost var before, mode, s := trace, FollowAll(hashes, trace), current;
      var next := Invoke(Work);
      ghost var work := Call(Work, s, next);
      if mode == Entered(s) || mode == Working(s) { FollowWork(hashes, mode, s, work); }
      OneCall(hashes, before, work);
      if next != 0 {
        var nextState := FindStateByHash(next);
        if nextState == |hashes| {
          return -EINVAL;
        }
        next := Invoke(Exit);
        FollowExit(hashes, s, nextState, Call(Exit, s, next));
        TwoCalls(hashes, before, work, Call(Exit, s, next));
        if next != 0 {
          nextState := FindStateByHash(next);
          if nextState == |hashes| {
            return -EINVAL;
          }
        }
        current := nextState;
        modeChange := true;
        return 0;
      }
      if modeChange {
        // the source calls exit here; the flag is never set at this point
        assert false;
      }
      return 0;
    }

    /** A step makes the calls that belong to it, and fails exactly if the last of them returned the hash of no
        state; then the current state stays. */
    method DoStep() returns (rc: int)
      requires Valid()
      modifies this
      ensures Valid() && old(trace) < trace
      ensures IsStep(hashes, trace[|old(trace)|..], old(current), old(modeChange))
      ensures rc == if Unknown(hashes, trace[|trace| - 1]) then -22 else 0
      ensures rc == 0 ==> LeadsTo(hashes, trace[|old(trace)|..], current, modeChange)
      ensures rc != 0 ==> current == old(current)
      ensures rc == 0 && old(InProtocol()) ==> InProtocol()
    {
      hide FollowAll, Follow, Find, Honest, IsStep;
      ghost var before, s := trace, current;
      if modeChange {
        var next := Invoke(Enter);
        ghost var enter := Call(Enter, s, next);
        FollowEnter(hashes, s, enter);
        OneCall(hashes, before, enter);
        if next != 0 {
          var nextState := FindStateByHash(next);
          if nextState == |hashes| {
            return -EINVAL;
          }
          current := nextState;
          return 0;
        } else {
          modeChange := false;
        }
        rc := WorkAndExit();
        EnterFirst(hashes, before, enter, trace);
        return;
      }
      rc := WorkAndExit();
    }

    /** A run of steps, up to the first one that fails. It stops only at a callback that returned the hash of no
        state, and up to there the trace follows the protocol. */
    method RunSteps(n: nat) returns (rc: int, done: nat)
      requires Valid() && InProtocol()
      modifies this
      ensures Valid() && done <= n && old(trace) <= trace && |trace| >= |old(trace)| + done
      ensures if done == n then rc == 0 else rc == -22 && trace != [] && Unknown(hashes, trace[|trace| - 1])
      ensures rc == 0 ==> InProtocol()
    {
      hide FollowAll, Honest, IsStep;
      rc, done := 0, 0;
      while done < n
        invariant done <= n && rc == 0 && Valid() && InProtocol()
        invariant old(trace) <= trace && |trace| >= |old(trace)| + done
      {
        rc := DoStep();
        if rc != 0 {
          return;
        }
        done := done + 1;
      }
    }
  }

  // ----- what the protocol means for the trace

  /** What may directly follow the call at index i, and which state the next visit is to: the one named by
      the enter that redirects, or by exit, or by the last work call if exit is silent. */
  predicate Fits(hashes: seq<u32>, trace: seq<Call>, i: nat)
    requires i + 1 < |trace|
  {
    var a, b := trace[i], trace[i + 1];
    match a.kind
    case Enter =>
      if a.result == 0 then b.kind == Work && b.state == a.state
      else b.kind == Enter && b.state == Find(hashes, a.result)
    case Work => b.state == a.state && (b.kind == if a.result == 0 then Work else Exit)
    case Exit =>
      && b.kind == Enter && i > 0 && trace[i - 1].kind == Work && trace[i - 1].result != 0
      && b.state == Find(hashes, if a.result != 0 then a.result else trace[i - 1].result)
  }

  /** The mode tells what the last calls were. */
  predicate Explains(hashes: seq<u32>, trace: seq<Call>, m: Mode) {
    if trace == [] then m == Entering(0)
    else
      var a := trace[|trace| - 1];
      match m
      case Entering(s) =>
        || (a.kind == Enter && a.result != 0 && s == Find(hashes, a.result))
        || (a.kind == Exit && |trace| >= 2 && trace[|trace| - 2].kind == Work && trace[|trace| - 2].result != 0
            && s == Find(hashes, if a.result != 0 then a.result else trace[|trace| - 2].result))
      case Entered(s) => a.kind == Enter && a.result == 0 && a.state == s
      case Working(s) => a.kind == Work && a.result == 0 && a.state == s
      case Leaving(s, t) => a.kind == Work && a.result != 0 && a.state == s && t == Find(hashes, a.result)
      case Broken => false
  }

  lemma ExplainsNext(hashes: seq<u32>, trace: seq<Call>, m: Mode, c: Call)
    requires Explains(hashes, trace, m) && Follow(hashes, m, c) != Broken
    ensures Explains(hashes, trace + [c], Follow(hashes, m, c))
    ensures trace == [] ==> c.kind == Enter && c.state == 0
    ensures trace != [] ==> Fits(hashes, trace + [c], |trace| - 1)
  {
    hide Find;
  }

  /** In a trace that follows the protocol every call fits the one before it. */
  lemma {:induction false} WorkBetween(hashes: seq<u32>, trace: seq<Call>)
    requires FollowAll(hashes, trace) != Broken
    ensures Explains(hashes, trace, FollowAll(hashes, trace))
    ensures trace != [] ==> trace[0].kind == Enter && trace[0].state == 0
    ensures forall i | 0 <= i < |trace| - 1 :: Fits(hashes, trace, i)
  {
    hide Follow, Fits, Explains;
    if trace == [] {
      NothingExplained(hashes);
    } else {
      var n := |trace| - 1;
      var before, c := trace[..n], trace[n];
      assert trace == before + [c];
      BrokenStays(hashes, c);
      WorkBetween(hashes, before);
      ExplainsNext(hashes, before, FollowAll(hashes, before), c);
      forall i | 0 <= i < n ensures Fits(hashes, trace, i) {
        if i < n - 1 { FitsLocally(hashes, before, c, i); }
      }
    }
  }

  lemma BrokenStays(hashes: seq<u32>, c: Call)
    ensures Follow(hashes, Broken, c) == Broken
  {
  }

  lemma NothingExplained(hashes: seq<u32>)
    ensures Explains(hashes, [], Entering(0))
  {
  }

  lemma FitsLocally(hashes: seq<u32>, before: seq<Call>, c: Call, i: nat)
    requires i + 1 < |before| && Fits(hashes, before, i)
    ensures Fits(hashes, before + [c], i)
  {
  }
}
