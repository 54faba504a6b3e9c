/**
 The blocking named lock of the ACME storage: a table from name to the channel its holder will close.
 Callers run their critical sections in any order; between two of them a caller waits on a channel.
 */
module NamedLock {
  import opened Text

  // ---------------------------------------------------------------- the table

  /** Channels are numbered in the order they are made. */
  datatype Table = Table(locks: map<string, nat>, closed: set<nat>, next: nat)

  const NO_LOCKS := Table(map[], {}, 0)

  /** The locked section of `Lock`: the lock, or the channel to wait on. */
  function Enter(t: Table, name: string): (Table, Option<nat>) {
    if name in t.locks then (t, Some(t.locks[name]))
    else (t.(locks := t.locks[name := t.next], next := t.next + 1), None)
  }

  /** `Unlock`: false when the lock is not held. */
  function Leave(t: Table, name: string): (Table, bool) {
    if name in t.locks then (t.(locks := t.locks - {name}, closed := t.closed + {t.locks[name]}), true)
    else (t, false)
  }

  class LockTable {
    var locks: map<string, nat>
    var closed: set<nat>
    var next: nat

    ghost function View(): Table
      reads this
    {
      Table(locks, closed, next)
    }

    constructor ()
      ensures View() == NO_LOCKS
    {
      locks, closed, next := map[], {}, 0;
    }

    method TryLock(name: string) returns (waitOn: Option<nat>)
      modifies this
      ensures (View(), waitOn) == Enter(old(View()), name)
      ensures ChannelsOk(old(View())) ==> ChannelsOk(View())
    {
      if ChannelsOk(View()) { ChannelsKept(View(), name); }
      if name !in locks {
        locks := locks[name := next];
        next := next + 1;
        return None;
      }
      waitOn := Some(locks[name]);
    }

    method Unlock(name: string) returns (ok: bool)
      modifies this
      ensures (View(), ok) == Leave(old(View()), name)
      ensures ChannelsOk(old(View())) ==> ChannelsOk(View())
    {
      if ChannelsOk(View()) { ChannelsKept(View(), name); }
      if name !in locks {
        return false;
      }
      var released := locks[name];
      locks := locks - {name};
      closed := closed + {released};
      ok := true;
    }
  }

  /** A free name is taken; a held one answers its holder's channel and changes nothing. */
  lemma EnterAnswers(t: Table, name: string)
    ensures var (after, waitOn) := Enter(t, name);
            if name in t.locks then after == t && waitOn == Some(t.locks[name])
            else
              && waitOn == None && name in after.locks && after.closed == t.closed
              && forall n :: n != name ==> (n in after.locks <==> n in t.locks) && (n in t.locks ==> after.locks[n] == t.locks[n])
  {}

  /** Unlocking a held name frees it alone and closes its channel; any other is refused and changes nothing. */
  lemma LeaveAnswers(t: Table, name: string)
    ensures var (after, ok) := Leave(t, name);
            && (ok <==> name in t.locks)
            && (!ok ==> after == t)
            && (ok ==>
                  && name !in after.locks && (forall ch :: ch in after.closed <==> ch in t.closed || ch == t.locks[name])
                  && forall n :: n != name ==> (n in after.locks <==> n in t.locks) && (n in t.locks ==> after.locks[n] == t.locks[n]))
  {}

  // ---------------------------------------------------------------- callers

  /** Where one call of `Lock` stands, until its `Unlock`. */
  datatype Phase = Trying(name: string) | Waiting(name: string, channel: nat) | Holding(name: string)

  datatype State = State(table: Table, callers: map<nat, Phase>)

  datatype Step =
    | Call(caller: nat, name: string)
    | Try(caller: nat)
    | Wake(caller: nat)
    | Cancel(caller: nat)
    | Release(caller: nat)
    | StrayUnlock(name: string)  // an Unlock by a caller that does not hold the name

  predicate Enabled(s: State, step: Step) {
    match step
    case Call(c, _) => c !in s.callers
    case Try(c) => c in s.callers && s.callers[c].Trying?
    case Wake(c) => c in s.callers && s.callers[c].Waiting? && s.callers[c].channel in s.table.closed
    case Cancel(c) => c in s.callers && s.callers[c].Waiting?
    case Release(c) => c in s.callers && s.callers[c].Holding?
    case StrayUnlock(_) => true
  }

  function Apply(s: State, step: Step): State
    requires Enabled(s, step)
  {
    match step
    case Call(c, name) => s.(callers := s.callers[c := Trying(name)])
    case Try(c) =>
      var name := s.callers[c].name;
      var (table, waitOn) := Enter(s.table, name);
      State(table, s.callers[c := if waitOn.None? then Holding(name) else Waiting(name, waitOn.value)])
    case Wake(c) => s.(callers := s.callers[c := Trying(s.callers[c].name)])
    case Cancel(c) => s.(callers := s.callers - {c})
    case Release(c) => State(Leave(s.table, s.callers[c].name).0, s.callers - {c})
    case StrayUnlock(name) => s.(table := Leave(s.table, name).0)
  }

  // ---------------------------------------------------------------- invariant

  ghost predicate Holds(s: State, c: nat, name: string) {
    c in s.callers && s.callers[c] == Holding(name)
  }

  /** At most one caller holds a name. */
  ghost predicate Exclusive(s: State) {
    forall c, d, name :: Holds(s, c, name) && Holds(s, d, name) ==> c == d
  }

  /** A name is in the table exactly when some caller holds it. */
  ghost predicate TableMatches(s: State) {
    && (forall c, name :: Holds(s, c, name) ==> name in s.table.locks)
    && (forall name :: name in s.table.locks ==> exists c :: Holds(s, c, name))
  }

  /** No wake-up is lost: a waiter's channel is its name's current one, or already closed. */
  ghost predicate WaitersCovered(s: State) {
    forall c :: c in s.callers && s.callers[c].Waiting? ==>
      || s.callers[c].channel in s.table.closed
      || (s.callers[c].name in s.table.locks && s.table.locks[s.callers[c].name] == s.callers[c].channel)
  }

  /** A held channel is open and belongs to one name. */
  ghost predicate ChannelsOk(t: Table) {
    && (forall name :: name in t.locks ==> t.locks[name] < t.next && t.locks[name] !in t.closed)
    && (forall a, b :: a in t.locks && b in t.locks && t.locks[a] == t.locks[b] ==> a == b)
    && (forall ch :: ch in t.closed ==> ch < t.next)
  }

  ghost predicate Inv(s: State) {
    Exclusive(s) && TableMatches(s) && WaitersCovered(s) && ChannelsOk(s.table)
  }

  // ---------------------------------------------------------------- steps

  lemma ChannelsKept(t: Table, name: string)
    requires ChannelsOk(t)
    ensures ChannelsOk(Enter(t, name).0) && ChannelsOk(Leave(t, name).0)
  {}

  lemma WaitersKept(s: State, step: Step)
    requires WaitersCovered(s) && Enabled(s, step)
    ensures WaitersCovered(Apply(s, step))
  {}

  /** A caller that does not get the lock leaves the holders alone. */
  lemma TryKeeps(s: State, c: nat)
    requires Inv(s) && Enabled(s, Try(c))
    ensures Exclusive(Apply(s, Try(c))) && TableMatches(Apply(s, Try(c)))
  {
    var name, s' := s.callers[c].name, Apply(s, Try(c));
    forall n | n in s'.table.locks ensures exists d :: Holds(s', d, n) {
      if n in s.table.locks {
        var d :| Holds(s, d, n);
        assert Holds(s', d, n);
      } else {
        assert Holds(s', c, n);
      }
    }
    forall d, n | Holds(s', d, n) ensures n in s'.table.locks && (Holds(s, d, n) || (d == c && n == name)) {
      assert Holds(s, d, n) || (d == c && n == name);
    }
  }

  lemma ReleaseKeeps(s: State, c: nat)
    requires Inv(s) && Enabled(s, Release(c))
    ensures Exclusive(Apply(s, Release(c))) && TableMatches(Apply(s, Release(c)))
  {
    var name, s' := s.callers[c].name, Apply(s, Release(c));
    assert Holds(s, c, name);
    forall n | n in s'.table.locks ensures exists d :: Holds(s', d, n) {
      var d :| Holds(s, d, n);
      assert Holds(s', d, n);
    }
    forall d, n | Holds(s', d, n) ensures n in s'.table.locks {
      assert Holds(s, d, n);
    }
    forall d, e, n | Holds(s', d, n) && Holds(s', e, n) ensures d == e {
      assert Holds(s, d, n) && Holds(s, e, n);
    }
  }

  /** A step that neither takes nor releases leaves the holders as they were. */
  lemma HoldersKept(s: State, s': State)
    requires Exclusive(s) && TableMatches(s) && s'.table.locks == s.table.locks
    requires forall c, name :: Holds(s', c, name) <==> Holds(s, c, name)
    ensures Exclusive(s') && TableMatches(s')
  {}

  lemma StepKeeps(s: State, step: Step)
    requires Inv(s) && Enabled(s, step) && !step.StrayUnlock?
    ensures Inv(Apply(s, step))
  {
    WaitersKept(s, step);
    if step.Try? {
      TryKeeps(s, step.caller);
      ChannelsKept(s.table, s.callers[step.caller].name);
    } else if step.Release? {
      ReleaseKeeps(s, step.caller);
      ChannelsKept(s.table, s.callers[step.caller].name);
    } else {
      HoldersKept(s, Apply(s, step));
    }
  }

  /** An unlock by a caller that does not hold the name keeps the invariant exactly when nobody holds it. */
  lemma StrayUnlockIff(s: State, name: string)
    requires Inv(s)
    ensures Inv(Apply(s, StrayUnlock(name))) <==> name !in s.table.locks
  {
    if name in s.table.locks {
      var s' := Apply(s, StrayUnlock(name));
      var c :| Holds(s, c, name);
      assert Holds(s', c, name) && name !in s'.table.locks;
    }
  }

  /** The failing family: after a stray unlock of a held name, the next caller holds it too. */
  lemma StrayUnlockTwoHolders(s: State, name: string, holder: nat, other: nat)
    requires Holds(s, holder, name) && name in s.table.locks && other !in s.callers
    ensures var s1 := Apply(s, StrayUnlock(name));
            var s3 := Apply(Apply(s1, Call(other, name)), Try(other));
            holder != other && Holds(s3, holder, name) && Holds(s3, other, name)
  {}

  /** Reachable from an empty table: one caller locks, a stray unlock frees the name, another caller locks it too. */
  lemma StrayUnlockReachable(name: string, holder: nat, other: nat)
    requires holder != other
    ensures var held := Apply(Apply(State(NO_LOCKS, map[]), Call(holder, name)), Try(holder));
            var s := Apply(Apply(Apply(held, StrayUnlock(name)), Call(other, name)), Try(other));
            Inv(held) && Holds(s, holder, name) && Holds(s, other, name)
  {
    var s0 := State(NO_LOCKS, map[]);
    StepKeeps(s0, Call(holder, name));
    StepKeeps(Apply(s0, Call(holder, name)), Try(holder));
    StrayUnlockTwoHolders(Apply(Apply(s0, Call(holder, name)), Try(holder)), name, holder, other);
  }

  // ---------------------------------------------------------------- runs

  ghost predicate Possible(s: State, steps: seq<Step>)
    decreases |steps|
  {
    steps == [] || (Enabled(s, steps[0]) && !steps[0].StrayUnlock? && Possible(Apply(s, steps[0]), steps[1..]))
  }

  ghost function Run(s: State, steps: seq<Step>): State
    requires Possible(s, steps)
    decreases |steps|
  {
    if steps == [] then s else Run(Apply(s, steps[0]), steps[1..])
  }

  /** In every interleaving at most one caller holds a name and no wake-up is lost. */
  lemma {:induction false} RunKeeps(s: State, steps: seq<Step>)
    requires Inv(s) && Possible(s, steps)
    ensures Inv(Run(s, steps))
    decreases |steps|
  {
    if steps != [] {
      StepKeeps(s, steps[0]);
      RunKeeps(Apply(s, steps[0]), steps[1..]);
    }
  }

  lemma ReachableInv(steps: seq<Step>)
    requires Possible(State(NO_LOCKS, map[]), steps)
    ensures Inv(Run(State(NO_LOCKS, map[]), steps))
  {
    RunKeeps(State(NO_LOCKS, map[]), steps);
  }

  /** Nobody is stuck on a free name: each of its waiters can be woken and then take the lock. */
  lemma FreeNameServesWaiters(s: State, c: nat)
    requires Inv(s) && c in s.callers && s.callers[c].Waiting? && s.callers[c].name !in s.table.locks
    ensures Enabled(s, Wake(c)) && Enabled(Apply(s, Wake(c)), Try(c))
    ensures Holds(Apply(Apply(s, Wake(c)), Try(c)), c, s.callers[c].name)
  {}

  /** A release wakes every waiter of its name. */
  lemma ReleaseWakesAll(s: State, holder: nat, c: nat)
    requires Inv(s) && Enabled(s, Release(holder))
    requires c in s.callers && s.callers[c].Waiting? && s.callers[c].name == s.callers[holder].name
    ensures Enabled(Apply(s, Release(holder)), Wake(c))
  {
    assert Holds(s, holder, s.callers[holder].name);
  }
}
