/** Whole runs of the spinlock (include/types/spinlock_t.h) that take a lock with the interrupts masked, and
    what an unsafe unlock does to the mask. */
module SpinlockRuns {
  import opened Wrappers
  import opened Spinlock

  // ---------- Runs one after the other ----------

  lemma {:induction false} Joined(s: State, a: seq<Action>, b: seq<Action>)
    requires AllEnabled(s, a) && AllEnabled(Exec(s, a), b)
    ensures AllEnabled(s, a + b) && Exec(s, a + b) == Exec(Exec(s, a), b)
    decreases |a|
  {
    hide Step, Enabled;
    if a == [] {
      assert a + b == b;
    } else {
      Joined(Step(s, a[0]), a[1..], b);
      OneStep(s, a[0], a[1..] + b);
      assert a + b == [a[0]] + (a[1..] + b);
    }
  }

  lemma ThreeSteps(s: State, a: Action, b: Action, d: Action)
    requires Enabled(s, a) && Enabled(Step(s, a), b) && Enabled(Step(Step(s, a), b), d)
    ensures AllEnabled(s, [a, b, d]) && Exec(s, [a, b, d]) == Step(Step(Step(s, a), b), d)
  {
    hide Step, Enabled;
    var s1, s2 := Step(s, a), Step(Step(s, a), b);
    assert AllEnabled(Step(s2, d), []) && Exec(Step(s2, d), []) == Step(s2, d);
    OneStep(s2, d, []);
    OneStep(s1, b, [d]);
    OneStep(s, a, [b, d]);
    assert [d] + [] == [d] && [b] + [d] == [b, d] && [a] + [b, d] == [a, b, d];
  }

  // ---------- spin_lock_irqsave ----------

  /** The core that has saved and masked. */
  function Saved(core: Core, l: nat): Core {
    core.(pc := Ldrex(l), r5 := SetMask(core.cpsr), saved := core.cpsr, pending := Some(core.cpsr),
          cpsr := SetMask(core.cpsr))
  }

  lemma SaveChain(mem: seq<nat>, core: Core, l: nat)
    requires core.pc == Mrs(l) && l < |mem|
    ensures !Stores(core)
    ensures var c1 := Advance(mem, core);
      c1.pc == Mov(l) && !Stores(c1)
      && var c2 := Advance(mem, c1);
      c2.pc == Orr(l) && !Stores(c2)
      && var c3 := Advance(mem, c2);
      c3.pc == Msr(l) && !Stores(c3)
      && var c4 := Advance(mem, c3);
      c4.pc == Keep(l) && !Stores(c4) && Advance(mem, c4) == Saved(core, l)
  {
    hide Z, TestZero, SetMask;
  }

  lemma SavePhase(s: State, c: nat, l: nat)
    requires c < |s.cores| && l < |s.mem| && s.cores[c].pc == Mrs(l)
    ensures AllEnabled(s, Alone(c, 5)) && Exec(s, Alone(c, 5)) == Put(s, c, Saved(s.cores[c], l))
  {
    hide Step, Enabled, Advance, Stores, AllEnabled, Exec, Alone, Saved;
    var a := Tick(c);
    SaveChain(s.mem, s.cores[c], l);
    PlainTick(s, c);
    var s1 := Step(s, a);
    PlainTick(s1, c);
    var s2 := Step(s1, a);
    PlainTick(s2, c);
    var s3 := Step(s2, a);
    PlainTick(s3, c);
    var s4 := Step(s3, a);
    PlainTick(s4, c);
    NoneLeft(Step(s4, a), c);
    AloneStep(s4, c, 0);
    AloneStep(s3, c, 1);
    AloneStep(s2, c, 2);
    AloneStep(s1, c, 3);
    AloneStep(s, c, 4);
  }

  /** spin_lock_irqsave of core `c` alone. */
  function TakeMasked(c: nat, l: nat): seq<Action> {
    [CallLockIrqSave(c, l)] + (Alone(c, 5) + Alone(c, 5))
  }

  /** Alone, spin_lock_irqsave takes a free lock, keeps the CPSR it found, and returns with the interrupts
      masked. */
  lemma TakesMasked(s: State, c: nat, l: nat)
    requires c < |s.cores| && l < |s.mem| && s.cores[c].pc == Out && s.mem[l] == 0
    ensures AllEnabled(s, TakeMasked(c, l))
    ensures var t := Exec(s, TakeMasked(c, l));
      && t.mem == s.mem[l := 1] && |t.cores| == |s.cores| && t.cores[c].pc == Out
      && t.cores[c].stack == s.cores[c].stack + [Frame(l, Some(s.cores[c].cpsr))] && Masked(t.cores[c].cpsr)
  {
    hide Enabled, AllEnabled, Exec, Alone, TestZero, SetMask, Masked;
    var core := s.cores[c].(pc := Mrs(l));
    CallEnabled(s, c, l);
    var s1 := Put(s, c, core);
    SavePhase(s1, c, l);
    var s2 := Put(s1, c, Saved(core, l));
    AloneTakesLock(s2, c, l);
    Joined(s1, Alone(c, 5), Alone(c, 5));
    OneStep(s, CallLockIrqSave(c, l), Alone(c, 5) + Alone(c, 5));
    StaysMasked(core.cpsr);
  }

  lemma CallEnabled(s: State, c: nat, l: nat)
    requires c < |s.cores| && l < |s.mem| && s.cores[c].pc == Out
    ensures Enabled(s, CallLockIrqSave(c, l)) && Step(s, CallLockIrqSave(c, l)) == Put(s, c, s.cores[c].(pc := Mrs(l)))
  {
  }

  lemma StaysMasked(cpsr: bv32)
    ensures Masked(TestZero(TestZero(SetMask(cpsr), 0), 0))
  {
    hide Masked, TestZero, SetMask;
    MaskSet(cpsr);
    MaskBits(SetMask(cpsr), 0, 0);
    MaskBits(TestZero(SetMask(cpsr), 0), 0, 0);
  }

  // ---------- An unsafe unlock ----------

  /** No instruction of core `c` is among the actions. */
  predicate Waits(acts: seq<Action>, c: nat) {
    forall i | 0 <= i < |acts| :: acts[i] != Tick(c)
  }

  /** In the middle of an unlock a core changes by its own instructions only, but for the monitor. */
  lemma {:induction false} NothingHappens(s: State, acts: seq<Action>, c: nat)
    requires AllEnabled(s, acts) && Waits(acts, c) && c < |s.cores| && s.cores[c].pc != Out
    ensures var t := Exec(s, acts);
      c < |t.cores| && t.cores[c].(monitor := None) == s.cores[c].(monitor := None)
    decreases |acts|
  {
    hide Step;
    if acts != [] {
      StepCores(s, acts[0]);
      assert acts[0].c == c ==> acts[0].LoseMonitor?;
      NothingHappens(Step(s, acts[0]), acts[1..], c);
    }
  }

  lemma UnlockTick(s: State, c: nat)
    requires c < |s.cores| && Enabled(s, Tick(c)) && Releases(s.cores[c])
    ensures var t := Step(s, Tick(c)); c < |t.cores| && t.cores[c] == AfterStr(s.cores[c])
  {
    hide Stored, AfterStr;
    StoredIs(s, c, Released(s.cores[c]).l, 0, AfterStr(s.cores[c]));
  }

  lemma RestoreTick(s: State, c: nat)
    requires c < |s.cores| && Enabled(s, Tick(c)) && s.cores[c].pc.Restore?
    ensures var t := Step(s, Tick(c));
      c < |t.cores| && t.cores[c] == s.cores[c].(cpsr := s.cores[c].pc.flag, pc := Out)
  {
  }

  /** Whatever the others do meanwhile, an unlock that is not safe ends, once its two instructions have been
      executed, with a core that still holds a lock taken by spin_lock_irqsave and has the interrupts enabled. */
  lemma UnsafeUnlockUnmasks(s: State, c: nat, k: nat, first: seq<Action>, second: seq<Action>)
    requires Enabled(s, CallUnlock(c, k)) && !Safe(s.cores[c], k)
    requires Waits(first, c) && Waits(second, c)
    requires var s1 := Step(s, CallUnlock(c, k));
      AllEnabled(s1, first)
      && var s2 := Exec(s1, first);
      Enabled(s2, Tick(c))
      && var s3 := Step(s2, Tick(c));
      AllEnabled(s3, second) && Enabled(Exec(s3, second), Tick(c))
    ensures var t := Step(Exec(Step(Exec(Step(s, CallUnlock(c, k)), first), Tick(c)), second), Tick(c));
      && c < |t.cores| && t.cores[c].pc == Out
      && Guarded(t.cores[c]) && !Masked(t.cores[c].cpsr)
  {
    hide Step, Flags, Masked;
    var s1 := Step(s, CallUnlock(c, k));
    StepCores(s, CallUnlock(c, k));
    var s2 := Exec(s1, first);
    NothingHappens(s1, first, c);
    assert Releases(s2.cores[c]) && s2.cores[c].stack == s.cores[c].stack;
    UnlockTick(s2, c);
    var s3 := Step(s2, Tick(c));
    NothingHappens(s3, second, c);
    var s4 := Exec(s3, second);
    RestoreTick(s4, c);
  }

  // ---------- Safe runs ----------

  /** A run splits at any place, into two that are enabled, and safe if the whole is. */
  lemma {:induction false} Split(s: State, acts: seq<Action>, p: nat)
    requires AllEnabled(s, acts) && p <= |acts|
    ensures AllEnabled(s, acts[..p]) && AllEnabled(Exec(s, acts[..p]), acts[p..])
    ensures AllSafe(s, acts) <==> AllSafe(s, acts[..p]) && AllSafe(Exec(s, acts[..p]), acts[p..])
    decreases p
  {
    hide Step, Enabled, SafeAction;
    if p == 0 {
      assert acts[..0] == [] && acts[0..] == acts;
    } else {
      var a := acts[0];
      Split(Step(s, a), acts[1..], p - 1);
      assert acts[..p][0] == a && acts[..p][1..] == acts[1..][..p - 1] && acts[1..][p - 1..] == acts[p..];
    }
  }

  lemma {:induction false} UnsafeAt(s: State, acts: seq<Action>) returns (p: nat)
    requires AllEnabled(s, acts) && !AllSafe(s, acts)
    ensures p < |acts| && AllEnabled(s, acts[..p]) && Enabled(Exec(s, acts[..p]), acts[p])
    ensures !SafeAction(Exec(s, acts[..p]), acts[p])
    decreases |acts|
  {
    hide Step, Enabled, SafeAction;
    if !SafeAction(s, acts[0]) {
      p := 0;
      assert acts[..0] == [];
    } else {
      var q := UnsafeAt(Step(s, acts[0]), acts[1..]);
      p := q + 1;
      assert acts[..p][0] == acts[0] && acts[..p][1..] == acts[1..][..q] && acts[1..][q] == acts[p];
    }
  }

  /** The two instructions of an unlock with a flag. */
  function Unlocking(a: Action): seq<Action> {
    [a, Tick(a.c), Tick(a.c)]
  }

  /** When the unlock at place `p` of the run is carried through at once, its core holds a lock taken by
      spin_lock_irqsave with the interrupts enabled. */
  ghost predicate Unmasks(s: State, acts: seq<Action>, p: nat) {
    && p < |acts| && acts[p].CallUnlock?
    && AllEnabled(s, acts[..p] + Unlocking(acts[p]))
    && var t := Exec(s, acts[..p] + Unlocking(acts[p]));
    acts[p].c < |t.cores| && Guarded(t.cores[acts[p].c]) && !Masked(t.cores[acts[p].c].cpsr)
  }

  lemma UnlockEnabled(s: State, c: nat, k: nat)
    requires Sound(s) && Enabled(s, CallUnlock(c, k)) && s.cores[c].stack[k].flag.Some?
    ensures AllEnabled(s, Unlocking(CallUnlock(c, k)))
    ensures var s1 := Step(s, CallUnlock(c, k));
      Enabled(s1, Tick(c)) && Enabled(Step(s1, Tick(c)), Tick(c))
      && Exec(s, Unlocking(CallUnlock(c, k))) == Step(Step(s1, Tick(c)), Tick(c))
  {
    hide Step, Exec, AllEnabled;
    OneCore(s, c);
    var s1 := Step(s, CallUnlock(c, k));
    StepCores(s, CallUnlock(c, k));
    UnlockTick(s1, c);
    ThreeSteps(s, CallUnlock(c, k), Tick(c), Tick(c));
  }

  lemma UnsafeUnmasks(s: State, a: Action)
    requires Sound(s) && Enabled(s, a) && !SafeAction(s, a)
    ensures AllEnabled(s, Unlocking(a))
    ensures var t := Exec(s, Unlocking(a)); a.c < |t.cores| && Guarded(t.cores[a.c]) && !Masked(t.cores[a.c].cpsr)
  {
    hide Step, Guarded, Masked, Sound, Unlocking;
    UnlockEnabled(s, a.c, a.k);
    UnsafeUnlockUnmasks(s, a.c, a.k, [], []);
  }

  /** The converse of MaskedWhileGuarded: a run from the start has safe unlocks only exactly when no unlock in
      it, carried through, leaves its core guarded and unmasked. */
  lemma SafeRunIff(s: State, acts: seq<Action>)
    requires Initial(s) && AllEnabled(s, acts)
    ensures AllSafe(s, acts) <==> forall p: nat :: !Unmasks(s, acts, p)
  {
    hide Step, SafeAction, Unlocking, Guarded, Masked, Sound, AllNested;
    InitialIsGood(s);
    if AllSafe(s, acts) {
      forall p: nat
        ensures !Unmasks(s, acts, p)
      {
        if Unmasks(s, acts, p) {
          SafeStaysMasked(s, acts, p);
        }
      }
    } else {
      var p := UnsafeAt(s, acts);
      var t := Exec(s, acts[..p]);
      RunsAreSound(s, acts[..p]);
      UnsafeUnmasks(t, acts[p]);
      Joined(s, acts[..p], Unlocking(acts[p]));
      assert acts[p].CallUnlock? by {
        IsUnlock(t, acts[p]);
      }
      assert Unmasks(s, acts, p);
    }
  }

  lemma IsUnlock(s: State, a: Action)
    requires !SafeAction(s, a)
    ensures a.CallUnlock?
  {
  }

  lemma SafeStaysMasked(s: State, acts: seq<Action>, p: nat)
    requires Initial(s) && AllEnabled(s, acts) && AllSafe(s, acts)
    requires p < |acts| && acts[p].CallUnlock? && AllEnabled(s, acts[..p] + Unlocking(acts[p]))
    ensures var t := Exec(s, acts[..p] + Unlocking(acts[p]));
      acts[p].c < |t.cores| ==> Guarded(t.cores[acts[p].c]) ==> Masked(t.cores[acts[p].c].cpsr)
  {
    hide Step, Enabled, Guarded, Masked;
    var c := acts[p].c;
    var run := acts[..p] + Unlocking(acts[p]);
    Split(s, acts, p);
    Split(s, run, p);
    var t := Exec(s, acts[..p]);
    assert run[..p] == acts[..p] && run[p..] == Unlocking(acts[p]);
    assert SafeAction(t, acts[p]);
    assert Unlocking(acts[p])[1..] == [Tick(c), Tick(c)] && [Tick(c), Tick(c)][1..] == [Tick(c)];
    TicksAreSafe(t, acts[p]);
    ExecCores(s, run);
    if c < |s.cores| {
      MaskedWhileGuarded(s, run, c);
    }
  }

  lemma TicksAreSafe(s: State, a: Action)
    requires AllEnabled(s, Unlocking(a)) && SafeAction(s, a)
    ensures AllSafe(s, Unlocking(a))
  {
    hide Step, Enabled;
    var u := Unlocking(a);
    assert u[1..] == [Tick(a.c), Tick(a.c)] && u[1..][1..] == [Tick(a.c)] && u[1..][1..][1..] == [];
    var s1 := Step(s, a);
    assert AllEnabled(s1, u[1..]);
    var s2 := Step(s1, Tick(a.c));
    assert AllEnabled(s2, u[1..][1..]);
    assert AllSafe(Step(s2, Tick(a.c)), []);
    assert AllSafe(s2, u[1..][1..]);
    assert AllSafe(s1, u[1..]);
  }

  // ---------- The lock words ----------

  /** The step that carries out an unlock: it stores 0 in the word of the lock released and writes no other word;
      the core gives up that frame and goes on to the restore, or returns, with its registers as they are; the
      others lose at most their tag on that word. */
  lemma UnlockStores(s: State, c: nat)
    requires c < |s.cores| && Enabled(s, Tick(c)) && s.cores[c].pc.Str?
    ensures Releases(s.cores[c]) && Released(s.cores[c]).l < |s.mem|
    ensures var core, t := s.cores[c], Step(s, Tick(c));
      var f := Released(core);
      && |t.mem| == |s.mem| && t.mem[f.l] == 0 && (forall m | 0 <= m < |s.mem| && m != f.l :: t.mem[m] == s.mem[m])
      && |t.cores| == |s.cores|
      && t.cores[c] == core.(stack := Without(core.stack, core.pc.k),
                             pc := if f.flag.Some? then Restore(f.l, f.flag.value) else Out)
      && (forall d | 0 <= d < |s.cores| && d != c ::
            t.cores[d] == if s.cores[d].monitor == Some(f.l) then s.cores[d].(monitor := None) else s.cores[d])
  {
    hide Stored;
    StoredIs(s, c, Released(s.cores[c]).l, 0, AfterStr(s.cores[c]));
  }

  /** Only the store of a lock loop and the store of an unlock write a lock word: 1 and 0. */
  lemma WordsWritten(s: State, a: Action, m: nat)
    requires Enabled(s, a) && m < |s.mem|
    ensures m < |Step(s, a).mem|
    ensures Step(s, a).mem[m] == s.mem[m]
      || (a.Tick? && Stores(s.cores[a.c]) && s.cores[a.c].pc.l == m && Step(s, a).mem[m] == 1)
      || (a.Tick? && Releases(s.cores[a.c]) && Released(s.cores[a.c]).l == m && Step(s, a).mem[m] == 0)
  {
    hide Advance, AfterStr, AfterStrex;
  }

  /** Lock `l` is owned by some core. */
  ghost predicate Owned(s: State, l: nat) {
    exists c: nat :: c < |s.cores| && Owns(s.cores[c], l)
  }

  /** A word that is not 0 is the word of a lock that some core owns. */
  ghost predicate NotOrphaned(s: State) {
    forall l: nat | l < |s.mem| && s.mem[l] != 0 :: Owned(s, l)
  }

  /** A core keeps what it owns in every step but the store of an unlock. */
  lemma OwnerStays(mem: seq<nat>, core: Core, a: Action, l: nat)
    requires MayAct(mem, core, a) && !(a.Tick? && core.pc.Str?) && Owns(core, l)
    ensures Owns(Next(mem, core, a), l)
  {
    hide Z, TestZero, SetMask, NewFlags, Holds;
    var core' := Next(mem, core, a);
    if Holds(core, l) {
      HeldStays(mem, core, a, l);
    } else if !a.Tick? {
      assert core' == core.(monitor := None);
      SameOwner(core, core', l);
    } else if core.pc.TeqEq? {
      TestedZero(core.cpsr);
      assert Z(core') by {
        ZeroTested(core, core');
      }
    } else {
      PushedHolds(core, Frame(l, core.pending));
      SameStack(core.(stack := core.stack + [Frame(l, core.pending)]), core');
    }
  }

  lemma ZeroTested(core: Core, core': Core)
    requires core'.cpsr == TestZero(core.cpsr, 0)
    ensures Z(core')
  {
    TestedZero(core.cpsr);
  }

  lemma HeldStays(mem: seq<nat>, core: Core, a: Action, l: nat)
    requires MayAct(mem, core, a) && !(a.Tick? && core.pc.Str?) && Holds(core, l)
    ensures Holds(Next(mem, core, a), l)
  {
    hide Z, TestZero, SetMask, NewFlags, Stores;
    var core' := Next(mem, core, a);
    var k :| 0 <= k < |core.stack| && core.stack[k].l == l;
    assert core'.stack[k] == core.stack[k];
  }

  lemma SameOwner(core: Core, core': Core, l: nat)
    requires core' == core || core' == core.(monitor := None)
    ensures Owns(core', l) <==> Owns(core, l)
  {
    SameStack(core, core');
  }

  /** The others own after a step what they owned before it. */
  lemma OtherOwner(s: State, a: Action, d: nat, l: nat)
    requires Enabled(s, a) && d < |s.cores| && d != a.c
    ensures d < |Step(s, a).cores| && (Owns(Step(s, a).cores[d], l) <==> Owns(s.cores[d], l))
  {
    hide Step, Owns;
    StepCores(s, a);
    SameOwner(s.cores[d], Step(s, a).cores[d], l);
  }

  lemma OwnedStays(s: State, a: Action, l: nat)
    requires Sound(s) && Enabled(s, a) && Owned(s, l)
    requires !(a.Tick? && Releases(s.cores[a.c]) && Released(s.cores[a.c]).l == l)
    ensures Owned(Step(s, a), l)
  {
    hide Step, Owns, Next, CoreSound;
    var c: nat :| c < |s.cores| && Owns(s.cores[c], l);
    OneCore(s, a.c);
    StepCores(s, a);
    if c != a.c {
      OtherOwner(s, a, c, l);
    } else if a.Tick? && s.cores[c].pc.Str? {
      StrCore(s.mem, s.cores[c]);
      UnlockTick(s, c);
    } else {
      OwnerStays(s.mem, s.cores[c], a, l);
    }
    assert Owns(Step(s, a).cores[c], l);
  }

  lemma StepNotOrphaned(s: State, a: Action)
    requires Sound(s) && NotOrphaned(s) && Enabled(s, a)
    ensures NotOrphaned(Step(s, a))
  {
    hide Sound, Owned, Step;
    var t := Step(s, a);
    StepCores(s, a);
    if a.Tick? && s.cores[a.c].pc.Str? {
      UnlockStores(s, a.c);
    }
    forall l: nat | l < |t.mem| && t.mem[l] != 0
      ensures Owned(t, l)
    {
      WordsWritten(s, a, l);
      if a.Tick? && Stores(s.cores[a.c]) && s.cores[a.c].pc.l == l {
        NewOwner(s, a.c);
      } else {
        OwnedStays(s, a, l);
      }
    }
  }

  lemma NewOwner(s: State, c: nat)
    requires c < |s.cores| && Enabled(s, Tick(c)) && Stores(s.cores[c])
    ensures Owned(Step(s, Tick(c)), s.cores[c].pc.l)
  {
    var l := s.cores[c].pc.l;
    assert Owns(AfterStrex(s.cores[c]), l);
    assert Owns(Step(s, Tick(c)).cores[c], l) by {
      hide AfterStrex;
      StrexTick(s, c);
    }
  }

  lemma {:induction false} RunsNotOrphaned(s: State, acts: seq<Action>)
    requires Sound(s) && NotOrphaned(s) && AllEnabled(s, acts)
    ensures Sound(Exec(s, acts)) && NotOrphaned(Exec(s, acts))
    decreases |acts|
  {
    hide Sound, NotOrphaned, Step;
    if acts != [] {
      StepKeeps(s, acts[0]);
      StepNotOrphaned(s, acts[0]);
      RunsNotOrphaned(Step(s, acts[0]), acts[1..]);
    }
  }

  /** Over every run from the start, the word of a lock is not 0 exactly while some core owns the lock: from the
      store that took it to the store that releases it. */
  lemma WordSetIff(s: State, acts: seq<Action>, l: nat)
    requires Initial(s) && AllEnabled(s, acts) && l < |s.mem|
    ensures l < |Exec(s, acts).mem|
    ensures Exec(s, acts).mem[l] != 0 <==> Owned(Exec(s, acts), l)
  {
    hide Owns;
    InitialIsGood(s);
    RunsNotOrphaned(s, acts);
    ExecCores(s, acts);
  }

  /** A released lock can be taken: behind the store of an unlock of `l`, five instructions of any core that is at
      the start of the lock loop for `l` take it. */
  lemma ReleasedIsTaken(s: State, c: nat, d: nat)
    requires c < |s.cores| && d < |s.cores| && d != c && Enabled(s, Tick(c)) && s.cores[c].pc.Str?
    requires Releases(s.cores[c]) && s.cores[d].pc == Ldrex(Released(s.cores[c]).l)
    ensures var t := Step(s, Tick(c));
      AllEnabled(t, Alone(d, 5)) && d < |Exec(t, Alone(d, 5)).cores|
      && Exec(t, Alone(d, 5)).cores[d].pc == Out && Holds(Exec(t, Alone(d, 5)).cores[d], Released(s.cores[c]).l)
  {
    hide Step, Exec, AllEnabled, Holds, Enabled;
    EnabledReleases(s, c);
    UnlockStores(s, c);
    AloneTakesLock(Step(s, Tick(c)), d, Released(s.cores[c]).l);
  }

  lemma EnabledReleases(s: State, c: nat)
    requires c < |s.cores| && Enabled(s, Tick(c)) && s.cores[c].pc.Str?
    ensures Releases(s.cores[c]) && Released(s.cores[c]).l < |s.mem|
  {
  }

  /** spin_lock and spin_unlock of core `c` alone. */
  function LockUnlock(c: nat, l: nat): seq<Action> {
    [CallLock(c, l)] + Alone(c, 5) + [CallUnlock(c, 0), Tick(c)]
  }

  /** From every initial state a core can take a lock and release it, and is back where it began: every lock word
      is 0 again, nothing is held, and the interrupt mask is what it was. */
  lemma LockUnlockReturns(s: State, c: nat, l: nat)
    requires Initial(s) && c < |s.cores| && l < |s.mem|
    ensures AllEnabled(s, LockUnlock(c, l))
    ensures var t := Exec(s, LockUnlock(c, l));
      && t.mem == s.mem && |t.cores| == |s.cores| && t.cores[c].pc == Out && t.cores[c].stack == []
      && (Masked(t.cores[c].cpsr) <==> Masked(s.cores[c].cpsr))
  {
    hide Step, Exec, AllEnabled, Enabled, TestZero, Masked, Alone;
    var s1 := Put(s, c, s.cores[c].(pending := None, pc := Ldrex(l)));
    PlainCall(s, c, l);
    AloneTakesLock(s1, c, l);
    var s2 := Exec(s1, Alone(c, 5));
    ReleaseOnly(s2, c, l);
    OneStep(s, CallLock(c, l), Alone(c, 5));
    Joined(s, [CallLock(c, l)] + Alone(c, 5), [CallUnlock(c, 0), Tick(c)]);
    assert s.mem[l := 1][l := 0] == s.mem;
    MaskBits(s.cores[c].cpsr, 0, 0);
    MaskBits(TestZero(s.cores[c].cpsr, 0), 0, 0);
  }

  lemma PlainCall(s: State, c: nat, l: nat)
    requires c < |s.cores| && l < |s.mem| && s.cores[c].pc == Out
    ensures Enabled(s, CallLock(c, l))
    ensures Step(s, CallLock(c, l)) == Put(s, c, s.cores[c].(pending := None, pc := Ldrex(l)))
  {
  }

  lemma ReleaseOnly(s: State, c: nat, l: nat)
    requires c < |s.cores| && l < |s.mem| && s.cores[c].pc == Out && s.cores[c].stack == [Frame(l, None)]
    ensures var acts := [CallUnlock(c, 0), Tick(c)];
      AllEnabled(s, acts)
      && var t := Exec(s, acts);
      t.mem == s.mem[l := 0] && |t.cores| == |s.cores| && t.cores[c] == s.cores[c].(stack := [], pc := Out)
  {
    hide Exec, AllEnabled;
    var s1 := Put(s, c, s.cores[c].(pc := Str(0)));
    assert Enabled(s, CallUnlock(c, 0)) && Step(s, CallUnlock(c, 0)) == s1;
    assert Enabled(s1, Tick(c));
    UnlockStores(s1, c);
    assert Without([Frame(l, None)], 0) == [];
    var t := Step(s1, Tick(c));
    assert t.mem == s.mem[l := 0];
    TwoSteps(s, CallUnlock(c, 0), Tick(c));
  }

  lemma TwoSteps(s: State, a: Action, b: Action)
    requires Enabled(s, a) && Enabled(Step(s, a), b)
    ensures AllEnabled(s, [a, b]) && Exec(s, [a, b]) == Step(Step(s, a), b)
  {
    hide Step, Enabled;
    assert AllEnabled(Step(Step(s, a), b), []) && Exec(Step(Step(s, a), b), []) == Step(Step(s, a), b);
    OneStep(Step(s, a), b, []);
    OneStep(s, a, [b]);
    assert [b] + [] == [b] && [a] + [b] == [a, b];
  }

  // ---------- Waiting ----------

  /** In a call of spin_lock or spin_lock_irqsave. */
  predicate InCall(pc: Pc) {
    pc.Mrs? || Saving(pc) || Locking(pc)
  }

  /** A call for a lock is left in one way only, with the lock held; until then it stays a call for that lock, and
      what is held does not change. */
  lemma LeavesHolding(s: State, a: Action, c: nat)
    requires Enabled(s, a) && c < |s.cores| && InCall(s.cores[c].pc)
    ensures c < |Step(s, a).cores|
    ensures var core, core' := s.cores[c], Step(s, a).cores[c];
      || (InCall(core'.pc) && core'.pc.l == core.pc.l && core'.stack == core.stack)
      || (core'.pc == Out && core'.stack == core.stack + [Frame(core.pc.l, core.pending)] && Holds(core', core.pc.l))
  {
    hide Step, Z, TestZero, SetMask, NewFlags, Holds, Stores;
    StepCores(s, a);
    if a.c == c && s.cores[c].pc.Bne? {
      HoldsLastIf(s.cores[c], Step(s, a).cores[c]);
    }
  }

  lemma HoldsLastIf(core: Core, core': Core)
    requires core.pc.Bne?
    ensures core'.stack == core.stack + [Frame(core.pc.l, core.pending)] ==> Holds(core', core.pc.l)
  {
    if core'.stack == core.stack + [Frame(core.pc.l, core.pending)] {
      HoldsLast(core.stack, Frame(core.pc.l, core.pending), core');
    }
  }

  /** The core after one turn of the loop at a word `v` that is not 0. */
  function Turned(core: Core, l: nat, v: nat): Core {
    core.(tmp := v, monitor := Some(l), cpsr := TestZero(core.cpsr, v))
  }

  lemma TestedNotZero(cpsr: bv32, v: nat)
    requires v != 0
    ensures TestZero(cpsr, v) & Z_BIT == 0
  {
  }

  lemma TurnChain(mem: seq<nat>, core: Core, l: nat)
    requires core.pc == Ldrex(l) && l < |mem| && mem[l] != 0
    ensures !Stores(core)
    ensures var c1 := Advance(mem, core);
      c1.pc == Teq(l) && !Stores(c1)
      && var c2 := Advance(mem, c1);
      c2.pc == StrexEq(l) && !Stores(c2)
      && var c3 := Advance(mem, c2);
      c3.pc == TeqEq(l) && !Stores(c3)
      && var c4 := Advance(mem, c3);
      c4.pc == Bne(l) && !Stores(c4) && Advance(mem, c4) == Turned(core, l, mem[l])
  {
    hide TestZero;
    TestedNotZero(core.cpsr, mem[l]);
  }

  /** While the word is not 0 the loop goes round, and writes nothing: with AloneTakesLock, five instructions take
      the lock exactly when its word is 0. */
  lemma AloneWaits(s: State, c: nat, l: nat)
    requires c < |s.cores| && l < |s.mem| && s.cores[c].pc == Ldrex(l) && s.mem[l] != 0
    ensures AllEnabled(s, Alone(c, 5)) && Exec(s, Alone(c, 5)) == Put(s, c, Turned(s.cores[c], l, s.mem[l]))
  {
    hide Step, Enabled, Advance, Stores, AllEnabled, Exec, Alone, Turned;
    var a := Tick(c);
    TurnChain(s.mem, s.cores[c], l);
    PlainTick(s, c);
    var s1 := Step(s, a);
    PlainTick(s1, c);
    var s2 := Step(s1, a);
    PlainTick(s2, c);
    var s3 := Step(s2, a);
    PlainTick(s3, c);
    var s4 := Step(s3, a);
    PlainTick(s4, c);
    NoneLeft(Step(s4, a), c);
    AloneStep(s4, c, 0);
    AloneStep(s3, c, 1);
    AloneStep(s2, c, 2);
    AloneStep(s1, c, 3);
    AloneStep(s, c, 4);
  }

  // ---------- From the start ----------

  /** The release of two locks in the order they were taken. */
  function OutOfOrder(c: nat, l: nat, m: nat): seq<Action> {
    TakeMasked(c, l) + TakeMasked(c, m) + Unlocking(CallUnlock(c, 0))
  }

  /** From every initial state in which a core has the interrupts enabled, that core can take two locks by
      spin_lock_irqsave and release them in that order, and is left in the second with the interrupts
      enabled. */
  lemma OutOfOrderUnmasks(s: State, c: nat, l: nat, m: nat)
    requires Initial(s) && c < |s.cores| && l < |s.mem| && m < |s.mem| && l != m && !Masked(s.cores[c].cpsr)
    ensures AllEnabled(s, OutOfOrder(c, l, m))
    ensures var t := Exec(s, OutOfOrder(c, l, m));
      && c < |t.cores| && t.cores[c].pc == Out && Holds(t.cores[c], m)
      && Guarded(t.cores[c]) && !Masked(t.cores[c].cpsr) && t.cores[c].cpsr == s.cores[c].cpsr
  {
    hide TakeMasked, AllEnabled, Exec, Masked, Flags, Step, Enabled, Sound, Nested, Unlocking;
    InitialIsGood(s);
    TakesMasked(s, c, l);
    var s1 := Exec(s, TakeMasked(c, l));
    TakesMasked(s1, c, m);
    var s2 := Exec(s1, TakeMasked(c, m));
    Joined(s, TakeMasked(c, l), TakeMasked(c, m));
    RunsAreSound(s, TakeMasked(c, l) + TakeMasked(c, m));
    ReleaseFirst(s2, c, l, m, s.cores[c].cpsr, s1.cores[c].cpsr);
    Joined(s, TakeMasked(c, l) + TakeMasked(c, m), Unlocking(CallUnlock(c, 0)));
  }

  lemma ReleaseFirst(s: State, c: nat, l: nat, m: nat, v: bv32, w: bv32)
    requires Sound(s) && c < |s.cores| && s.cores[c].pc == Out && !Masked(v)
    requires s.cores[c].stack == [Frame(l, Some(v)), Frame(m, Some(w))]
    ensures AllEnabled(s, Unlocking(CallUnlock(c, 0)))
    ensures var t := Exec(s, Unlocking(CallUnlock(c, 0)));
      && c < |t.cores| && t.cores[c].pc == Out && Holds(t.cores[c], m)
      && Guarded(t.cores[c]) && !Masked(t.cores[c].cpsr) && t.cores[c].cpsr == v
  {
    hide Step, Masked, AllEnabled, Exec, Sound, Flags, Unlocking;
    UnlockEnabled(s, c, 0);
    var s1 := Step(s, CallUnlock(c, 0));
    StepCores(s, CallUnlock(c, 0));
    UnlockTick(s1, c);
    var s2 := Step(s1, Tick(c));
    assert s2.cores[c].stack == [Frame(m, Some(w))];
    RestoreTick(s2, c);
    PushFlags([], Frame(m, Some(w)));
    assert [] + [Frame(m, Some(w))] == [Frame(m, Some(w))];
    HoldsLast([], Frame(m, Some(w)), Step(s2, Tick(c)).cores[c]);
  }
}
