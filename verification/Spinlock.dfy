/** The spinlock (include/types/spinlock_t.h) as a state machine: any number of cores interleave the single
    instructions of spin_lock, spin_unlock and their irqsave forms under an exclusive monitor (section A3.4
    of the ARMv7-A/R Architecture Reference Manual). */
module Spinlock {
  import opened Wrappers

  const CIRQFIQ: bv32 := 0xc0
  /** The bits of the CPSR that mask IRQ and FIQ. */
  const I_BIT: bv32 := 0x80
  const F_BIT: bv32 := 0x40
  const N_BIT: bv32 := 0x8000_0000
  const Z_BIT: bv32 := 0x4000_0000
  /** The condition flags N, Z, C and V, which any computation may change. */
  const FLAG_BITS: bv32 := 0xf000_0000

  /** The next instruction of a core; `l` is the lock, `k` the frame being released. */
  datatype Pc =
    | Out
    | Mrs(l: nat) | Mov(l: nat) | Orr(l: nat) | Msr(l: nat) | Keep(l: nat)
    | Ldrex(l: nat) | Teq(l: nat) | StrexEq(l: nat) | TeqEq(l: nat) | Bne(l: nat)
    | Str(k: nat)
    | Restore(l: nat, flag: bv32)

  /** A lock held, with the CPSR kept in `*flag` when it was taken by spin_lock_irqsave. */
  datatype Frame = Frame(l: nat, flag: Option<bv32>)

  /** A core: registers, the address its exclusive monitor tags, and the locks it holds in order of
      acquisition. */
  datatype Core = Core(pc: Pc, tmp: nat, r5: bv32, saved: bv32, pending: Option<bv32>, cpsr: bv32,
                       monitor: Option<nat>, stack: seq<Frame>)

  /** The lock words and the cores. */
  datatype State = State(mem: seq<nat>, cores: seq<Core>)

  datatype Action =
    | Tick(c: nat)
    | CallLock(c: nat, l: nat)
    | CallLockIrqSave(c: nat, l: nat)
    | CallUnlock(c: nat, k: nat)
    | Compute(c: nat, flags: bv32)
    | LoseMonitor(c: nat)

  predicate Z(core: Core) {
    core.cpsr & Z_BIT != 0
  }

  /** teq against 0: N and Z from the operand, a word of at most 31 bits here. */
  function TestZero(cpsr: bv32, v: nat): bv32 {
    if v == 0 then (cpsr & !(N_BIT | Z_BIT)) | Z_BIT else cpsr & !(N_BIT | Z_BIT)
  }

  /** The condition flags after some computation of the core. */
  function NewFlags(cpsr: bv32, flags: bv32): bv32 {
    (cpsr & !FLAG_BITS) | (flags & FLAG_BITS)
  }

  /** orr with CIRQFIQ. */
  function SetMask(cpsr: bv32): bv32 {
    cpsr | CIRQFIQ
  }

  /** A store to `l` makes every other core lose its tag on `l`. */
  function Untag(core: Core, l: nat): Core {
    if core.monitor == Some(l) then core.(monitor := None) else core
  }

  function Stored(s: State, c: nat, l: nat, v: nat, core: Core): (r: State)
    requires c < |s.cores| && l < |s.mem|
    ensures r.mem == s.mem[l := v] && |r.cores| == |s.cores| && r.cores[c] == core
    ensures forall d | 0 <= d < |s.cores| && d != c :: r.cores[d] == Untag(s.cores[d], l)
  {
    State(s.mem[l := v], seq(|s.cores|, d requires 0 <= d < |s.cores| => if d == c then core else Untag(s.cores[d], l)))
  }

  function Put(s: State, c: nat, core: Core): State
    requires c < |s.cores|
  {
    s.(cores := s.cores[c := core])
  }

  predicate LockOf(n: nat, pc: Pc) {
    (pc.Mrs? || pc.Mov? || pc.Orr? || pc.Msr? || pc.Keep? || pc.Ldrex? || pc.Teq? || pc.StrexEq? || pc.TeqEq? || pc.Bne?)
    ==> pc.l < n
  }

  predicate Enabled(s: State, a: Action) {
    && a.c < |s.cores|
    && match a
       case Tick(c) => s.cores[c].pc != Out && LockOf(|s.mem|, s.cores[c].pc)
            && (s.cores[c].pc.Str? ==> Releases(s.cores[c]) && Released(s.cores[c]).l < |s.mem|)
       case CallLock(c, l) => s.cores[c].pc == Out && l < |s.mem|
       case CallLockIrqSave(c, l) => s.cores[c].pc == Out && l < |s.mem|
       case CallUnlock(c, k) => s.cores[c].pc == Out && k < |s.cores[c].stack|
       case Compute(c, flags) => s.cores[c].pc == Out
       case LoseMonitor(c) => true
  }

  /** The core is about to release one of the locks it holds, whichever it is. */
  predicate Releases(core: Core) {
    core.pc.Str? && core.pc.k < |core.stack|
  }

  function Released(core: Core): Frame
    requires Releases(core)
  {
    core.stack[core.pc.k]
  }

  function Without(stack: seq<Frame>, k: nat): seq<Frame>
    requires k < |stack|
  {
    stack[..k] + stack[k + 1..]
  }

  /** The store of a strexeq takes place. */
  predicate Stores(core: Core) {
    core.pc.StrexEq? && Z(core) && core.monitor == Some(core.pc.l)
  }

  /** One instruction that writes no lock word. The irqsave call runs from the read of the CPSR to the store
      of the old value, and falls into the lock loop; the loop goes back to its exclusive load unless the last
      test left Z set; the irqrestore call ends by writing the kept CPSR back. */
  function Advance(mem: seq<nat>, core: Core): Core
    requires !core.pc.Str? && !Stores(core) && LockOf(|mem|, core.pc)
  {
    match core.pc
    case Out => core
    case Mrs(l) => core.(r5 := core.cpsr, pc := Mov(l))
    case Mov(l) => core.(saved := core.r5, pc := Orr(l))
    case Orr(l) => core.(r5 := SetMask(core.r5), pc := Msr(l))
    case Msr(l) => core.(cpsr := core.r5, pc := Keep(l))
    case Keep(l) => core.(pending := Some(core.saved), pc := Ldrex(l))
    case Ldrex(l) => core.(tmp := mem[l], monitor := Some(l), pc := Teq(l))
    case Teq(l) => core.(cpsr := TestZero(core.cpsr, core.tmp), pc := StrexEq(l))
    case StrexEq(l) => if Z(core) then core.(tmp := 1, monitor := None, pc := TeqEq(l)) else core.(pc := TeqEq(l))
    case TeqEq(l) => core.(cpsr := if Z(core) then TestZero(core.cpsr, core.tmp) else core.cpsr, pc := Bne(l))
    case Bne(l) =>
      if !Z(core) then core.(pc := Ldrex(l))
      else core.(stack := core.stack + [Frame(l, core.pending)], pending := None, pc := Out)
    case Restore(_, flag) => core.(cpsr := flag, pc := Out)
  }

  /** The core after its strexeq has stored. */
  function AfterStrex(core: Core): Core
    requires core.pc.StrexEq?
  {
    core.(tmp := 0, monitor := None, pc := TeqEq(core.pc.l))
  }

  /** The core after the str of spin_unlock; the irqrestore form goes on to restore the CPSR. */
  function AfterStr(core: Core): Core
    requires Releases(core)
  {
    var f := Released(core);
    core.(stack := Without(core.stack, core.pc.k), pc := if f.flag.Some? then Restore(f.l, f.flag.value) else Out)
  }

  /** One instruction of core `c`. */
  function Instruction(s: State, c: nat): State
    requires Enabled(s, Tick(c))
  {
    var core := s.cores[c];
    if core.pc.Str? then Stored(s, c, Released(core).l, 0, AfterStr(core))
    else if Stores(core) then Stored(s, c, core.pc.l, 1, AfterStrex(core))
    else Put(s, c, Advance(s.mem, core))
  }

  function Step(s: State, a: Action): State
    requires Enabled(s, a)
  {
    match a
    case Tick(c) => Instruction(s, c)
    case CallLock(c, l) => Put(s, c, s.cores[c].(pending := None, pc := Ldrex(l)))
    case CallLockIrqSave(c, l) => Put(s, c, s.cores[c].(pc := Mrs(l)))
    case CallUnlock(c, k) => Put(s, c, s.cores[c].(pc := Str(k)))
    case Compute(c, flags) =>
      Put(s, c, s.cores[c].(cpsr := NewFlags(s.cores[c].cpsr, flags)))
    case LoseMonitor(c) => Put(s, c, s.cores[c].(monitor := None))
  }

  // ---------- Mutual exclusion ----------

  /** The core has won the lock in its current call but not returned from it yet. */
  predicate Won(core: Core, l: nat) {
    || (core.pc == TeqEq(l) && Z(core) && core.tmp == 0)
    || (core.pc == Bne(l) && Z(core))
  }

  /** The core is between spin_lock and spin_unlock of `l`. */
  predicate Holds(core: Core, l: nat) {
    exists k :: 0 <= k < |core.stack| && core.stack[k].l == l
  }

  predicate Owns(core: Core, l: nat) {
    Won(core, l) || Holds(core, l)
  }

  /** No lock is held twice by one core. */
  ghost predicate Single(core: Core) {
    && (forall j, k | 0 <= j < k < |core.stack| :: core.stack[j].l != core.stack[k].l)
    && (forall l | Won(core, l) :: !Holds(core, l))
  }

  /** What a core that still holds its tag knows of the lock word. */
  predicate TagHonest(mem: seq<nat>, core: Core) {
    && (core.pc.Teq? && core.monitor == Some(core.pc.l) ==> core.pc.l < |mem| && core.tmp == mem[core.pc.l])
    && (core.pc.StrexEq? && core.monitor == Some(core.pc.l) && Z(core) ==> core.pc.l < |mem| && mem[core.pc.l] == 0)
  }

  predicate InRange(n: nat, core: Core) {
    && LockOf(n, core.pc)
    && (forall k | 0 <= k < |core.stack| :: core.stack[k].l < n)
    && (core.pc.Str? ==> core.pc.k < |core.stack|)
  }

  ghost predicate CoreSound(mem: seq<nat>, core: Core) {
    InRange(|mem|, core) && TagHonest(mem, core) && Single(core)
  }

  ghost predicate CoresSound(s: State) {
    forall c: nat | c < |s.cores| :: CoreSound(s.mem, s.cores[c])
  }

  /** A lock owned is a lock word that is not zero. */
  ghost predicate Locked(s: State) {
    forall c: nat, l: nat {:trigger Owns(s.cores[c], l)} | c < |s.cores| && Owns(s.cores[c], l) ::
      l < |s.mem| && s.mem[l] != 0
  }

  ghost predicate Exclusive(s: State) {
    forall c: nat, d: nat, l: nat {:trigger Owns(s.cores[c], l), Owns(s.cores[d], l)}
      | c < |s.cores| && d < |s.cores| && Owns(s.cores[c], l) && Owns(s.cores[d], l) :: c == d
  }

  ghost predicate Sound(s: State) {
    CoresSound(s) && Locked(s) && Exclusive(s)
  }

  ghost predicate NoNewOwner(core: Core, core': Core) {
    forall l: nat | Owns(core', l) :: Owns(core, l)
  }

  /** A change of one core that takes no new lock keeps the invariant. */
  lemma PutKeeps(s: State, c: nat, core: Core)
    requires Sound(s) && c < |s.cores| && CoreSound(s.mem, core) && NoNewOwner(s.cores[c], core)
    ensures Sound(Put(s, c, core))
  {
    hide CoreSound;
    var t := Put(s, c, core);
    forall d: nat | d < |t.cores|
      ensures CoreSound(t.mem, t.cores[d])
      ensures forall l: nat | Owns(t.cores[d], l) :: Owns(s.cores[d], l)
    {
      if d != c {
        assert CoreSound(s.mem, s.cores[d]);
      }
    }
    assert CoresSound(t);
    assert Locked(t);
    assert Exclusive(t);
  }

  lemma SameStack(core: Core, core': Core)
    requires core'.stack == core.stack
    ensures forall l: nat :: Holds(core', l) <==> Holds(core, l)
  {
  }

  /** Losing a tag on a stored word leaves an honest core. */
  lemma UntagKeeps(mem: seq<nat>, core: Core, l: nat, v: nat)
    requires l < |mem| && CoreSound(mem, core)
    ensures CoreSound(mem[l := v], Untag(core, l)) && NoNewOwner(core, Untag(core, l))
  {
    SameStack(core, Untag(core, l));
  }

  /** Core `c`, in the state `core` after its store to `l`, owns at most what it owned, and `l` only if the
      stored word is not 0; no other core owned `l`. */
  ghost predicate OwnsAfter(s: State, c: nat, l: nat, v: nat, core: Core)
    requires c < |s.cores|
  {
    && (forall k: nat | Owns(core, k) :: (Owns(s.cores[c], k) && k != l) || (k == l && v != 0))
    && (forall d: nat | d < |s.cores| && d != c :: !Owns(s.cores[d], l))
  }

  lemma OwnerAfter(s: State, c: nat, l: nat, v: nat, core: Core, d: nat, k: nat)
    requires CoresSound(s) && c < |s.cores| && l < |s.mem| && OwnsAfter(s, c, l, v, core) && d < |s.cores|
    requires Owns(Stored(s, c, l, v, core).cores[d], k)
    ensures if k == l then d == c && v != 0 else Owns(s.cores[d], k)
  {
    hide CoreSound;
    if d != c {
      assert CoreSound(s.mem, s.cores[d]);
      UntagKeeps(s.mem, s.cores[d], l, v);
    }
  }

  lemma StoreKeeps(s: State, c: nat, l: nat, v: nat, core: Core)
    requires Sound(s) && c < |s.cores| && l < |s.mem| && CoreSound(s.mem[l := v], core)
    requires OwnsAfter(s, c, l, v, core)
    ensures Sound(Stored(s, c, l, v, core))
  {
    hide CoreSound, Stored, OwnsAfter;
    var t := Stored(s, c, l, v, core);
    StoredIs(s, c, l, v, core);
    forall d: nat | d < |t.cores|
      ensures CoreSound(t.mem, t.cores[d])
    {
      if d != c {
        UntagKeeps(s.mem, s.cores[d], l, v);
      }
    }
    forall d: nat, k: nat {:trigger Owns(t.cores[d], k)} | d < |t.cores| && Owns(t.cores[d], k)
      ensures k < |t.mem| && t.mem[k] != 0
    {
      OwnerAfter(s, c, l, v, core, d, k);
      if k != l {
        assert Owns(s.cores[d], k);
        assert k < |s.mem| && s.mem[k] != 0;
      }
      assert t.mem[k] == s.mem[l := v][k];
    }
    forall d: nat, e: nat, k: nat {:trigger Owns(t.cores[d], k), Owns(t.cores[e], k)}
      | d < |t.cores| && e < |t.cores| && Owns(t.cores[d], k) && Owns(t.cores[e], k)
      ensures d == e
    {
      OwnerAfter(s, c, l, v, core, d, k);
      OwnerAfter(s, c, l, v, core, e, k);
    }
  }

  lemma StoredIs(s: State, c: nat, l: nat, v: nat, core: Core)
    requires c < |s.cores| && l < |s.mem|
    ensures var t := Stored(s, c, l, v, core);
      t.mem == s.mem[l := v] && |t.cores| == |s.cores| && t.cores[c] == core
      && forall d | 0 <= d < |s.cores| && d != c :: t.cores[d] == Untag(s.cores[d], l)
  {
  }

  lemma FreeLock(s: State, l: nat)
    requires Sound(s) && l < |s.mem| && s.mem[l] == 0
    ensures forall d: nat | d < |s.cores| :: !Owns(s.cores[d], l)
  {
    hide CoresSound, Exclusive;
  }

  /** A successful strex makes an owner. */
  lemma StrexCore(mem: seq<nat>, core: Core)
    requires Stores(core) && CoreSound(mem, core) && !Owns(core, core.pc.l)
    ensures core.pc.l < |mem| && CoreSound(mem[core.pc.l := 1], AfterStrex(core))
    ensures forall k: nat | Owns(AfterStrex(core), k) :: Owns(core, k) || k == core.pc.l
  {
    SameStack(core, AfterStrex(core));
  }

  lemma OneOwner(s: State, c: nat, l: nat)
    requires Sound(s) && c < |s.cores| && Owns(s.cores[c], l)
    ensures forall d: nat | d < |s.cores| && d != c :: !Owns(s.cores[d], l)
  {
    hide CoresSound, Locked;
  }

  /** The store of an unlock gives up the lock released, wherever it lies among those held, and no other. */
  lemma StrCore(mem: seq<nat>, core: Core)
    requires Releases(core) && CoreSound(mem, core)
    ensures var l := Released(core).l; l < |mem| && Owns(core, l) && CoreSound(mem[l := 0], AfterStr(core))
    ensures forall k: nat :: Owns(AfterStr(core), k) <==> Owns(core, k) && k != Released(core).l
  {
    assert Holds(core, Released(core).l);
    ReleasedHolds(core);
    assert Single(AfterStr(core));
  }

  lemma ReleasedHolds(core: Core)
    requires Releases(core) && Single(core)
    ensures forall l: nat :: Holds(AfterStr(core), l) <==> Holds(core, l) && l != Released(core).l
  {
    var k, left := core.pc.k, AfterStr(core).stack;
    forall l: nat
      ensures Holds(AfterStr(core), l) <==> Holds(core, l) && l != Released(core).l
    {
      if Holds(AfterStr(core), l) {
        var j :| 0 <= j < |left| && left[j].l == l;
        assert left[j] == core.stack[if j < k then j else j + 1];
      }
      if Holds(core, l) && l != Released(core).l {
        var j :| 0 <= j < |core.stack| && core.stack[j].l == l;
        assert core.stack[j] == left[if j < k then j else j - 1];
      }
    }
  }

  lemma PushedHolds(core: Core, f: Frame)
    ensures forall k: nat :: Holds(core.(stack := core.stack + [f]), k) <==> Holds(core, k) || k == f.l
  {
    var core' := core.(stack := core.stack + [f]);
    forall k: nat
      ensures Holds(core', k) <==> Holds(core, k) || k == f.l
    {
      if Holds(core', k) {
        var j :| 0 <= j < |core'.stack| && core'.stack[j].l == k;
        assert j < |core.stack| ==> core.stack[j].l == k;
      }
      if Holds(core, k) {
        var j :| 0 <= j < |core.stack| && core.stack[j].l == k;
        assert core'.stack[j].l == k;
      }
      assert core'.stack[|core.stack|] == f;
    }
  }

  /** Returning from spin_lock: the lock won becomes a lock held. */
  lemma ReturnCore(mem: seq<nat>, core: Core)
    requires core.pc.Bne? && Z(core) && CoreSound(mem, core)
    ensures CoreSound(mem, Advance(mem, core)) && NoNewOwner(core, Advance(mem, core))
  {
    var f := Frame(core.pc.l, core.pending);
    assert Won(core, f.l);
    PushedHolds(core, f);
    SameStack(core.(stack := core.stack + [f]), Advance(mem, core));
    assert forall j | 0 <= j < |core.stack| :: core.stack[j].l != f.l;
  }

  /** A step that leaves the stack alone and wins no lock. */
  lemma PlainCore(mem: seq<nat>, core: Core, core': Core)
    requires CoreSound(mem, core) && core'.stack == core.stack
    requires LockOf(|mem|, core'.pc) && (core'.pc.Str? ==> core'.pc.k < |core.stack|) && TagHonest(mem, core')
    requires forall l: nat | Won(core', l) :: Won(core, l)
    ensures CoreSound(mem, core') && NoNewOwner(core, core')
  {
    SameStack(core, core');
  }

  lemma AdvanceKeeps(mem: seq<nat>, core: Core)
    requires !core.pc.Str? && !Stores(core) && CoreSound(mem, core)
    ensures CoreSound(mem, Advance(mem, core)) && NoNewOwner(core, Advance(mem, core))
  {
    hide Single, SetMask, TestZero, NewFlags;
    if core.pc.Bne? && Z(core) {
      ReturnCore(mem, core);
    } else {
      FlagTests(mem, core);
      PlainCore(mem, core, Advance(mem, core));
    }
  }

  /** What the tests of the loop leave in the Z flag. */
  lemma FlagTests(mem: seq<nat>, core: Core)
    requires !core.pc.Str? && !Stores(core) && LockOf(|mem|, core.pc)
    ensures core.pc.Teq? ==> (Z(Advance(mem, core)) <==> core.tmp == 0)
    ensures core.pc.TeqEq? && Z(core) ==> (Z(Advance(mem, core)) <==> core.tmp == 0)
  {
    ZeroTest(core.cpsr, core.tmp);
  }

  lemma ZeroTest(cpsr: bv32, v: nat)
    ensures TestZero(cpsr, v) & Z_BIT != 0 <==> v == 0
  {
  }

  lemma InstructionKeeps(s: State, c: nat)
    requires Sound(s) && Enabled(s, Tick(c))
    ensures Sound(Instruction(s, c))
  {
    hide Sound, CoreSound, NoNewOwner, Stored, Advance, AfterStr, AfterStrex;
    var core := s.cores[c];
    OneCore(s, c);
    if core.pc.Str? {
      StrCore(s.mem, core);
      OneOwner(s, c, Released(core).l);
      StoreKeeps(s, c, Released(core).l, 0, AfterStr(core));
    } else if Stores(core) {
      FreeForStrex(s, c);
      FreeLock(s, core.pc.l);
      StrexCore(s.mem, core);
      StoreKeeps(s, c, core.pc.l, 1, AfterStrex(core));
    } else {
      AdvanceKeeps(s.mem, core);
      PutKeeps(s, c, Advance(s.mem, core));
    }
  }

  lemma FreeForStrex(s: State, c: nat)
    requires Sound(s) && c < |s.cores| && Stores(s.cores[c])
    ensures s.cores[c].pc.l < |s.mem| && s.mem[s.cores[c].pc.l] == 0
  {
    assert CoreSound(s.mem, s.cores[c]);
  }

  lemma OneCore(s: State, c: nat)
    requires Sound(s) && c < |s.cores|
    ensures CoreSound(s.mem, s.cores[c])
  {
  }

  /** Every instruction and every call of every core keeps the invariant. */
  lemma StepKeeps(s: State, a: Action)
    requires Sound(s) && Enabled(s, a)
    ensures Sound(Step(s, a))
  {
    hide Sound, Single;
    OneCore(s, a.c);
    if a.Tick? {
      InstructionKeeps(s, a.c);
    } else {
      var core' := Step(s, a).cores[a.c];
      PlainCore(s.mem, s.cores[a.c], core');
      PutKeeps(s, a.c, core');
    }
  }

  // ---------- Interrupt masks ----------

  predicate Masked(cpsr: bv32) {
    cpsr & I_BIT != 0 && cpsr & F_BIT != 0
  }

  function FlagOf(f: Frame): seq<bv32> {
    if f.flag.Some? then [f.flag.value] else []
  }

  /** The CPSR values kept for the locks held, oldest first. */
  function Flags(stack: seq<Frame>): seq<bv32> {
    if stack == [] then [] else Flags(stack[..|stack| - 1]) + FlagOf(stack[|stack| - 1])
  }

  /** In the body of spin_lock. */
  predicate Locking(pc: Pc) {
    pc.Ldrex? || pc.Teq? || pc.StrexEq? || pc.TeqEq? || pc.Bne?
  }

  /** Saving and masking, before the body of spin_lock. */
  predicate Saving(pc: Pc) {
    pc.Mov? || pc.Orr? || pc.Msr? || pc.Keep?
  }

  /** The CPSR value found by a call under way, wherever the call keeps it at the moment. */
  function UnderWay(core: Core): seq<bv32> {
    match core.pc
    case Mov(_) => [core.r5]
    case Orr(_) => [core.saved]
    case Msr(_) => [core.saved]
    case Keep(_) => [core.saved]
    case Restore(_, flag) => [flag]
    case _ => if Locking(core.pc) && core.pending.Some? then [core.pending.value] else []
  }

  function Kept(core: Core): seq<bv32> {
    Flags(core.stack) + UnderWay(core)
  }

  /** The core holds a lock taken by spin_lock_irqsave, or is in such a call past the mask, or in the unlock
      before the CPSR is written back. */
  predicate Guarded(core: Core) {
    Flags(core.stack) != [] || core.pc.Keep? || core.pc.Restore? || (Locking(core.pc) && core.pending.Some?)
  }

  /** Releasing frame `k` restores nothing, or a masked CPSR, or leaves no other irqsave lock held. */
  predicate Safe(core: Core, k: nat) {
    k < |core.stack| ==>
      var f := core.stack[k].flag;
      f.None? || Masked(f.value) || Flags(Without(core.stack, k)) == []
  }

  ghost predicate LaterMasked(kept: seq<bv32>) {
    forall j | 1 <= j < |kept| :: Masked(kept[j])
  }

  /** Everything kept but the oldest had the interrupts masked. */
  ghost predicate Nested(core: Core) {
    && (core.pc.Orr? ==> core.r5 == core.saved)
    && (core.pc.Msr? ==> core.r5 == SetMask(core.saved))
    && (core.pc.Str? ==> Safe(core, core.pc.k))
    && (Guarded(core) ==> Masked(core.cpsr))
    && LaterMasked(Kept(core))
  }

  lemma PushFlags(stack: seq<Frame>, f: Frame)
    ensures Flags(stack + [f]) == Flags(stack) + FlagOf(f)
  {
    var t := stack + [f];
    assert t[..|t| - 1] == stack && t[|t| - 1] == f;
  }

  lemma NoFlags(stack: seq<Frame>)
    ensures stack == [] ==> Flags(stack) == []
  {
  }

  lemma {:induction false} FlagsConcat(a: seq<Frame>, b: seq<Frame>)
    ensures Flags(a + b) == Flags(a) + Flags(b)
    decreases |b|
  {
    hide FlagOf, Flags;
    if b == [] {
      NoFlags(b);
      assert a + b == a;
    } else {
      var n := |b| - 1;
      FlagsConcat(a, b[..n]);
      PushFlags(b[..n], b[n]);
      PushFlags(a + b[..n], b[n]);
      assert b[..n] + [b[n]] == b && a + b == a + b[..n] + [b[n]];
    }
  }

  lemma CutAt(stack: seq<Frame>, k: nat)
    requires k < |stack|
    ensures stack == stack[..k] + [stack[k]] + stack[k + 1..]
  {
  }

  /** The flags before and after the release of one frame. */
  lemma FlagsWithout(stack: seq<Frame>, k: nat)
    requires k < |stack|
    ensures Flags(stack) == Flags(stack[..k]) + FlagOf(stack[k]) + Flags(stack[k + 1..])
    ensures Flags(Without(stack, k)) == Flags(stack[..k]) + Flags(stack[k + 1..])
  {
    hide Flags, FlagOf;
    var a, b := stack[..k], stack[k + 1..];
    CutAt(stack, k);
    FlagsConcat(a + [stack[k]], b);
    PushFlags(a, stack[k]);
    FlagsConcat(a, b);
  }

  lemma MaskBits(cpsr: bv32, flags: bv32, v: nat)
    ensures Masked(TestZero(cpsr, v)) <==> Masked(cpsr)
    ensures Masked(NewFlags(cpsr, flags)) <==> Masked(cpsr)
  {
  }

  lemma MaskSet(cpsr: bv32)
    ensures Masked(SetMask(cpsr))
  {
  }

  predicate SaveStep(core: Core, core': Core)
    requires Saving(core.pc)
  {
    && core'.stack == core.stack && (Saving(core'.pc) || Locking(core'.pc)) && core'.pc.l == core.pc.l
    && UnderWay(core') == UnderWay(core) && (core'.pc.Orr? ==> core'.r5 == core'.saved)
  }

  lemma SaveSteps(mem: seq<nat>, core: Core)
    requires Saving(core.pc) && !Stores(core) && LockOf(|mem|, core.pc) && (core.pc.Orr? ==> core.r5 == core.saved)
    ensures SaveStep(core, Advance(mem, core))
  {
    hide SetMask, Stores, TestZero, Z;
    match core.pc
    case Mov(_) =>
    case Orr(_) =>
    case Msr(_) =>
    case Keep(_) =>
  }

  lemma MrsNested(mem: seq<nat>, core: Core)
    requires Nested(core) && core.pc.Mrs? && core.pc.l < |mem|
    ensures Nested(Advance(mem, core))
  {
    hide Flags, Masked, TestZero, SetMask, Stores, LaterMasked;
    LastMasked(Flags(core.stack), core.cpsr);
    assert Kept(core) == Flags(core.stack);
  }

  /** The mask is on by the time the old CPSR has been stored. */
  lemma SaveMasks(mem: seq<nat>, core: Core)
    requires Saving(core.pc) && !Stores(core) && LockOf(|mem|, core.pc)
    ensures if core.pc.Msr? then Advance(mem, core).cpsr == core.r5 else Advance(mem, core).cpsr == core.cpsr
    ensures core.pc.Orr? <==> Advance(mem, core).pc.Msr?
    ensures core.pc.Orr? ==> Advance(mem, core).r5 == SetMask(core.r5) && Advance(mem, core).saved == core.saved
    ensures core.pc.Msr? <==> Advance(mem, core).pc.Keep?
    ensures core.pc.Keep? <==> Locking(Advance(mem, core).pc)
  {
    hide SetMask, Stores, Z, TestZero;
    match core.pc
    case Mov(_) =>
    case Orr(_) =>
    case Msr(_) =>
    case Keep(_) =>
  }

  lemma SaveNested(mem: seq<nat>, core: Core)
    requires Nested(core) && Saving(core.pc) && !Stores(core) && core.pc.l < |mem|
    ensures Nested(Advance(mem, core))
  {
    hide Flags, Masked, SetMask, Stores, LaterMasked, UnderWay, Advance;
    MaskSet(core.saved);
    SaveSteps(mem, core);
    SaveMasks(mem, core);
  }

  lemma LastMasked(kept: seq<bv32>, v: bv32)
    requires kept == [] || Masked(v)
    ensures LaterMasked(kept) ==> LaterMasked(kept + [v])
  {
  }

  lemma ReturnNested(mem: seq<nat>, core: Core)
    requires Nested(core) && core.pc.Bne? && Z(core) && core.pc.l < |mem|
    ensures Nested(Advance(mem, core))
  {
    hide Flags, Masked, TestZero, SetMask;
    PushFlags(core.stack, Frame(core.pc.l, core.pending));
  }

  lemma SameNesting(core: Core, core': Core)
    requires Nested(core) && core'.stack == core.stack
    requires UnderWay(core') == UnderWay(core) && (Guarded(core') ==> Guarded(core))
    requires !core'.pc.Orr? && !core'.pc.Msr? && !core'.pc.Str? && (Masked(core'.cpsr) <==> Masked(core.cpsr))
    ensures Nested(core')
  {
  }

  predicate LockStep(core: Core, core': Core)
    requires Locking(core.pc)
  {
    && core'.stack == core.stack && core'.pending == core.pending
    && Locking(core'.pc) && core'.pc.l == core.pc.l
    && (core'.cpsr == core.cpsr || core'.cpsr == TestZero(core.cpsr, core.tmp))
  }

  lemma LockMasks(mem: seq<nat>, core: Core)
    requires Locking(core.pc) && !Stores(core) && core.pc.l < |mem| && !(core.pc.Bne? && Z(core))
    ensures LockStep(core, Advance(mem, core))
  {
    hide Z, TestZero, Stores, SetMask;
    match core.pc
    case Ldrex(_) =>
    case Teq(_) =>
    case StrexEq(_) =>
    case TeqEq(_) =>
    case Bne(_) =>
  }

  lemma LockNested(mem: seq<nat>, core: Core)
    requires Nested(core) && Locking(core.pc) && !Stores(core) && core.pc.l < |mem| && !(core.pc.Bne? && Z(core))
    ensures Nested(Advance(mem, core))
  {
    hide Flags, Masked, TestZero, SetMask, Nested, Stores, Advance, Z;
    MaskBits(core.cpsr, 0, core.tmp);
    LockMasks(mem, core);
    SameNesting(core, Advance(mem, core));
  }

  lemma RestoreNested(mem: seq<nat>, core: Core)
    requires Nested(core) && core.pc.Restore?
    ensures Nested(Advance(mem, core))
  {
    hide Flags, Masked, TestZero, SetMask;
    var n := |Flags(core.stack)|;
    assert Kept(core)[n] == core.pc.flag;
    assert forall j | 0 <= j < n :: Kept(core)[j] == Flags(core.stack)[j];
  }

  /** Moving one entry to the end keeps the later ones masked. */
  lemma MovedToEnd(a: seq<bv32>, f: seq<bv32>, b: seq<bv32>)
    requires LaterMasked(a + f + b) && |f| <= 1 && (f == [] || Masked(f[0]) || a + b == [])
    ensures LaterMasked(a + b + f)
  {
    hide Masked;
    var was := a + f + b;
    forall j | 1 <= j < |a + b + f|
      ensures Masked((a + b + f)[j])
    {
      if j < |a| {
        assert was[j] == (a + b + f)[j];
      } else if j < |a + b| {
        assert was[j + |f|] == (a + b + f)[j];
      }
    }
  }

  lemma AfterStrNested(core: Core)
    requires Nested(core) && Releases(core)
    ensures Nested(AfterStr(core))
  {
    hide Masked, Flags;
    var k := core.pc.k;
    var a, f, b := Flags(core.stack[..k]), FlagOf(core.stack[k]), Flags(core.stack[k + 1..]);
    FlagsWithout(core.stack, k);
    assert Kept(core) == a + f + b;
    MovedToEnd(a, f, b);
    assert Kept(AfterStr(core)) == a + b + f;
  }

  /** The acting core after an action. */
  function Next(mem: seq<nat>, core: Core, a: Action): Core
    requires a.Tick? ==> LockOf(|mem|, core.pc) && (core.pc.Str? ==> Releases(core))
  {
    match a
    case Tick(_) =>
      if core.pc.Str? then AfterStr(core) else if Stores(core) then AfterStrex(core) else Advance(mem, core)
    case CallLock(_, l) => core.(pending := None, pc := Ldrex(l))
    case CallLockIrqSave(_, l) => core.(pc := Mrs(l))
    case CallUnlock(_, k) => core.(pc := Str(k))
    case Compute(_, flags) => core.(cpsr := NewFlags(core.cpsr, flags))
    case LoseMonitor(_) => core.(monitor := None)
  }

  /** An action changes its own core and, in the others, at most the monitor. */
  lemma StepCores(s: State, a: Action)
    requires Enabled(s, a)
    ensures |Step(s, a).cores| == |s.cores| && |Step(s, a).mem| == |s.mem|
    ensures Step(s, a).cores[a.c] == Next(s.mem, s.cores[a.c], a)
    ensures forall d | 0 <= d < |s.cores| && d != a.c ::
      Step(s, a).cores[d] == s.cores[d] || Step(s, a).cores[d] == s.cores[d].(monitor := None)
  {
    hide AfterStr, AfterStrex, Advance;
  }

  /** The action may be one of this core: an instruction that is due, or a call from outside. */
  predicate MayAct(mem: seq<nat>, core: Core, a: Action) {
    if a.Tick? then LockOf(|mem|, core.pc) && core.pc != Out && (core.pc.Str? ==> Releases(core))
    else a.LoseMonitor? || core.pc == Out
  }

  lemma NextNested(mem: seq<nat>, core: Core, a: Action)
    requires Nested(core) && MayAct(mem, core, a) && (a.CallUnlock? ==> Safe(core, a.k))
    ensures Nested(Next(mem, core, a))
  {
    hide Flags, Masked, Advance, AfterStr, NewFlags, Z;
    if a.Tick? {
      if core.pc.Str? {
        AfterStrNested(core);
      } else if Locking(core.pc) {
        if core.pc.Bne? && Z(core) {
          ReturnNested(mem, core);
        } else if !Stores(core) {
          LockNested(mem, core);
        }
      } else if core.pc.Restore? {
        RestoreNested(mem, core);
      } else if core.pc.Mrs? {
        MrsNested(mem, core);
      } else {
        SaveNested(mem, core);
      }
    } else if a.Compute? {
      MaskBits(core.cpsr, a.flags, 0);
    }
  }

  lemma StepNested(s: State, a: Action, d: nat)
    requires Enabled(s, a) && SafeAction(s, a) && d < |s.cores| && Nested(s.cores[d])
    ensures d < |Step(s, a).cores| && Nested(Step(s, a).cores[d])
  {
    hide Flags, Masked, Step, Next;
    StepCores(s, a);
    if a.c == d {
      NextNested(s.mem, s.cores[d], a);
    }
  }

  predicate SafeAction(s: State, a: Action) {
    a.CallUnlock? && a.c < |s.cores| ==> Safe(s.cores[a.c], a.k)
  }

  predicate LastFirst(s: State, a: Action) {
    a.CallUnlock? && a.c < |s.cores| ==> a.k + 1 == |s.cores[a.c].stack|
  }

  /** The lock taken last is always safe to release. */
  lemma LastIsSafe(core: Core)
    requires Nested(core) && core.pc == Out && core.stack != []
    ensures Safe(core, |core.stack| - 1)
  {
    hide Masked;
    var n := |core.stack| - 1;
    FlagsWithout(core.stack, n);
    assert core.stack[n + 1..] == [];
    if FlagOf(core.stack[n]) != [] {
      assert Kept(core)[|Flags(core.stack[..n])|] == FlagOf(core.stack[n])[0];
    }
  }

  /** Exactly when one unlock keeps the interrupts masked for the irqsave locks that are still held. */
  lemma UnlockKeepsMaskIff(mem: seq<nat>, core: Core, k: nat)
    requires core.pc == Out && k < |core.stack| && core.stack[k].flag.Some?
    ensures var left := Advance(mem, AfterStr(core.(pc := Str(k))));
      left.pc == Out && ((Guarded(left) ==> Masked(left.cpsr)) <==> Safe(core, k))
  {
    hide Masked, Flags;
  }

  // ---------- Runs ----------

  predicate AllEnabled(s: State, acts: seq<Action>)
    decreases |acts|
  {
    acts != [] ==> Enabled(s, acts[0]) && AllEnabled(Step(s, acts[0]), acts[1..])
  }

  function Exec(s: State, acts: seq<Action>): State
    requires AllEnabled(s, acts)
    decreases |acts|
  {
    if acts == [] then s else Exec(Step(s, acts[0]), acts[1..])
  }

  /** After spin_lock_init of every lock: all words 0, all cores outside, with any CPSR. */
  predicate Initial(s: State) {
    && (forall l | 0 <= l < |s.mem| :: s.mem[l] == 0)
    && (forall c | 0 <= c < |s.cores| :: s.cores[c].pc == Out && s.cores[c].stack == [])
  }

  ghost predicate AllNested(s: State) {
    forall c: nat | c < |s.cores| :: Nested(s.cores[c])
  }

  lemma InitialIsGood(s: State)
    requires Initial(s)
    ensures Sound(s) && AllNested(s)
  {
    forall c: nat | c < |s.cores|
      ensures CoreSound(s.mem, s.cores[c]) && Nested(s.cores[c])
      ensures forall l: nat :: !Owns(s.cores[c], l)
    {
      assert s.cores[c].pc == Out;
    }
  }

  lemma {:induction false} RunsAreSound(s: State, acts: seq<Action>)
    requires Sound(s) && AllEnabled(s, acts)
    ensures Sound(Exec(s, acts))
    decreases |acts|
  {
    hide Sound, Step;
    if acts != [] {
      StepKeeps(s, acts[0]);
      RunsAreSound(Step(s, acts[0]), acts[1..]);
    }
  }

  /** Mutual exclusion over every run of any number of cores on any number of locks, released in any order. */
  lemma MutualExclusion(s: State, acts: seq<Action>, c: nat, d: nat, l: nat)
    requires Initial(s) && AllEnabled(s, acts)
    requires var t := Exec(s, acts);
      c < |t.cores| && d < |t.cores| && Holds(t.cores[c], l) && Holds(t.cores[d], l)
    ensures c == d && l < |Exec(s, acts).mem| && Exec(s, acts).mem[l] != 0
  {
    InitialIsGood(s);
    RunsAreSound(s, acts);
    ExecCores(s, acts);
    var t := Exec(s, acts);
    assert Owns(t.cores[c], l) && Owns(t.cores[d], l);
  }

  lemma {:induction false} ExecCores(s: State, acts: seq<Action>)
    requires AllEnabled(s, acts)
    ensures |Exec(s, acts).cores| == |s.cores| && |Exec(s, acts).mem| == |s.mem|
    decreases |acts|
  {
    if acts != [] {
      StepCores(s, acts[0]);
      ExecCores(Step(s, acts[0]), acts[1..]);
    }
  }

  /** Every unlock of the run is safe. */
  predicate AllSafe(s: State, acts: seq<Action>)
    requires AllEnabled(s, acts)
    decreases |acts|
  {
    acts != [] ==> SafeAction(s, acts[0]) && AllSafe(Step(s, acts[0]), acts[1..])
  }

  /** Every unlock of the run releases the lock that its core took last. */
  predicate AllLastFirst(s: State, acts: seq<Action>)
    requires AllEnabled(s, acts)
    decreases |acts|
  {
    acts != [] ==> LastFirst(s, acts[0]) && AllLastFirst(Step(s, acts[0]), acts[1..])
  }

  lemma StepAllNested(s: State, a: Action)
    requires AllNested(s) && Enabled(s, a) && SafeAction(s, a)
    ensures AllNested(Step(s, a))
  {
    hide Nested, Step, SafeAction;
    StepCores(s, a);
    forall c: nat | c < |Step(s, a).cores|
      ensures Nested(Step(s, a).cores[c])
    {
      StepNested(s, a, c);
    }
  }

  lemma {:induction false} RunsAreNested(s: State, acts: seq<Action>)
    requires AllNested(s) && AllEnabled(s, acts) && AllSafe(s, acts)
    ensures AllNested(Exec(s, acts))
    decreases |acts|
  {
    hide AllNested, Step;
    if acts != [] {
      StepAllNested(s, acts[0]);
      RunsAreNested(Step(s, acts[0]), acts[1..]);
    }
  }

  /** Releasing in the reverse order of acquisition is always safe. */
  lemma {:induction false} LastFirstIsSafe(s: State, acts: seq<Action>)
    requires AllNested(s) && AllEnabled(s, acts) && AllLastFirst(s, acts)
    ensures AllSafe(s, acts)
    decreases |acts|
  {
    hide Nested, Step, Safe;
    if acts != [] {
      var a := acts[0];
      if a.CallUnlock? {
        LastIsSafe(s.cores[a.c]);
      }
      StepAllNested(s, a);
      LastFirstIsSafe(Step(s, a), acts[1..]);
    }
  }

  /** Between the mask of an irqsave call and the restore of the matching unlock, IRQ and FIQ stay masked on
      that core, over every run of safe unlocks. */
  lemma MaskedWhileGuarded(s: State, acts: seq<Action>, c: nat)
    requires Initial(s) && AllEnabled(s, acts) && AllSafe(s, acts) && c < |s.cores|
    ensures c < |Exec(s, acts).cores|
    ensures Guarded(Exec(s, acts).cores[c]) ==> Masked(Exec(s, acts).cores[c].cpsr)
  {
    InitialIsGood(s);
    RunsAreNested(s, acts);
    ExecCores(s, acts);
    assert Nested(Exec(s, acts).cores[c]);
  }

  // ---------- The CPSR that comes back ----------

  /** Past the read of the CPSR in spin_lock_irqsave, holding the lock, or about to restore. */
  predicate Inside(core: Core, l: nat) {
    || ((Saving(core.pc) || Locking(core.pc) || core.pc.Restore?) && core.pc.l == l)
    || Holds(core, l)
  }

  /** Wherever the core keeps what its irqsave call for `l` found, it is `v`. */
  ghost predicate Carries(core: Core, l: nat, v: bv32) {
    && (forall j | 0 <= j < |core.stack| && core.stack[j].l == l :: core.stack[j].flag == Some(v))
    && (core.pc.Restore? && core.pc.l == l ==> core.pc.flag == v)
    && ((Saving(core.pc) || Locking(core.pc)) && core.pc.l == l && !Holds(core, l) ==> UnderWay(core) == [v])
    && (core.pc.Orr? ==> core.r5 == core.saved)
  }

  lemma AdvanceCarries(mem: seq<nat>, core: Core, l: nat, v: bv32)
    requires CoreSound(mem, core) && !core.pc.Str? && !Stores(core) && LockOf(|mem|, core.pc)
    requires Inside(core, l) && Carries(core, l, v)
    ensures Carries(Advance(mem, core), l, v)
  {
    hide CoreSound, SetMask, TestZero, Stores, Z, Inside, Carries, Advance, LockOf;
    if core.pc.Bne? && Z(core) {
      ReturnCarries(mem, core, l, v);
    } else if Locking(core.pc) {
      LockCarries(mem, core, l, v);
    } else if Saving(core.pc) {
      SaveCarries(mem, core, l, v);
    } else {
      OtherCarries(mem, core, l, v);
    }
  }

  lemma LockCarries(mem: seq<nat>, core: Core, l: nat, v: bv32)
    requires Locking(core.pc) && !(core.pc.Bne? && Z(core)) && !Stores(core) && LockOf(|mem|, core.pc)
    requires Carries(core, l, v)
    ensures Carries(Advance(mem, core), l, v)
  {
    hide TestZero, Stores, Z, Advance;
    LockMasks(mem, core);
    SameStack(core, Advance(mem, core));
  }

  lemma SaveCarries(mem: seq<nat>, core: Core, l: nat, v: bv32)
    requires Saving(core.pc) && !Stores(core) && LockOf(|mem|, core.pc) && Carries(core, l, v)
    ensures Carries(Advance(mem, core), l, v)
  {
    hide Stores, Z, UnderWay, Advance;
    SaveSteps(mem, core);
    SameStack(core, Advance(mem, core));
  }

  lemma OtherCarries(mem: seq<nat>, core: Core, l: nat, v: bv32)
    requires (core.pc.Out? || core.pc.Mrs? || core.pc.Restore?) && LockOf(|mem|, core.pc)
    requires Inside(core, l) && Carries(core, l, v)
    ensures !Stores(core) && Carries(Advance(mem, core), l, v)
  {
    hide Z, UnderWay;
    SameStack(core, Advance(mem, core));
  }

  lemma ReturnCarries(mem: seq<nat>, core: Core, l: nat, v: bv32)
    requires CoreSound(mem, core) && core.pc.Bne? && Z(core) && Inside(core, l) && Carries(core, l, v)
    ensures Carries(Advance(mem, core), l, v)
  {
    hide TagHonest, SetMask, TestZero, Stores;
    assert Won(core, core.pc.l);
    assert core.pc.l == l ==> core.pending == Some(v);
  }

  lemma AfterStrCarries(mem: seq<nat>, core: Core, l: nat, v: bv32)
    requires CoreSound(mem, core) && Releases(core) && Carries(core, l, v)
    ensures Carries(AfterStr(core), l, v)
  {
    hide TagHonest, Single;
    var left := AfterStr(core).stack;
    forall j | 0 <= j < |left| && left[j].l == l
      ensures left[j].flag == Some(v)
    {
      assert left[j] == core.stack[if j < core.pc.k then j else j + 1];
    }
  }

  lemma StrexCarries(core: Core, l: nat, v: bv32)
    requires core.pc.StrexEq? && Carries(core, l, v)
    ensures Carries(AfterStrex(core), l, v)
  {
    SameStack(core, AfterStrex(core));
  }

  /** A call, a computation or the loss of a tag. */
  lemma CallCarries(mem: seq<nat>, core: Core, a: Action, l: nat, v: bv32)
    requires !a.Tick? && MayAct(mem, core, a) && Inside(core, l) && Carries(core, l, v)
    ensures Carries(Next(mem, core, a), l, v)
  {
    hide Advance, AfterStr, AfterStrex, NewFlags, Stores;
    SameStack(core, Next(mem, core, a));
  }

  lemma NextCarries(mem: seq<nat>, core: Core, a: Action, l: nat, v: bv32)
    requires CoreSound(mem, core) && MayAct(mem, core, a) && Inside(core, l) && Carries(core, l, v)
    ensures Carries(Next(mem, core, a), l, v)
  {
    hide CoreSound, Advance, AfterStr, AfterStrex, NewFlags, Z, Carries, Inside;
    if !a.Tick? {
      CallCarries(mem, core, a, l, v);
    } else if core.pc.Str? {
      AfterStrCarries(mem, core, l, v);
    } else if Stores(core) {
      StrexCarries(core, l, v);
    } else {
      AdvanceCarries(mem, core, l, v);
    }
  }

  lemma StepCarries(s: State, a: Action, c: nat, l: nat, v: bv32)
    requires Sound(s) && Enabled(s, a) && c < |s.cores| && Inside(s.cores[c], l) && Carries(s.cores[c], l, v)
    ensures c < |Step(s, a).cores| && Carries(Step(s, a).cores[c], l, v)
  {
    hide CoreSound, Step, Next, LockOf;
    OneCore(s, c);
    StepCores(s, a);
    if a.c == c {
      NextCarries(s.mem, s.cores[c], a, l, v);
    } else {
      SameStack(s.cores[c], Step(s, a).cores[c]);
    }
  }

  /** Core `c` is inside its call for `l` after every action. */
  predicate StaysInside(s: State, acts: seq<Action>, c: nat, l: nat)
    requires AllEnabled(s, acts)
    decreases |acts|
  {
    && c < |s.cores| && Inside(s.cores[c], l)
    && (acts != [] ==> StaysInside(Step(s, acts[0]), acts[1..], c, l))
  }

  lemma {:induction false} RunCarries(s: State, acts: seq<Action>, c: nat, l: nat, v: bv32)
    requires Sound(s) && AllEnabled(s, acts) && StaysInside(s, acts, c, l) && Carries(s.cores[c], l, v)
    ensures var t := Exec(s, acts); Sound(t) && c < |t.cores| && Carries(t.cores[c], l, v)
    decreases |acts|
  {
    hide Sound, Step, Carries, Inside;
    if acts != [] {
      StepCarries(s, acts[0], c, l, v);
      StepKeeps(s, acts[0]);
      RunCarries(Step(s, acts[0]), acts[1..], c, l, v);
    }
  }

  /** Whatever happens between an irqsave call and the unlock of its lock, inner and overlapping calls on this
      core and any activity of the others included, the restore brings back the CPSR that the call found. */
  lemma RestoreBringsBack(s: State, c: nat, l: nat, acts: seq<Action>)
    requires Sound(s) && Enabled(s, Tick(c)) && s.cores[c].pc == Mrs(l) && !Holds(s.cores[c], l)
    requires var s1 := Step(s, Tick(c)); AllEnabled(s1, acts) && StaysInside(s1, acts, c, l)
    requires var t := Exec(Step(s, Tick(c)), acts);
      c < |t.cores| && t.cores[c].pc.Restore? && t.cores[c].pc.l == l
    ensures var t := Exec(Step(s, Tick(c)), acts);
      Enabled(t, Tick(c)) && Step(t, Tick(c)).cores[c] == t.cores[c].(cpsr := s.cores[c].cpsr, pc := Out)
  {
    hide Sound;
    var s1 := Step(s, Tick(c));
    SameStack(s.cores[c], s1.cores[c]);
    StepKeeps(s, Tick(c));
    RunCarries(s1, acts, c, l, s.cores[c].cpsr);
  }

  lemma OneStep(s: State, a: Action, rest: seq<Action>)
    requires Enabled(s, a) && AllEnabled(Step(s, a), rest)
    ensures AllEnabled(s, [a] + rest) && Exec(s, [a] + rest) == Exec(Step(s, a), rest)
  {
    assert ([a] + rest)[1..] == rest;
  }

  /** `n` instructions of core `c` alone. */
  function Alone(c: nat, n: nat): seq<Action> {
    if n == 0 then [] else [Tick(c)] + Alone(c, n - 1)
  }

  /** An instruction that stores nothing. */
  lemma PlainTick(s: State, c: nat)
    requires c < |s.cores| && !s.cores[c].pc.Str? && s.cores[c].pc != Out && !Stores(s.cores[c])
    requires LockOf(|s.mem|, s.cores[c].pc)
    ensures Enabled(s, Tick(c)) && Step(s, Tick(c)) == Put(s, c, Advance(s.mem, s.cores[c]))
  {
  }

  lemma StrexTick(s: State, c: nat)
    requires c < |s.cores| && Stores(s.cores[c]) && s.cores[c].pc.l < |s.mem|
    ensures Enabled(s, Tick(c))
    ensures var t := Step(s, Tick(c));
      t.mem == s.mem[s.cores[c].pc.l := 1] && |t.cores| == |s.cores| && t.cores[c] == AfterStrex(s.cores[c])
  {
  }

  lemma TestedZero(cpsr: bv32)
    ensures TestZero(cpsr, 0) & Z_BIT != 0
  {
  }

  /** The core after it has taken lock `l` at the first attempt. */
  function Taken(core: Core, l: nat): Core {
    core.(pc := Out, tmp := 0, monitor := None, pending := None, stack := core.stack + [Frame(l, core.pending)],
          cpsr := TestZero(TestZero(core.cpsr, 0), 0))
  }

  /** Load and test: the lock word is 0. */
  lemma FirstTwo(mem: seq<nat>, core: Core, l: nat)
    requires core.pc == Ldrex(l) && l < |mem| && mem[l] == 0
    ensures !Stores(core)
    ensures var core1 := Advance(mem, core);
      core1.pc == Teq(l) && !Stores(core1)
      && var core2 := Advance(mem, core1);
      Stores(core2) && core2.pc == StrexEq(l)
      && AfterStrex(core2) == core.(pc := TeqEq(l), tmp := 0, monitor := None, cpsr := TestZero(core.cpsr, 0))
  {
    hide TestZero;
    TestedZero(core.cpsr);
  }

  /** Test of the store's outcome, and return. */
  lemma LastTwo(mem: seq<nat>, core: Core, l: nat)
    requires core.pc == TeqEq(l) && l < |mem| && core.tmp == 0 && Z(core)
    ensures !Stores(core)
    ensures var core1 := Advance(mem, core);
      core1.pc == Bne(l) && !Stores(core1)
      && Advance(mem, core1) == core.(pc := Out, pending := None, stack := core.stack + [Frame(l, core.pending)],
                                      cpsr := TestZero(core.cpsr, 0))
  {
    hide TestZero;
    TestedZero(core.cpsr);
  }

  /** Without contention the loop is left at once: five instructions take a free lock, and change no other word
      of memory. */
  lemma AloneTakesLock(s: State, c: nat, l: nat)
    requires c < |s.cores| && l < |s.mem| && s.cores[c].pc == Ldrex(l) && s.mem[l] == 0
    ensures AllEnabled(s, Alone(c, 5)) && |Exec(s, Alone(c, 5)).cores| == |s.cores|
    ensures var t := Exec(s, Alone(c, 5)); t.mem == s.mem[l := 1] && t.cores[c] == Taken(s.cores[c], l)
    ensures Holds(Exec(s, Alone(c, 5)).cores[c], l)
  {
    hide Step, Enabled, Holds, Advance, Stores, TestZero, AfterStrex, AllEnabled, Exec, Alone;
    var a := Tick(c);
    FirstTwo(s.mem, s.cores[c], l);
    PlainTick(s, c);
    var s1 := Step(s, a);
    PlainTick(s1, c);
    var s2 := Step(s1, a);
    StrexTick(s2, c);
    var s3 := Step(s2, a);
    TestedZero(s.cores[c].cpsr);
    LastTwo(s3.mem, s3.cores[c], l);
    PlainTick(s3, c);
    var s4 := Step(s3, a);
    PlainTick(s4, c);
    HoldsLast(s.cores[c].stack, Frame(l, s.cores[c].pending), Taken(s.cores[c], l));
    NoneLeft(Step(s4, a), c);
    AloneStep(s4, c, 0);
    AloneStep(s3, c, 1);
    AloneStep(s2, c, 2);
    AloneStep(s1, c, 3);
    AloneStep(s, c, 4);
  }

  lemma NoneLeft(s: State, c: nat)
    ensures AllEnabled(s, Alone(c, 0)) && Exec(s, Alone(c, 0)) == s
  {
  }

  lemma AloneStep(s: State, c: nat, n: nat)
    requires Enabled(s, Tick(c)) && AllEnabled(Step(s, Tick(c)), Alone(c, n))
    ensures AllEnabled(s, Alone(c, n + 1)) && Exec(s, Alone(c, n + 1)) == Exec(Step(s, Tick(c)), Alone(c, n))
  {
    hide Step, Enabled;
    OneStep(s, Tick(c), Alone(c, n));
  }

  lemma HoldsLast(stack: seq<Frame>, f: Frame, core: Core)
    requires core.stack == stack + [f]
    ensures Holds(core, f.l)
  {
    assert core.stack[|stack|] == f;
  }
}
