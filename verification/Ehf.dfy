/** A bitmap read as a stack of levels, highest priority (lowest bit) on top. */
module PriorityBitmap {
  import opened Bits

  /** `__builtin_ctz`. */
  function Ctz(n: nat): (k: nat)
    requires n > 0
    ensures Pow2(k) <= n
  {
    if n % 2 == 1 then 0 else 1 + Ctz(n / 2)
  }

  /** The set bits from `k` upwards, in ascending order. */
  ghost function LevelsFrom(n: nat, k: nat): (s: seq<nat>)
    ensures forall i :: 0 <= i < |s| ==> s[i] >= k
    ensures forall i, j :: 0 <= i < j < |s| ==> s[i] < s[j]
  {
    if n == 0 then []
    else
      var rest := LevelsFrom(n / 2, k + 1);
      if n % 2 == 1 then [k] + rest else rest
  }

  ghost function Levels(n: nat): (s: seq<nat>)
    ensures forall i, j :: 0 <= i < j < |s| ==> s[i] < s[j]
  {
    LevelsFrom(n, 0)
  }

  /** The lowest set bit is the top of the stack. */
  lemma {:induction false} TopIsLowestBit(n: nat, k: nat)
    requires n > 0
    ensures LevelsFrom(n, k) != [] && LevelsFrom(n, k)[0] == k + Ctz(n)
  {
    if n % 2 == 0 { TopIsLowestBit(n / 2, k + 1); }
  }

  /** Setting a bit below the lowest one pushes it. */
  lemma {:induction false} SetBitPushes(n: nat, idx: nat, k: nat)
    requires n > 0 ==> idx < Ctz(n)
    ensures LevelsFrom(Or(n, Pow2(idx)), k) == [k + idx] + LevelsFrom(n, k)
  {
    if n == 0 {
      SingleBit(idx, k);
    } else if idx == 0 {
      SetLowest(n, k);
    } else {
      SetBitPushes(n / 2, idx - 1, k + 1);
      OrEven(n, Pow2(idx - 1));
    }
  }

  lemma SetLowest(n: nat, k: nat)
    requires n > 0 && n % 2 == 0
    ensures LevelsFrom(Or(n, Pow2(0)), k) == [k] + LevelsFrom(n, k)
  {
    OrDigits(n, 1);
    assert Or(n / 2, 0) == n / 2;
  }

  lemma OrEven(n: nat, bit: nat)
    requires n % 2 == 0
    ensures Or(n, 2 * bit) == 2 * Or(n / 2, bit)
  {
    OrDigits(n, 2 * bit);
  }

  lemma {:induction false} SingleBit(idx: nat, k: nat)
    ensures LevelsFrom(Pow2(idx), k) == [k + idx]
  {
    if idx > 0 { SingleBit(idx - 1, k + 1); } else { assert LevelsFrom(0, k + 1) == []; }
  }

  /** `n & (n - 1)` pops the lowest bit. */
  lemma {:induction false} ClearLowestPops(n: nat, k: nat)
    requires n > 0
    ensures LevelsFrom(n, k) != [] && LevelsFrom(And(n, n - 1), k) == LevelsFrom(n, k)[1..]
  {
    if n % 2 == 1 {
      assert (n - 1) / 2 == n / 2;
      AndSelf(n / 2);
      assert And(n, n - 1) == 2 * (n / 2);
    } else {
      ClearLowestPops(n / 2, k + 1);
      assert (n - 1) / 2 == n / 2 - 1;
      assert And(n, n - 1) == 2 * And(n / 2, n / 2 - 1);
    }
  }

  lemma {:induction false} EmptyIffZero(n: nat, k: nat)
    ensures LevelsFrom(n, k) == [] <==> n == 0
  {
    if n > 0 { TopIsLowestBit(n, k); }
  }
}

/** EL3 exception priorities (`bl31/ehf.c`) of one processing element. */
module Ehf {
  import opened Words
  import opened Bits
  import opened PriorityBitmap

  lemma Quotient(x: nat, y: nat)
    requires y > 0
    ensures x / y >= 0
  {
  }

  const GIC_HIGHEST_NS_PRIORITY: nat := 0x80

  /** `ehf_priorities_t`: how many top bits of the priority count, and which levels
      the platform registered. */
  datatype Config = Config(priBits: nat, numPriorities: nat, registered: set<nat>)
  {
    ghost predicate Valid() {
      1 <= priBits <= 7 && numPriorities <= 32
    }

    /** `EHF_PRI_TO_IDX`. */
    function Index(pri: nat): (idx: nat)
      requires priBits <= 7
    {
      Quotient(pri % 0x80, Pow2(7 - priBits));
      pri % 0x80 / Pow2(7 - priBits)
    }

    /** A secure priority with no bits below those that count. */
    predicate Canonical(pri: nat)
      requires priBits <= 7
    {
      pri < 0x80 && pri == Index(pri) * Pow2(7 - priBits)
    }
  }

  /** `pe_exc_data_t` with the priority mask of the interrupt controller. */
  datatype State = State(active: nat, initMask: nat, nsMask: nat, hwMask: nat)

  /** An operation with the running priority that the interrupt controller reports. */
  datatype Op =
    | Activate(pri: nat, running: nat)
    | Deactivate(pri: nat, running: nat)
    | ExitedNormalWorld(running: nat)
    | EnteringNormalWorld(running: nat)
    | AllowNsPreemption

  /** The statements that stop the machine. */
  datatype Site =
    | RunningPriority     // ehf.c:114, 181
    | UnknownPriority     // ehf.c:59-60
    | ActivationOrder     // ehf.c:128
    | ActivationMask      // ehf.c:143
    | DeactivationOrder   // ehf.c:195
    | DeactivationMask    // ehf.c:224
    | StashTaken          // ehf.c:255
    | StashSecure         // ehf.c:264
    | RestoredMask        // ehf.c:315
    | PreemptionStash     // ehf.c:346
    | PreemptionActive    // ehf.c:352

  datatype Outcome = Done(next: State) | Halted(site: Site)

  predicate IsSecure(pri: nat) {
    pri % 0x100 < 0x80
  }

  function ActivateStep(c: Config, s: State, pri: nat, running: nat): Outcome
    requires c.Valid()
  {
    var idx := c.Index(pri);
    if pri >= running then Halted(RunningPriority)
    else if idx >= c.numPriorities || idx !in c.registered then Halted(UnknownPriority)
    else if s.active != 0 && idx >= Ctz(s.active) then Halted(ActivationOrder)
    else if pri >= s.hwMask then Halted(ActivationMask)
    else Done(s.(active := Or(s.active, Pow2(idx)), hwMask := pri,
                 initMask := if s.active == 0 then s.hwMask % 0x100 else s.initMask))
  }

  function DeactivateStep(c: Config, s: State, pri: nat, running: nat): Outcome
    requires c.Valid()
  {
    var idx := c.Index(pri);
    if pri >= running then Halted(RunningPriority)
    else if idx >= c.numPriorities || idx !in c.registered then Halted(UnknownPriority)
    else if s.active == 0 || idx != Ctz(s.active) then Halted(DeactivationOrder)
    else
      var active := And(s.active, s.active - 1);
      if s.hwMask > pri then Halted(DeactivationMask)
      else Done(s.(active := active, hwMask := if active == 0 then s.initMask else pri))
  }

  function ExitedStep(s: State, running: nat): Outcome {
    if IsSecure(running) || s.active != 0 then Done(s)
    else if s.nsMask != 0 then Halted(StashTaken)
    else if IsSecure(s.hwMask) then Halted(StashSecure)
    else Done(s.(nsMask := s.hwMask % 0x100, hwMask := GIC_HIGHEST_NS_PRIORITY))
  }

  function EnteringStep(s: State, running: nat): Outcome {
    if IsSecure(running) || s.active != 0 || s.nsMask == 0 then Done(s)
    else if s.hwMask != GIC_HIGHEST_NS_PRIORITY && s.hwMask != s.nsMask then Halted(RestoredMask)
    else Done(s.(hwMask := s.nsMask, nsMask := 0))
  }

  function AllowStep(s: State): Outcome {
    if s.nsMask == 0 then Halted(PreemptionStash)
    else if s.active != 0 then Halted(PreemptionActive)
    else Done(s.(hwMask := s.nsMask, nsMask := 0))
  }

  function Step(c: Config, s: State, op: Op): Outcome
    requires c.Valid()
  {
    match op
    case Activate(pri, running) => ActivateStep(c, s, pri, running)
    case Deactivate(pri, running) => DeactivateStep(c, s, pri, running)
    case ExitedNormalWorld(running) => ExitedStep(s, running)
    case EnteringNormalWorld(running) => EnteringStep(s, running)
    case AllowNsPreemption => AllowStep(s)
  }

  function Run(c: Config, s: State, ops: seq<Op>): Outcome
    requires c.Valid()
    decreases |ops|
  {
    if ops == [] then Done(s)
    else
      var last := |ops| - 1;
      match Run(c, s, ops[..last])
      case Halted(site) => Halted(site)
      case Done(next) => Step(c, next, ops[last])
  }

  /** `ehf_is_ns_preemption_allowed`. */
  predicate NsPreemptionAllowed(s: State, running: nat) {
    !IsSecure(running) && s.active == 0 && s.nsMask == 0
  }

  // ---- The normal world's mask ----------------------------------------------

  /** The mask that the normal world programmed, wherever it is kept. */
  function NsMask(s: State): nat {
    if s.nsMask != 0 then s.nsMask
    else if s.active != 0 then s.initMask
    else s.hwMask
  }

  /** The interrupt controller reports running priorities as bytes. */
  predicate ByteOps(ops: seq<Op>) {
    forall k :: 0 <= k < |ops| ==> ByteOp(ops[k])
  }

  predicate ByteOp(op: Op) {
    op.AllowNsPreemption? || op.running < 0x100
  }

  predicate Bytes(s: State) {
    s.initMask < 0x100 && s.nsMask < 0x100 && s.hwMask < 0x100
  }

  /** Every operation that does not stop the machine conserves it, over any run. */
  lemma {:induction false} RunConservesNsMask(c: Config, s: State, ops: seq<Op>)
    requires c.Valid() && Bytes(s) && ByteOps(ops) && Run(c, s, ops).Done?
    ensures Bytes(Run(c, s, ops).next) && NsMask(Run(c, s, ops).next) == NsMask(s)
    decreases |ops|
  {
    if ops != [] {
      var last := |ops| - 1;
      RunConservesNsMask(c, s, ops[..last]);
      StepConservesNsMask(c, Run(c, s, ops[..last]).next, ops[last]);
    }
  }

  lemma StepConservesNsMask(c: Config, s: State, op: Op)
    requires c.Valid() && Bytes(s) && ByteOp(op) && Step(c, s, op).Done?
    ensures Bytes(Step(c, s, op).next) && NsMask(Step(c, s, op).next) == NsMask(s)
  {
    if op.Activate? {
      assert Or(s.active, Pow2(c.Index(op.pri))) > 0;
    }
  }

  /** Whatever happened in between, the normal world gets its own mask back as soon
      as it is entered with no level active and no secure interrupt in service. */
  lemma NormalWorldGetsItsMaskBack(c: Config, s: State, ops: seq<Op>, running: nat)
    requires c.Valid() && Bytes(s) && ByteOps(ops)
    requires running < 0x100 && !IsSecure(running)
    requires Run(c, s, ops + [EnteringNormalWorld(running)]).Done?
    requires Run(c, s, ops + [EnteringNormalWorld(running)]).next.active == 0
    ensures Run(c, s, ops + [EnteringNormalWorld(running)]).next.hwMask == NsMask(s)
  {
    var all := ops + [EnteringNormalWorld(running)];
    assert all[..|ops|] == ops;
    RunConservesNsMask(c, s, all);
  }

  /** Whatever happened before, preemption is reported as allowed only while the normal
      world's own mask is programmed. */
  lemma AllowedMeansOwnMask(c: Config, s: State, ops: seq<Op>, running: nat)
    requires c.Valid() && Bytes(s) && ByteOps(ops) && Run(c, s, ops).Done?
    requires NsPreemptionAllowed(Run(c, s, ops).next, running)
    ensures Run(c, s, ops).next.hwMask == NsMask(s)
  {
    RunConservesNsMask(c, s, ops);
  }

  /** The last operation of a run, and the state it starts from. */
  lemma LastStep(c: Config, s: State, ops: seq<Op>, op: Op)
    requires c.Valid() && Run(c, s, ops + [op]).Done?
    ensures Run(c, s, ops).Done? && Step(c, Run(c, s, ops).next, op) == Run(c, s, ops + [op])
  {
    RunOn(c, s, ops, op);
  }

  /** Leaving the normal world masks its interrupts and keeps its mask: whatever happened
      before, with nothing active the mask programmed is then 0x80, the one kept is the
      normal world's own, and preemption is not reported as allowed. */
  lemma ExitMasksNormalWorld(c: Config, s: State, ops: seq<Op>, running: nat, asked: nat)
    requires c.Valid() && Bytes(s) && ByteOps(ops) && running < 0x100 && running / 0x80 == 1
    requires Run(c, s, ops + [ExitedNormalWorld(running)]).Done?
    requires Run(c, s, ops + [ExitedNormalWorld(running)]).next.active == 0
    ensures
      var s' := Run(c, s, ops + [ExitedNormalWorld(running)]).next;
      s'.hwMask == 0x80 && s'.nsMask == NsMask(s) && !NsPreemptionAllowed(s', asked)
  {
    LastStep(c, s, ops, ExitedNormalWorld(running));
    RunConservesNsMask(c, s, ops);
  }

  /** Allowing preemption programs the normal world's own mask, and is then reported. */
  lemma AllowingRestoresMask(c: Config, s: State, ops: seq<Op>, asked: nat)
    requires c.Valid() && Bytes(s) && ByteOps(ops) && asked < 0x100 && asked / 0x80 == 1
    requires Run(c, s, ops + [AllowNsPreemption]).Done?
    ensures
      var s' := Run(c, s, ops + [AllowNsPreemption]).next;
      s'.hwMask == NsMask(s) && s'.nsMask == 0 && NsPreemptionAllowed(s', asked)
  {
    LastStep(c, s, ops, AllowNsPreemption);
    RunConservesNsMask(c, s, ops);
  }

  /** While the normal world's mask is kept aside, its interrupts are masked: by the mask
      programmed or, while a level is active, by the one that comes back after it. */
  ghost predicate MaskedWhileKept(s: State) {
    s.nsMask != 0 ==> (if s.active == 0 then s.hwMask else s.initMask) == 0x80
  }

  lemma StepKeepsMasked(c: Config, s: State, op: Op)
    requires c.Valid() && MaskedWhileKept(s)
    ensures Step(c, s, op).Done? ==> MaskedWhileKept(Step(c, s, op).next)
    ensures Step(c, s, op) != Halted(RestoredMask)
  {
    if op.Activate? { assert Or(s.active, Pow2(c.Index(op.pri))) > 0; }
  }

  /** So it is in every run that starts with no mask kept aside, and the panic on entering
      the normal world with some other mask is unreachable. */
  lemma {:induction false} RunKeepsMasked(c: Config, s: State, ops: seq<Op>)
    requires c.Valid() && s.nsMask == 0
    ensures Run(c, s, ops).Done? ==> MaskedWhileKept(Run(c, s, ops).next)
    ensures Run(c, s, ops) != Halted(RestoredMask)
    decreases |ops|
  {
    if ops != [] {
      var last := |ops| - 1;
      RunKeepsMasked(c, s, ops[..last]);
      match Run(c, s, ops[..last])
      case Halted(_) =>
      case Done(next) => StepKeepsMasked(c, next, ops[last]);
    }
  }

  /** The index and the security of a priority are what the masks and the shift compute. */
  lemma PriorityBits(c: Config, pri: nat)
    requires c.Valid()
    ensures c.Index(pri) == And(pri, 0x7f) / Pow2(7 - c.priBits)
    ensures pri < 0x100 ==> (IsSecure(pri) <==> And(pri, 0x80) == 0)
  {
    assert And(pri, 0x7f) == pri % 0x80 by { LowSeven(pri, 7); }
    if pri < 0x100 { TopBitClear(pri, 7); }
  }

  lemma LowSeven(pri: nat, k: nat)
    requires k == 7
    ensures And(pri, 0x7f) == pri % 0x80
  {
    SevenBits();
    AndMask(pri, k);
  }

  lemma TopBitClear(pri: nat, k: nat)
    requires pri < 0x100 && k == 7
    ensures And(pri, 0x80) == 0 <==> pri < 0x80
  {
    SevenBits();
    AndTopBit(pri, k);
  }

  lemma SevenBits()
    ensures Pow2(7) == 0x80
  {
    assert Pow2(3) == 8;
  }

  // ---- The stack of active levels ---------------------------------------------

  ghost function Stack(s: State): seq<nat> {
    Levels(s.active)
  }

  /** An activation pushes its level on top of all others, a deactivation pops the
      top, and no other operation touches the stack. */
  lemma StepIsStackOperation(c: Config, s: State, op: Op)
    requires c.Valid() && Step(c, s, op).Done?
    ensures
      var s' := Step(c, s, op).next;
      match op
      case Activate(pri, _) =>
        && Stack(s') == [c.Index(pri)] + Stack(s)
        && (Stack(s) != [] ==> c.Index(pri) < Stack(s)[0])
      case Deactivate(pri, _) =>
        && Stack(s) == [c.Index(pri)] + Stack(s')
      case _ => Stack(s') == Stack(s)
  {
    match op
    case Activate(pri, _) => ActivationPushes(s.active, c.Index(pri));
    case Deactivate(_, _) => DeactivationPops(s.active);
    case _ =>
  }

  lemma ActivationPushes(active: nat, idx: nat)
    requires active > 0 ==> idx < Ctz(active)
    ensures Levels(Or(active, Pow2(idx))) == [idx] + Levels(active)
    ensures Levels(active) != [] ==> idx < Levels(active)[0]
  {
    SetBitPushes(active, idx, 0);
    EmptyIffZero(active, 0);
    if active > 0 { TopIsLowestBit(active, 0); }
  }

  lemma DeactivationPops(active: nat)
    requires active > 0
    ensures Levels(active) == [Ctz(active)] + Levels(And(active, active - 1))
  {
    TopIsLowestBit(active, 0);
    ClearLowestPops(active, 0);
  }

  /** The levels a run leaves active are those of the stack machine. */
  ghost function StackAfter(c: Config, stack: seq<nat>, ops: seq<Op>): seq<nat>
    requires c.Valid()
    decreases |ops|
  {
    if ops == [] then stack
    else
      var last := |ops| - 1;
      var below := StackAfter(c, stack, ops[..last]);
      match ops[last]
      case Activate(pri, _) => [c.Index(pri)] + below
      case Deactivate(_, _) => if below == [] then [] else below[1..]
      case _ => below
  }

  lemma {:induction false} RunRefinesStack(c: Config, s: State, ops: seq<Op>)
    requires c.Valid() && Run(c, s, ops).Done?
    ensures Stack(Run(c, s, ops).next) == StackAfter(c, Stack(s), ops)
    decreases |ops|
  {
    if ops != [] {
      var last := |ops| - 1;
      RunRefinesStack(c, s, ops[..last]);
      StepIsStackOperation(c, Run(c, s, ops[..last]).next, ops[last]);
    }
  }

  // ---- The mask and the stack -------------------------------------------------

  /** Every activation and deactivation names a canonical priority. */
  ghost predicate CanonicalOps(c: Config, ops: seq<Op>)
    requires c.Valid()
  {
    forall k :: 0 <= k < |ops| && (ops[k].Activate? || ops[k].Deactivate?) ==> c.Canonical(ops[k].pri)
  }

  /** The hardware mask is at or above (numerically: not over) the top active level. */
  ghost predicate MaskBelowTop(c: Config, s: State)
    requires c.Valid()
  {
    s.active != 0 ==> s.hwMask <= Ctz(s.active) * Pow2(7 - c.priBits)
  }

  /** The level below the top is numerically greater, and so is its priority. */
  lemma NextTopGreater(active: nat, unit: nat)
    requires active > 0 && And(active, active - 1) > 0
    ensures Ctz(active) < Ctz(And(active, active - 1))
    ensures Ctz(active) * unit <= Ctz(And(active, active - 1)) * unit
  {
    var rest := And(active, active - 1);
    ClearLowestPops(active, 0);
    TopIsLowestBit(active, 0);
    TopIsLowestBit(rest, 0);
    var all := LevelsFrom(active, 0);
    assert all[0] < all[1] == LevelsFrom(rest, 0)[0];
    MulGrows(unit, Ctz(active), Ctz(rest));
  }

  /** The level just activated is the top. */
  lemma NewTop(active: nat, idx: nat)
    requires active > 0 ==> idx < Ctz(active)
    ensures Or(active, Pow2(idx)) > 0 && Ctz(Or(active, Pow2(idx))) == idx
  {
    SetBitPushes(active, idx, 0);
    EmptyIffZero(Or(active, Pow2(idx)), 0);
    TopIsLowestBit(Or(active, Pow2(idx)), 0);
  }

  lemma StepKeepsMaskBelowTop(c: Config, s: State, op: Op)
    requires c.Valid() && MaskBelowTop(c, s)
    requires op.Activate? || op.Deactivate? ==> c.Canonical(op.pri)
    ensures Step(c, s, op) != Halted(DeactivationMask)
    ensures Step(c, s, op).Done? ==> MaskBelowTop(c, Step(c, s, op).next)
  {
    var unit := Pow2(7 - c.priBits);
    if op.Activate? && Step(c, s, op).Done? {
      NewTop(s.active, c.Index(op.pri));
    } else if op.Deactivate? && Step(c, s, op).Done? && And(s.active, s.active - 1) > 0 {
      NextTopGreater(s.active, unit);
    }
  }

  /** With canonical priorities the mask panic of a deactivation is unreachable, in every run. */
  lemma {:induction false} RunNeverHaltsOnDeactivationMask(c: Config, s: State, ops: seq<Op>)
    requires c.Valid() && MaskBelowTop(c, s) && CanonicalOps(c, ops)
    ensures Run(c, s, ops) != Halted(DeactivationMask)
    ensures Run(c, s, ops).Done? ==> MaskBelowTop(c, Run(c, s, ops).next)
    decreases |ops|
  {
    if ops != [] {
      var last := |ops| - 1;
      RunNeverHaltsOnDeactivationMask(c, s, ops[..last]);
      match Run(c, s, ops[..last])
      case Halted(_) =>
      case Done(next) => StepKeepsMaskBelowTop(c, next, ops[last]);
    }
  }

  // ---- Exactly when that panic is reached ---------------------------------------

  /** The last operation that set the mask for a level. */
  function LastLevelOp(ops: seq<Op>): (r: Option<Op>)
    ensures r.Some? ==> r.value.Activate? || r.value.Deactivate?
    decreases |ops|
  {
    if ops == [] then None
    else
      var last := ops[|ops| - 1];
      if last.Activate? || last.Deactivate? then Some(last) else LastLevelOp(ops[..|ops| - 1])
  }

  predicate Registered(c: Config, pri: nat)
    requires c.Valid()
  {
    c.Index(pri) < c.numPriorities && c.Index(pri) in c.registered
  }

  /** What the last level operation of a run says about the top level and the mask. */
  ghost predicate Governs(c: Config, s: State, op: Option<Op>)
    requires c.Valid() && (op.Some? ==> op.value.Activate? || op.value.Deactivate?)
  {
    match op
    case None => s.active == 0
    case Some(Activate(pri, _)) =>
      s.active != 0 && Ctz(s.active) == c.Index(pri) && s.hwMask == pri && Registered(c, pri)
    case Some(Deactivate(pri, _)) =>
      s.active != 0 ==> c.Index(pri) < Ctz(s.active) && s.hwMask == pri
  }

  lemma StepGoverns(c: Config, s: State, before: Option<Op>, op: Op)
    requires c.Valid() && (before.Some? ==> before.value.Activate? || before.value.Deactivate?)
    requires Governs(c, s, before) && Step(c, s, op).Done?
    ensures Governs(c, Step(c, s, op).next, if op.Activate? || op.Deactivate? then Some(op) else before)
  {
    if op.Activate? {
      NewTop(s.active, c.Index(op.pri));
    } else if op.Deactivate? && And(s.active, s.active - 1) > 0 {
      NextTopGreater(s.active, 1);
    }
  }

  lemma {:induction false} RunGoverns(c: Config, s: State, ops: seq<Op>)
    requires c.Valid() && s.active == 0 && Run(c, s, ops).Done?
    ensures Governs(c, Run(c, s, ops).next, LastLevelOp(ops))
    decreases |ops|
  {
    if ops != [] {
      var last := |ops| - 1;
      RunGoverns(c, s, ops[..last]);
      StepGoverns(c, Run(c, s, ops[..last]).next, LastLevelOp(ops[..last]), ops[last]);
    }
  }

  /** The level is on top of those that the operations leave active. */
  ghost predicate OnTop(c: Config, ops: seq<Op>, idx: nat)
    requires c.Valid()
  {
    StackAfter(c, [], ops) != [] && StackAfter(c, [], ops)[0] == idx
  }

  lemma TopAfterRun(c: Config, s: State, ops: seq<Op>)
    requires c.Valid() && s.active == 0 && Run(c, s, ops).Done?
    ensures
      var active := Run(c, s, ops).next.active;
      && (active != 0 <==> StackAfter(c, [], ops) != [])
      && (active != 0 ==> StackAfter(c, [], ops)[0] == Ctz(active))
  {
    var active := Run(c, s, ops).next.active;
    assert Stack(s) == [];
    RunRefinesStack(c, s, ops);
    EmptyIffZero(active, 0);
    if active != 0 { TopIsLowestBit(active, 0); }
  }

  /** A registered level on top is left under a smaller value than that of the last
      activation or deactivation. */
  ghost predicate MaskDrop(c: Config, before: seq<Op>, op: Op)
    requires c.Valid()
  {
    && op.Deactivate? && op.pri < op.running && Registered(c, op.pri) && OnTop(c, before, c.Index(op.pri))
    && LastLevelOp(before).Some? && LastLevelOp(before).value.pri > op.pri
  }

  /** After any run from a state with nothing active, that is exactly when a deactivation
      ends in the mask panic. */
  lemma DeactivationMaskIff(c: Config, s: State, ops: seq<Op>, op: Op)
    requires c.Valid() && s.active == 0 && Run(c, s, ops).Done?
    ensures Step(c, Run(c, s, ops).next, op) == Halted(DeactivationMask) <==> MaskDrop(c, ops, op)
  {
    RunGoverns(c, s, ops);
    TopAfterRun(c, s, ops);
  }

  /** The operation at `k` was reached and is such a drop. */
  ghost predicate DropAt(c: Config, s: State, ops: seq<Op>, k: nat)
    requires c.Valid()
  {
    k < |ops| && Run(c, s, ops[..k]).Done? && MaskDrop(c, ops[..k], ops[k])
  }

  /** So a run ends there if and only if it contains one. */
  lemma {:induction false} RunHaltsOnDeactivationMaskIff(c: Config, s: State, ops: seq<Op>)
    requires c.Valid() && s.active == 0
    ensures Run(c, s, ops) == Halted(DeactivationMask) <==> exists k :: DropAt(c, s, ops, k)
    decreases |ops|
  {
    if ops != [] {
      var last := |ops| - 1;
      var front := ops[..last];
      RunHaltsOnDeactivationMaskIff(c, s, front);
      forall k: nat | k < last ensures DropAt(c, s, ops, k) <==> DropAt(c, s, front, k) {
        assert front[..k] == ops[..k];
      }
      if Run(c, s, front).Done? {
        NoDropWhileRunning(c, s, front);
        DeactivationMaskIff(c, s, front, ops[last]);
        assert Run(c, s, ops) == Halted(DeactivationMask) <==> DropAt(c, s, ops, last);
      }
    }
  }

  lemma NoDropWhileRunning(c: Config, s: State, ops: seq<Op>)
    requires c.Valid() && Run(c, s, ops).Done?
    requires Run(c, s, ops) == Halted(DeactivationMask) <==> exists k :: DropAt(c, s, ops, k)
    ensures forall k :: !DropAt(c, s, ops, k)
  {
  }

  // ---- Secure priorities ----------------------------------------------------------

  predicate SecureOps(ops: seq<Op>) {
    forall k :: 0 <= k < |ops| && (ops[k].Activate? || ops[k].Deactivate?) ==> ops[k].pri < 0x80
  }

  lemma {:induction false} LastIsSecure(ops: seq<Op>)
    requires SecureOps(ops) && LastLevelOp(ops).Some?
    ensures LastLevelOp(ops).value.pri < 0x80
    decreases |ops|
  {
    var last := |ops| - 1;
    if !(ops[last].Activate? || ops[last].Deactivate?) { LastIsSecure(ops[..last]); }
  }

  lemma SmallerIndex(c: Config, p: nat, q: nat)
    requires c.Valid() && p < 0x80 && q < 0x80 && c.Index(p) < c.Index(q)
    ensures p < q
  {
    var unit := Pow2(7 - c.priBits);
    if p >= q { QuotientGrows(q, p, unit); }
  }

  lemma QuotientGrows(x: nat, y: nat, unit: nat)
    requires unit > 0 && x <= y
    ensures x / unit <= y / unit
  {
    if x / unit > y / unit {
      MulGrows(unit, y / unit + 1, x / unit);
    }
  }

  /** With secure priorities only, a drop is a level left under a smaller value than it was
      just entered under. */
  lemma SecureDropIff(c: Config, s: State, ops: seq<Op>, op: Op)
    requires c.Valid() && s.active == 0 && Run(c, s, ops).Done? && SecureOps(ops)
    requires op.Deactivate? && op.pri < 0x80
    ensures MaskDrop(c, ops, op) <==>
      && op.pri < op.running && LastLevelOp(ops).Some? && LastLevelOp(ops).value.Activate?
      && c.Index(LastLevelOp(ops).value.pri) == c.Index(op.pri) && LastLevelOp(ops).value.pri > op.pri
  {
    RunGoverns(c, s, ops);
    TopAfterRun(c, s, ops);
    var now, last := Run(c, s, ops).next, LastLevelOp(ops);
    if last.Some? && last.value.Deactivate? && OnTop(c, ops, c.Index(op.pri)) {
      LastIsSecure(ops);
      SmallerIndex(c, last.value.pri, op.pri);
    }
  }

  /** After any run from a state with nothing active and some level active now, an
      activation ends in its mask panic exactly when its level would come on top but its
      value is not below that of the last activation or deactivation. */
  lemma ActivationMaskIff(c: Config, s: State, ops: seq<Op>, op: Op)
    requires c.Valid() && s.active == 0 && Run(c, s, ops).Done? && StackAfter(c, [], ops) != [] && op.Activate?
    ensures Step(c, Run(c, s, ops).next, op) == Halted(ActivationMask) <==>
      && op.pri < op.running && Registered(c, op.pri) && c.Index(op.pri) < StackAfter(c, [], ops)[0]
      && LastLevelOp(ops).Some? && LastLevelOp(ops).value.pri <= op.pri
  {
    RunGoverns(c, s, ops);
    TopAfterRun(c, s, ops);
  }

  /** Which activations and deactivations go through, after any run from a state with
      nothing active, by what the earlier operations left. */
  lemma LevelOpDoneIff(c: Config, s: State, ops: seq<Op>, op: Op)
    requires c.Valid() && s.active == 0 && Run(c, s, ops).Done? && StackAfter(c, [], ops) != []
    requires op.Activate? || op.Deactivate?
    ensures Step(c, Run(c, s, ops).next, op).Done? <==>
      && op.pri < op.running && Registered(c, op.pri) && LastLevelOp(ops).Some?
      && (if op.Activate?
          then c.Index(op.pri) < StackAfter(c, [], ops)[0] && op.pri < LastLevelOp(ops).value.pri
          else c.Index(op.pri) == StackAfter(c, [], ops)[0] && op.pri >= LastLevelOp(ops).value.pri)
  {
    RunGoverns(c, s, ops);
    TopAfterRun(c, s, ops);
  }

  /** With secure priorities only, that needs a nested deactivation just before. */
  lemma SecureActivationMask(c: Config, s: State, ops: seq<Op>, op: Op)
    requires c.Valid() && s.active == 0 && Run(c, s, ops).Done? && StackAfter(c, [], ops) != [] && op.Activate?
    requires SecureOps(ops) && op.pri < 0x80
    requires Step(c, Run(c, s, ops).next, op) == Halted(ActivationMask)
    ensures LastLevelOp(ops).Some? && LastLevelOp(ops).value.Deactivate?
  {
    RunGoverns(c, s, ops);
    TopAfterRun(c, s, ops);
    ActivationMaskIff(c, s, ops, op);
    LastIsSecure(ops);
    if LastLevelOp(ops).value.Activate? { SmallerIndex(c, op.pri, LastLevelOp(ops).value.pri); }
  }

  /** Without canonical priorities it is reachable: two priorities of one level. */
  lemma NonCanonicalHalts(s: State)
    requires s.active == 0 && s.hwMask == 0xf8
    ensures
      var c := Config(3, 8, {1});
      Run(c, s, [Activate(0x11, 0xff), Deactivate(0x10, 0xff)]) == Halted(DeactivationMask)
  {
    var c := Config(3, 8, {1});
    var ops := [Activate(0x11, 0xff), Deactivate(0x10, 0xff)];
    assert Pow2(4) == 16;
    assert c.Index(0x11) == 1 && c.Index(0x10) == 1;
    assert ops[..1] == [ops[0]] && ops[..1][..0] == [];
    assert Run(c, s, []) == Done(s);
    var s1 := ActivateStep(c, s, 0x11, 0xff).next;
    assert Pow2(1) == 2 && Or(0, 2) == 2;
    assert s1.active == 2 && Ctz(2) == 1;
    assert Run(c, s, [ops[0]]) == Done(s1);
  }

  /** The first `k` operations ran and left some level active. */
  ghost predicate ActiveAfter(c: Config, s: State, ops: seq<Op>, k: nat)
    requires c.Valid() && k <= |ops|
  {
    Run(c, s, ops[..k]).Done? && Run(c, s, ops[..k]).next.active != 0
  }

  /** Where the mask `first` is: programmed when nothing is active, kept otherwise. */
  ghost predicate KeepsFirst(s: State, first: nat, nsMask: nat) {
    s.nsMask == nsMask && if s.active == 0 then s.hwMask == first else s.initMask == first
  }

  lemma StepUnwinds(c: Config, s: State, op: Op, first: nat, nsMask: nat)
    requires c.Valid() && Step(c, s, op).Done? && first < 0x100
    requires KeepsFirst(s, first, nsMask) && (s.active != 0 || op.Activate?)
    ensures KeepsFirst(Step(c, s, op).next, first, nsMask)
  {
    if op.Activate? { assert Or(s.active, Pow2(c.Index(op.pri))) > 0; }
  }

  /** Whatever happens between a first activation and the deactivation of the last level
      still active, world switches included: the mask held before comes back. */
  lemma {:induction false} UnwindingRestoresMask(c: Config, s: State, ops: seq<Op>)
    requires c.Valid() && Bytes(s) && s.active == 0 && ops != [] && ops[0].Activate?
    requires Run(c, s, ops).Done? && forall k :: 0 < k < |ops| ==> ActiveAfter(c, s, ops, k)
    ensures
      var s' := Run(c, s, ops).next;
      && s'.nsMask == s.nsMask
      && (if s'.active == 0 then s'.hwMask == s.hwMask else s'.initMask == s.hwMask)
    decreases |ops|
  {
    var last := |ops| - 1;
    if last > 0 {
      assert ActiveAfter(c, s, ops, last);
      forall k | 0 < k < last ensures ActiveAfter(c, s, ops[..last], k) {
        assert ActiveAfter(c, s, ops, k) && ops[..last][..k] == ops[..k];
      }
      UnwindingRestoresMask(c, s, ops[..last]);
    }
    StepUnwinds(c, Run(c, s, ops[..last]).next, ops[last], s.hwMask, s.nsMask);
  }

  /** After a nested deactivation the mask is the priority just dropped, which is
      stricter than that of the level now on top. */
  lemma NestedDeactivationMask(c: Config, s: State, pri: nat, running: nat)
    requires c.Valid() && c.Canonical(pri)
    requires DeactivateStep(c, s, pri, running).Done?
    requires DeactivateStep(c, s, pri, running).next.active != 0
    ensures
      var s' := DeactivateStep(c, s, pri, running).next;
      && s'.hwMask == pri < Ctz(s'.active) * Pow2(7 - c.priBits)
      && c.Index(pri) < Ctz(s'.active)
  {
    NextTopGreater(s.active, 1);
    DistinctPriorities(Pow2(7 - c.priBits), c.Index(pri), Ctz(DeactivateStep(c, s, pri, running).next.active));
  }

  lemma DistinctPriorities(unit: nat, i: nat, j: nat)
    requires unit > 0 && i < j
    ensures i * unit < j * unit
  {
    MulGrows(unit, i + 1, j);
  }

  /** So the level just left cannot be entered again before the next one is left too. */
  lemma ReactivationHalts(c: Config, s: State, pri: nat, running: nat)
    requires c.Valid() && c.Canonical(pri)
    requires DeactivateStep(c, s, pri, running).Done?
    requires DeactivateStep(c, s, pri, running).next.active != 0
    ensures ActivateStep(c, DeactivateStep(c, s, pri, running).next, pri, running) == Halted(ActivationMask)
  {
    NestedDeactivationMask(c, s, pri, running);
  }

  /** One more operation. */
  lemma RunOn(c: Config, s: State, ops: seq<Op>, op: Op)
    requires c.Valid()
    ensures Run(c, s, ops + [op]) == if Run(c, s, ops).Done? then Step(c, Run(c, s, ops).next, op) else Run(c, s, ops)
  {
    assert (ops + [op])[..|ops|] == ops;
  }

  /** A run that shows it: two levels entered, the upper one left and entered again. */
  lemma ReactivationRun(s: State)
    requires s.active == 0 && s.hwMask == 0xf8
    ensures
      var c := Config(3, 8, {1, 2});
      Run(c, s, [Activate(0x20, 0xff)] + [Activate(0x10, 0xff)] + [Deactivate(0x10, 0xff)] + [Activate(0x10, 0xff)])
        == Halted(ActivationMask)
  {
    var c := Config(3, 8, {1, 2});
    assert Pow2(4) == 16 && Pow2(2) == 4 && Pow2(1) == 2;
    assert c.Index(0x20) == 2 && c.Index(0x10) == 1;
    assert Or(0, 4) == 4 && Or(4, 2) == 6 && And(6, 5) == 4 by { BitsOfTheRun(); }
    assert Ctz(4) == 2 && Ctz(6) == 1;
    var ops := [Activate(0x20, 0xff)];
    assert [] + ops == ops;
    RunOn(c, s, [], Activate(0x20, 0xff));
    RunOn(c, s, ops, Activate(0x10, 0xff));
    ops := ops + [Activate(0x10, 0xff)];
    RunOn(c, s, ops, Deactivate(0x10, 0xff));
    ops := ops + [Deactivate(0x10, 0xff)];
    RunOn(c, s, ops, Activate(0x10, 0xff));
  }

  lemma BitsOfTheRun()
    ensures Or(0, 4) == 4 && Or(4, 2) == 6 && And(6, 5) == 4
  {
    assert Or(1, 0) == 1 && Or(2, 1) == 3;
    assert And(1, 1) == 1 && And(3, 2) == 2;
  }

  /** And one that reaches the deactivation panic by a deactivation: priorities of 0x80 and
      above share their levels with secure ones. */
  lemma NonSecureRun(s: State)
    requires s.active == 0 && s.hwMask == 0xf8
    ensures
      var c := Config(3, 8, {1, 2});
      Run(c, s, [Activate(0xa0, 0xff)] + [Activate(0x90, 0xff)] + [Deactivate(0x90, 0xff)] + [Deactivate(0x20, 0xff)])
        == Halted(DeactivationMask)
  {
    var c := Config(3, 8, {1, 2});
    assert Pow2(4) == 16 && Pow2(2) == 4 && Pow2(1) == 2;
    assert c.Index(0xa0) == 2 && c.Index(0x90) == 1 && c.Index(0x20) == 2;
    assert Or(0, 4) == 4 && Or(4, 2) == 6 && And(6, 5) == 4 by { BitsOfTheRun(); }
    assert Ctz(4) == 2 && Ctz(6) == 1;
    var ops := [Activate(0xa0, 0xff)];
    assert [] + ops == ops;
    RunOn(c, s, [], Activate(0xa0, 0xff));
    RunOn(c, s, ops, Activate(0x90, 0xff));
    ops := ops + [Activate(0x90, 0xff)];
    RunOn(c, s, ops, Deactivate(0x90, 0xff));
    ops := ops + [Deactivate(0x90, 0xff)];
    RunOn(c, s, ops, Deactivate(0x20, 0xff));
  }

  // ---- The per-CPU data, updated in place -------------------------------------

  datatype Reply = Returned | Stopped(site: Site)

  class Pe {
    const config: Config
    var activePriBits: nat
    var initPriMask: nat
    var nsPriMask: nat
    var priorityMask: nat

    constructor (config: Config, mask: nat)
      ensures this.config == config && View() == State(0, 0, 0, mask)
    {
      this.config := config;
      activePriBits, initPriMask, nsPriMask, priorityMask := 0, 0, 0, mask;
    }

    ghost function View(): State
      reads this
    {
      State(activePriBits, initPriMask, nsPriMask, priorityMask)
    }

    twostate predicate Does(outcome: Outcome, reply: Reply)
      reads this
    {
      match outcome
      case Done(next) => reply == Returned && View() == next
      case Halted(site) => reply == Stopped(site)
    }

    /** `plat_ic_set_priority_mask`. */
    method SetPriorityMask(mask: nat) returns (oldMask: nat)
      modifies `priorityMask
      ensures priorityMask == mask && oldMask == old(priorityMask)
    {
      oldMask := priorityMask;
      priorityMask := mask;
    }

    method ActivatePriority(pri: nat, running: nat) returns (reply: Reply)
      requires config.Valid()
      modifies this
      ensures Does(ActivateStep(config, old(View()), pri, running), reply)
    {
      if pri >= running { return Stopped(RunningPriority); }
      var first := activePriBits == 0;
      var idx := config.Index(pri);
      if idx >= config.numPriorities || idx !in config.registered { return Stopped(UnknownPriority); }
      if !first && idx >= Ctz(activePriBits) { return Stopped(ActivationOrder); }
      activePriBits := Or(activePriBits, Pow2(idx));
      var oldMask := SetPriorityMask(pri);
      if pri >= oldMask { return Stopped(ActivationMask); }
      if first { initPriMask := oldMask % 0x100; }
      return Returned;
    }

    method DeactivatePriority(pri: nat, running: nat) returns (reply: Reply)
      requires config.Valid()
      modifies this
      ensures Does(DeactivateStep(config, old(View()), pri, running), reply)
    {
      if pri >= running { return Stopped(RunningPriority); }
      var idx := config.Index(pri);
      if idx >= config.numPriorities || idx !in config.registered { return Stopped(UnknownPriority); }
      if activePriBits == 0 || idx != Ctz(activePriBits) { return Stopped(DeactivationOrder); }
      activePriBits := And(activePriBits, activePriBits - 1);
      var oldMask := SetPriorityMask(if activePriBits == 0 then initPriMask else pri);
      if oldMask > pri { return Stopped(DeactivationMask); }
      return Returned;
    }

    method ExitedNormal(running: nat) returns (reply: Reply)
      modifies this
      ensures Does(ExitedStep(old(View()), running), reply)
    {
      if IsSecure(running) { return Returned; }
      if activePriBits != 0 { return Returned; }
      if nsPriMask != 0 { return Stopped(StashTaken); }
      var oldMask := SetPriorityMask(GIC_HIGHEST_NS_PRIORITY);
      nsPriMask := oldMask % 0x100;
      if IsSecure(nsPriMask) { return Stopped(StashSecure); }
      return Returned;
    }

    method EnteringNormal(running: nat) returns (reply: Reply)
      modifies this
      ensures Does(EnteringStep(old(View()), running), reply)
    {
      if IsSecure(running) { return Returned; }
      if activePriBits != 0 { return Returned; }
      if nsPriMask == 0 { return Returned; }
      var oldPmr := SetPriorityMask(nsPriMask);
      if oldPmr != GIC_HIGHEST_NS_PRIORITY && oldPmr != nsPriMask { return Stopped(RestoredMask); }
      nsPriMask := 0;
      return Returned;
    }

    method AllowPreemption() returns (reply: Reply)
      modifies this
      ensures Does(AllowStep(old(View())), reply)
    {
      if nsPriMask == 0 { return Stopped(PreemptionStash); }
      if activePriBits != 0 { return Stopped(PreemptionActive); }
      var _ := SetPriorityMask(nsPriMask);
      nsPriMask := 0;
      return Returned;
    }

    method IsNsPreemptionAllowed(running: nat) returns (allowed: bool)
      ensures allowed == NsPreemptionAllowed(View(), running)
    {
      if IsSecure(running) { return false; }
      if activePriBits != 0 { return false; }
      if nsPriMask != 0 { return false; }
      return true;
    }

    method Perform(op: Op) returns (reply: Reply)
      requires config.Valid()
      modifies this
      ensures Does(Step(config, old(View()), op), reply)
    {
      match op
      case Activate(pri, running) => reply := ActivatePriority(pri, running);
      case Deactivate(pri, running) => reply := DeactivatePriority(pri, running);
      case ExitedNormalWorld(running) => reply := ExitedNormal(running);
      case EnteringNormalWorld(running) => reply := EnteringNormal(running);
      case AllowNsPreemption => reply := AllowPreemption();
    }

    /** Any operations, one after the other, up to one that stops the machine. */
    method PerformAll(ops: seq<Op>) returns (stopped: Option<Site>)
      requires config.Valid()
      modifies this
      ensures
        match Run(config, old(View()), ops)
        case Done(next) => stopped == None && View() == next
        case Halted(site) => stopped == Some(site)
    {
      ghost var start := View();
      for i := 0 to |ops|
        invariant Run(config, start, ops[..i]) == Done(View())
      {
        RunOn(config, start, ops[..i], ops[i]);
        assert ops[..i] + [ops[i]] == ops[..i + 1];
        var reply := Perform(ops[i]);
        if reply.Stopped? {
          StoppedStays(config, start, ops, i + 1);
          return Some(reply.site);
        }
      }
      assert ops[..|ops|] == ops;
      return None;
    }

    /** After any operations, a yes to the question means that the mask programmed is the one
        the normal world had. */
    method PerformThenAsk(ops: seq<Op>, running: nat) returns (allowed: bool)
      requires config.Valid() && Bytes(View()) && ByteOps(ops)
      modifies this
      ensures allowed ==> priorityMask == NsMask(old(View()))
    {
      var stopped := PerformAll(ops);
      if stopped.Some? { return false; }
      allowed := IsNsPreemptionAllowed(running);
      if allowed { AllowedMeansOwnMask(config, old(View()), ops, running); }
    }
  }

  /** A stop is final. */
  lemma {:induction false} StoppedStays(c: Config, s: State, ops: seq<Op>, n: nat)
    requires c.Valid() && n <= |ops| && Run(c, s, ops[..n]).Halted?
    ensures Run(c, s, ops) == Run(c, s, ops[..n])
    decreases |ops|
  {
    if n == |ops| {
      assert ops[..n] == ops;
    } else {
      var last := |ops| - 1;
      assert ops[..last][..n] == ops[..n];
      StoppedStays(c, s, ops[..last], n);
    }
  }
}
