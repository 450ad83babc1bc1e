/** The table that routes SMCs to runtime services (`common/runtime_svc.c`). */
module RuntimeSvc {
  import opened Words
  import opened Bits

  const MAX_RT_SVCS: nat := 128
  const OEN_LIMIT: nat := 64
  const SMC_TYPE_FAST: nat := 1
  const SMC_TYPE_YIELD: nat := 0

  /** `rt_svc_desc_t`: `init` is what the init function returns (None: no such
      function), `handle` the handler (None: NULL). */
  datatype Desc = Desc(startOen: Byte, endOen: Byte, callType: Byte, init: Option<int>, handle: Option<nat>)

  // ---- Function identifiers (section 2.5 of the SMC Calling Convention) ------

  /** `GET_SMC_OEN`: bits 29 to 24. */
  function SmcOen(fid: Word32): nat { fid / 0x100_0000 % OEN_LIMIT }

  /** `GET_SMC_TYPE`: bit 31. */
  function SmcType(fid: Word32): nat { fid / 0x8000_0000 }

  /** `get_unique_oen`. */
  function UniqueOen(oen: nat, callType: nat): nat { callType % 2 * 0x40 + oen % OEN_LIMIT }

  lemma SmallPowers()
    ensures Pow2(1) == 2 && Pow2(6) == 0x40
  {
    assert Pow2(2) == 4 && Pow2(4) == 16;
  }

  lemma MaskedOen(x: nat)
    ensures And(x, 0x3f) == x % OEN_LIMIT
  {
    SmallPowers();
    AndMask(x, 6);
  }

  lemma MaskedType(x: nat)
    ensures And(x, 1) == x % 2
  {
    SmallPowers();
    AndMask(x, 1);
  }

  lemma Packed(oen: nat, callType: nat)
    requires oen < OEN_LIMIT
    ensures Or(callType * 0x40, oen) == callType * 0x40 + oen
  {
    SmallPowers();
    assert Shl(callType, 6) == callType * 0x40;
    OrHigh(oen, callType, 6);
  }

  /** These are what the masks and shifts of the header compute. */
  lemma MasksAndShifts(fid: Word32, oen: nat, callType: nat)
    ensures And(fid / 0x100_0000, 0x3f) == SmcOen(fid)
    ensures And(fid / 0x8000_0000, 1) == SmcType(fid)
    ensures Or(And(callType, 1) * 0x40, And(oen, 0x3f)) == UniqueOen(oen, callType)
  {
    assert And(fid / 0x100_0000, 0x3f) == SmcOen(fid) by { MaskedOen(fid / 0x100_0000); }
    assert And(fid / 0x8000_0000, 1) == SmcType(fid) by { MaskedType(fid / 0x8000_0000); }
    assert And(oen, 0x3f) == oen % OEN_LIMIT by { MaskedOen(oen); }
    assert And(callType, 1) == callType % 2 by { MaskedType(callType); }
    Packed(oen % OEN_LIMIT, callType % 2);
  }

  // ---- The linear search that the table stands for ---------------------------

  /** `validate_rt_svc_desc`. */
  predicate ValidDesc(d: Desc) {
    && d.startOen <= d.endOen < OEN_LIMIT
    && (d.callType == SMC_TYPE_FAST || d.callType == SMC_TYPE_YIELD)
    && (d.init.Some? || d.handle.Some?)
  }

  predicate Initialised(d: Desc) {
    d.init.None? || d.init.value == 0
  }

  predicate Serves(d: Desc, callType: nat, oen: nat) {
    Initialised(d) && d.callType == callType && d.startOen <= oen <= d.endOen
  }

  /** The last descriptor, of the first `n`, that serves calls of this type and entity. */
  function LastServing(descs: seq<Desc>, n: nat, callType: nat, oen: nat): (r: Option<nat>)
    requires n <= |descs|
    ensures r.Some? ==> r.value < n && Serves(descs[r.value], callType, oen)
    ensures forall i :: (if r.Some? then r.value + 1 else 0) <= i < n ==> !Serves(descs[i], callType, oen)
  {
    if n == 0 then None
    else if Serves(descs[n - 1], callType, oen) then Some(n - 1)
    else LastServing(descs, n - 1, callType, oen)
  }

  datatype Lookup = Unknown | Handler(handler: nat) | NullHandler

  function Search(descs: seq<Desc>, fid: Word32): Lookup {
    match LastServing(descs, |descs|, SmcType(fid), SmcOen(fid))
    case None => Unknown
    case Some(i) => if descs[i].handle.Some? then Handler(descs[i].handle.value) else NullHandler
  }

  // ---- The table --------------------------------------------------------------

  const INVALID: nat := 0xFF

  /** The entry that the table should have at `idx` after the first `n` descriptors. */
  function Expected(descs: seq<Desc>, n: nat, idx: nat): nat
    requires n <= |descs|
  {
    var last := LastServing(descs, n, idx / 0x40, idx % 0x40);
    if last.Some? then last.value else INVALID
  }

  class Dispatcher {
    const descs: seq<Desc>
    const indices: array<nat>

    constructor (descs: seq<Desc>)
      ensures this.descs == descs && fresh(indices) && indices.Length == MAX_RT_SVCS
    {
      this.descs := descs;
      indices := new nat[MAX_RT_SVCS](_ => 0);
    }

    /** The table agrees with the linear search. */
    ghost predicate Agrees(n: nat)
      requires n <= |descs|
      reads indices
    {
      indices.Length == MAX_RT_SVCS && forall idx :: 0 <= idx < MAX_RT_SVCS ==> indices[idx] == Expected(descs, n, idx)
    }

    /** The index as a `uint8_t`. */
    method IndexFor(oen: nat, callType: nat) returns (idx: nat)
      requires oen < OEN_LIMIT && callType <= 1
      ensures idx == callType * 0x40 + oen
    {
      var unique := UniqueOen(oen, callType);
      idx := unique % 0x100;
    }

    /** The inner loop of `runtime_svc_init`. */
    method Fill(index: nat)
      requires index < |descs| && ValidDesc(descs[index]) && Initialised(descs[index]) && Agrees(index)
      modifies indices
      ensures Agrees(index + 1)
    {
      var d := descs[index];
      var startIdx := IndexFor(d.startOen, d.callType);
      var endIdx := IndexFor(d.endOen, d.callType);
      var first := startIdx;
      while startIdx <= endIdx
        invariant first <= startIdx <= endIdx + 1
        invariant forall idx :: 0 <= idx < MAX_RT_SVCS ==>
          indices[idx] == if first <= idx < startIdx then index else Expected(descs, index, idx)
      {
        indices[startIdx] := index;
        startIdx := startIdx + 1;
      }
      forall idx | 0 <= idx < MAX_RT_SVCS ensures indices[idx] == Expected(descs, index + 1, idx) {
        InRangeIff(d, idx);
      }
    }

    /** `runtime_svc_init`: panics exactly when some descriptor is invalid; otherwise
        every table lookup gives what a last-to-first search of the descriptors would. */
    method Init() returns (ok: bool)
      requires |descs| < MAX_RT_SVCS && indices.Length == MAX_RT_SVCS
      modifies indices
      ensures ok <==> forall i :: 0 <= i < |descs| ==>
        && descs[i].startOen <= descs[i].endOen < 64 && descs[i].callType <= 1
        && (descs[i].init.None? ==> descs[i].handle.Some?)
      ensures ok && descs != [] ==> Agrees(|descs|)
    {
      if |descs| == 0 { return true; }
      forall i | 0 <= i < MAX_RT_SVCS { indices[i] := INVALID; }
      var index := 0;
      while index < |descs|
        invariant index <= |descs| && Agrees(index)
        invariant forall i :: 0 <= i < index ==> ValidDesc(descs[i])
      {
        var service := descs[index];
        if !ValidDesc(service) { return false; }
        if service.init.Some? && service.init.value != 0 {
          SkipKeeps(index);
        } else {
          Fill(index);
        }
        index := index + 1;
      }
      return true;
    }

    lemma SkipKeeps(index: nat)
      requires index < |descs| && !Initialised(descs[index]) && Agrees(index)
      ensures Agrees(index + 1)
    {
    }

    /** `get_handler_for_smc_fid`. */
    method GetHandler(fid: Word32) returns (r: Lookup)
      requires |descs| < MAX_RT_SVCS && indices.Length == MAX_RT_SVCS && (descs == [] || Agrees(|descs|))
      ensures r == Search(descs, fid)
    {
      var idx := UniqueOen(SmcOen(fid), SmcType(fid));
      assert idx / 0x40 == SmcType(fid) && idx % 0x40 == SmcOen(fid);
      var index := indices[idx];
      if index >= |descs| { return Unknown; }
      return if descs[index].handle.Some? then Handler(descs[index].handle.value) else NullHandler;
    }
  }

  lemma InRangeIff(d: Desc, idx: nat)
    requires ValidDesc(d) && Initialised(d) && idx < MAX_RT_SVCS
    ensures Serves(d, idx / 0x40, idx % 0x40) <==>
      d.callType * 0x40 + d.startOen <= idx <= d.callType * 0x40 + d.endOen
  {
  }

  // ---- What a caller of the search can rely on --------------------------------

  /** The identifier's type bit and owning entity are among those of the descriptor. */
  predicate Covers(d: Desc, fid: Word32) {
    && (d.callType == 1 <==> fid >= 0x8000_0000) && d.callType <= 1
    && d.startOen <= fid / 0x100_0000 % 0x40 <= d.endOen
  }

  /** The service has an init function and that failed. */
  predicate Failed(d: Desc) {
    d.init.Some? && d.init.value != 0
  }

  lemma ServesIff(d: Desc, fid: Word32)
    ensures Serves(d, SmcType(fid), SmcOen(fid)) <==> Covers(d, fid) && !Failed(d)
  {
  }

  /** An identifier is unknown exactly when every service that covers it failed to start;
      one without an init function counts as started. The last that started is called, and a
      later descriptor that covers the identifier as well wins over an earlier one. */
  lemma SearchMeaning(descs: seq<Desc>, fid: Word32)
    ensures Search(descs, fid).Unknown? <==>
      forall i :: 0 <= i < |descs| && Covers(descs[i], fid) ==> Failed(descs[i])
    ensures forall i ::
      && 0 <= i < |descs| && Covers(descs[i], fid) && !Failed(descs[i])
      && (forall j :: i < j < |descs| && Covers(descs[j], fid) ==> Failed(descs[j])) ==>
      Search(descs, fid) == if descs[i].handle.Some? then Handler(descs[i].handle.value) else NullHandler
  {
    var last := LastServing(descs, |descs|, SmcType(fid), SmcOen(fid));
    forall i | 0 <= i < |descs|
      ensures Serves(descs[i], SmcType(fid), SmcOen(fid)) <==> Covers(descs[i], fid) && !Failed(descs[i])
    {
      ServesIff(descs[i], fid);
    }
  }

  /** The SVE hint in bit 16, which the dispatcher clears, never changes the route. */
  lemma SveHintIrrelevant(descs: seq<Desc>, fid: Word32)
    ensures
      var plain := fid - fid / 0x1_0000 % 2 * 0x1_0000;
      0 <= plain < TWO_32 && Search(descs, plain) == Search(descs, fid)
  {
    SveHintBelow(fid);
  }

  lemma SveHintBelow(fid: Word32)
    ensures
      var plain := fid - fid / 0x1_0000 % 2 * 0x1_0000;
      && 0 <= plain < TWO_32
      && plain / 0x100_0000 == fid / 0x100_0000 && plain / 0x8000_0000 == fid / 0x8000_0000
  {
    var low, high := fid % 0x100_0000, fid / 0x100_0000;
    assert fid == 0x100_0000 * high + low && fid / 0x1_0000 % 2 == low / 0x1_0000 % 2;
  }
}
