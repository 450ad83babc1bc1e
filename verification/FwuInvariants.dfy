/** What every run of the FWU handlers keeps: the table of loaded images, the
    progress of copies and the world that is running. */
module FwuInvariants {
  import opened Words
  import opened FwuModel

  /** The handlers never touch what the platform fixed. */
  ghost predicate SameImage(d: Desc, fixed: Desc) {
    d.base == fixed.base && d.maxSize == fixed.maxSize
    && d.world == fixed.world && d.executable == fixed.executable
  }

  ghost predicate CopyOk(d: Desc) {
    && (d.state.Copying? ==> 0 < d.copied < d.size <= d.maxSize)
    && (d.state.Copied? ==> 0 < d.copied == d.size <= d.maxSize)
    && (d.copied != 0 ==> d.world.Secure?)
  }

  /** Every image but the booted one is in the table exactly once when its state
      is not RESET, and not at all when it is. */
  ghost predicate CountOk(p: Platform, id: nat, d: Desc, table: seq<nat>) {
    id != p.bootId ==> multiset(table)[id] == if d.state.Reset? then 0 else 1
  }

  /** A secure image is EXECUTED exactly when the secure world runs and
      `sec_exec_image_id` names it; the booted image is EXECUTED throughout. */
  ghost predicate WorldOk(p: Platform, id: nat, d: Desc, world: World, secExec: nat) {
    && (d.world.Secure? ==> (d.state.Executed? <==> world.Secure? && secExec == id))
    && (id == p.bootId ==> d.world.NonSecure? && d.state.Executed?)
    && (d.world.NonSecure? && id != p.bootId ==> d.state.Reset? || d.state.Authenticated?)
  }

  /** An image that was let past authentication has its flag up. */
  ghost predicate FlagOk(id: nat, d: Desc, authFlags: set<nat>) {
    d.world.Secure? && (d.state.Authenticated? || d.state.Executed? || d.state.Interrupted?) ==> id in authFlags
  }

  ghost predicate ImageOk(p: Platform, s: State, id: nat)
    requires id in s.descs && id in p.images
  {
    var d := s.descs[id];
    && SameImage(d, p.images[id])
    && CopyOk(d)
    && CountOk(p, id, d, s.loaded)
    && WorldOk(p, id, d, s.world, s.secExec)
    && FlagOk(id, d, s.authFlags)
  }

  ghost predicate KnownEntries(p: Platform, table: seq<nat>) {
    forall e :: e in table ==> e == INVALID_IMAGE_ID || (e in p.images && e != p.bootId)
  }

  ghost predicate OthersCountSame(table: seq<nat>, table': seq<nat>, id: nat) {
    forall other :: other != id && other != INVALID_IMAGE_ID ==> multiset(table')[other] == multiset(table)[other]
  }

  /** Only images known to the platform are in the table, and the last executed
      image, if any, is secure and executable. */
  ghost predicate GlobalOk(p: Platform, s: State) {
    && s.descs.Keys == p.images.Keys
    && |s.loaded| == p.slots
    && KnownEntries(p, s.loaded)
    && (if s.secExec in s.descs
        then s.descs[s.secExec].world.Secure? && s.descs[s.secExec].executable
        else s.secExec == INVALID_IMAGE_ID && s.world.NonSecure?)
  }

  ghost predicate Inv(p: Platform, s: State) {
    && p.Valid()
    && GlobalOk(p, s)
    && forall id :: id in s.descs ==> ImageOk(p, s, id)
  }

  lemma BootInv(p: Platform, mem: Memory)
    requires p.Valid()
    ensures Inv(p, Boot(p, mem))
  {
    var s := Boot(p, mem);
    forall id | id in s.descs
      ensures ImageOk(p, s, id)
    {
      if id != p.bootId { assert id !in s.loaded; }
    }
  }

  ghost predicate NoOtherExecuted(s: State, id: nat) {
    forall other :: other in s.descs && other != id ==>
      !(s.descs[other].world.Secure? && s.descs[other].state.Executed?)
  }

  /** A step that touches one image only has that image and the shared variables
      to answer for. */
  lemma OneImageChanges(p: Platform, s: State, s': State, id: nat, d: Desc)
    requires Inv(p, s) && id in s.descs && s'.descs == s.descs[id := d]
    requires SameImage(d, p.images[id]) && CopyOk(d)
    requires CountOk(p, id, d, s'.loaded) && WorldOk(p, id, d, s'.world, s'.secExec) && FlagOk(id, d, s'.authFlags)
    requires |s'.loaded| == p.slots && KnownEntries(p, s'.loaded) && OthersCountSame(s.loaded, s'.loaded, id)
    requires s'.authFlags == s.authFlags || s'.authFlags == s.authFlags + {id} || s'.authFlags == s.authFlags - {id}
    requires
      || (s'.world == s.world && s'.secExec == s.secExec)
      || (NoOtherExecuted(s, id) && s'.secExec == id && d.world.Secure? && d.executable)
      || (NoOtherExecuted(s, id) && s'.secExec == INVALID_IMAGE_ID && s'.world.NonSecure?)
    ensures Inv(p, s')
  {
    assert s'.descs.Keys == s.descs.Keys;
    assert ImageOk(p, s, id);
    forall other | other in s'.descs
      ensures ImageOk(p, s', other)
    {
      if other != id { assert ImageOk(p, s, other); }
    }
  }

  lemma NoneElseExecuted(p: Platform, s: State, id: nat)
    requires Inv(p, s) && (s.world.NonSecure? || id == s.secExec)
    ensures NoOtherExecuted(s, id)
  {
    forall other | other in s.descs && other != id
      ensures !(s.descs[other].world.Secure? && s.descs[other].state.Executed?)
    {
      assert ImageOk(p, s, other);
    }
  }

  // ---- The table ----------------------------------------------------------

  /** Adding puts in one occurrence and touches no other image's count. */
  lemma AddLoadedCounts(p: Platform, table: seq<nat>, id: nat)
    requires id != INVALID_IMAGE_ID && id != p.bootId && id in p.images && id !in table && KnownEntries(p, table)
    ensures AddLoaded(table, id).Some? <==> INVALID_IMAGE_ID in table
    ensures AddLoaded(table, id).Some? ==>
      var t := AddLoaded(table, id).value;
      && |t| == |table| && KnownEntries(p, t)
      && id in t && multiset(t)[id] == 1
      && OthersCountSame(table, t, id)
  {
    if INVALID_IMAGE_ID in table {
      var i := Find(table, INVALID_IMAGE_ID);
      assert multiset(table[i := id]) == multiset(table) - multiset{INVALID_IMAGE_ID} + multiset{id};
      assert table[i := id][i] == id;
    }
  }

  /** Removing takes out one occurrence and touches no other image's count. */
  lemma RemoveLoadedCounts(p: Platform, table: seq<nat>, id: nat)
    requires id != INVALID_IMAGE_ID && id in table && KnownEntries(p, table)
    ensures RemoveLoaded(table, id).Some?
    ensures
      var t := RemoveLoaded(table, id).value;
      && |t| == |table| && KnownEntries(p, t)
      && multiset(t)[id] == multiset(table)[id] - 1
      && OthersCountSame(table, t, id)
  {
    var i := Find(table, id);
    assert multiset(table[i := INVALID_IMAGE_ID]) ==
           multiset(table) - multiset{id} + multiset{INVALID_IMAGE_ID};
  }

  /** Adding an absent image and removing it again leaves every count as it was. */
  lemma AddThenRemove(p: Platform, table: seq<nat>, id: nat)
    requires id != INVALID_IMAGE_ID && id != p.bootId && id in p.images && id !in table && KnownEntries(p, table)
    requires AddLoaded(table, id).Some?
    ensures RemoveLoaded(AddLoaded(table, id).value, id) == Some(table)
  {
    var i := Find(table, INVALID_IMAGE_ID);
    var t := table[i := id];
    assert t[i] == id;
    var j := Find(t, id);
    assert t[j] == id;
    assert j == i;
    assert t[i := INVALID_IMAGE_ID] == table;
  }

  lemma LoadedIff(p: Platform, s: State, id: nat)
    requires Inv(p, s) && id in s.descs && id != p.bootId
    ensures id in s.loaded <==> !s.descs[id].state.Reset?
    ensures id in s.loaded ==> multiset(s.loaded)[id] == 1
  {
    assert ImageOk(p, s, id);
    assert id in s.loaded <==> multiset(s.loaded)[id] > 0;
  }

  // ---- Steps --------------------------------------------------------------

  /** With the table right, the overlap check never meets a RESET image. `s` is
      the invariant state and `sized` the one in which the check runs. */
  lemma OverlapNeverStale(p: Platform, s: State, sized: State, id: nat, i: nat)
    requires Inv(p, s) && id in s.descs && i <= |s.loaded|
    requires sized.loaded == s.loaded && id in sized.descs && SizedFrom(s, sized, id)
    ensures CheckOverlaps(sized, id, i) != OverlapHalt(OverlapState)
    decreases |s.loaded| - i
  {
    if i < |s.loaded| {
      var e := s.loaded[i];
      assert e in s.loaded;
      if e != INVALID_IMAGE_ID { LoadedIff(p, s, e); }
      OverlapNeverStale(p, s, sized, id, i + 1);
    }
  }

  ghost predicate SizedFrom(s: State, sized: State, id: nat) {
    forall other :: other in s.descs && other != id ==> other in sized.descs && sized.descs[other] == s.descs[other]
  }

  lemma CopyBlockKeeps(p: Platform, s: State, r: Request)
    requires Inv(p, s) && r.Copy? && r.id in s.descs && |r.data| > 0
    requires s.world.NonSecure? && s.descs[r.id].world.Secure?
    requires s.descs[r.id].state.Reset? || s.descs[r.id].state.Copying?
    requires s.descs[r.id].state.Reset? ==> s.descs[r.id].copied == 0 < s.descs[r.id].size <= s.descs[r.id].maxSize
    ensures s.descs[r.id].copied <= s.descs[r.id].size
    ensures CopyBlock(s, r).Done? && Inv(p, CopyBlock(s, r).next)
  {
    assert ImageOk(p, s, r.id);
    LoadedIff(p, s, r.id);
    var s' := CopyBlock(s, r).next;
    if s' != s {
      if r.id !in s.loaded {
        AddLoadedCounts(p, s.loaded, r.id);
        AddThenRemove(p, s.loaded, r.id);
      }
      OneImageChanges(p, s, s', r.id, s'.descs[r.id]);
    }
  }

  lemma FirstCopyKeeps(p: Platform, s: State, r: Request)
    requires Inv(p, s) && r.Copy? && r.id in s.descs && |r.data| > 0
    requires s.world.NonSecure? && s.descs[r.id].world.Secure? && s.descs[r.id].state.Reset?
    requires 0 < r.imageSize <= s.descs[r.id].maxSize
    ensures
      var d := s.descs[r.id];
      var ready := Put(s, r.id, d.(size := r.imageSize, copied := 0));
      && Inv(p, Put(s, r.id, d.(size := 0)))
      && CopyBlock(ready, r).Done? && Inv(p, CopyBlock(ready, r).next)
  {
    var d := s.descs[r.id];
    assert ImageOk(p, s, r.id);
    OneImageChanges(p, s, Put(s, r.id, d.(size := 0)), r.id, d.(size := 0));
    var ready := Put(s, r.id, d.(size := r.imageSize, copied := 0));
    OneImageChanges(p, s, ready, r.id, d.(size := r.imageSize, copied := 0));
    CopyBlockKeeps(p, ready, r);
  }

  lemma CopyKeeps(p: Platform, s: State, r: Request)
    requires Inv(p, s) && r.Copy?
    ensures CopyStep(s, r).Done? ==> Inv(p, CopyStep(s, r).next)
    ensures CopyStep(s, r).Halted? ==> CopyStep(s, r).site == OverlapEnd
  {
    if CopyProceeds(s, r) {
      assert ImageOk(p, s, r.id);
      if s.descs[r.id].state.Copying? {
        CopyBlockKeeps(p, s, r);
      } else {
        CheckedCopyKeeps(p, s, r);
      }
    }
  }

  /** The request gets past the checks of its arguments. */
  predicate CopyProceeds(s: State, r: Request)
    requires r.Copy?
  {
    && r.id in s.descs && s.world.NonSecure? && s.descs[r.id].world.Secure?
    && r.src != 0 && |r.data| > 0 && r.src <= UINTPTR_MAX - |r.data|
    && (s.descs[r.id].state.Copying? ||
        (s.descs[r.id].state.Reset? && 0 < r.imageSize <= s.descs[r.id].maxSize))
  }

  lemma CheckedCopyKeeps(p: Platform, s: State, r: Request)
    requires Inv(p, s) && r.Copy? && CopyProceeds(s, r) && s.descs[r.id].state.Reset?
    ensures CopyStep(s, r).Done? ==> Inv(p, CopyStep(s, r).next)
    ensures CopyStep(s, r).Halted? ==> CopyStep(s, r).site == OverlapEnd
  {
    FirstCopyCases(s, r);
    var sized := Put(s, r.id, s.descs[r.id].(size := r.imageSize));
    if CheckOverlaps(sized, r.id, 0).OverlapHalt? {
      OverlapNeverStale(p, s, sized, r.id, 0);
      CheckOverlapsSites(sized, r.id, 0);
    } else {
      FirstCopyKeeps(p, s, r);
    }
  }

  /** How a first copy ends, by the result of the overlap check. */
  lemma FirstCopyCases(s: State, r: Request)
    requires r.Copy? && CopyProceeds(s, r) && s.descs[r.id].state.Reset?
    ensures
      var d := s.descs[r.id];
      match CheckOverlaps(Put(s, r.id, d.(size := r.imageSize)), r.id, 0)
      case OverlapHalt(site) => CopyStep(s, r) == Halted(site)
      case Overlapping => CopyStep(s, r) == Done(EPERM, Put(s, r.id, d.(size := 0)))
      case Clear => CopyStep(s, r) == CopyBlock(Put(s, r.id, d.(size := r.imageSize, copied := 0)), r)
  {
  }

  lemma CheckOverlapsSites(s: State, id: nat, i: nat)
    requires id in s.descs && i <= |s.loaded|
    ensures CheckOverlaps(s, id, i).OverlapHalt? ==> CheckOverlaps(s, id, i).site in {OverlapState, OverlapEnd}
    decreases |s.loaded| - i
  {
    if i < |s.loaded| { CheckOverlapsSites(s, id, i + 1); }
  }

  // ---- When the overlap check stops the machine ----------------------------

  /** An image of a single byte, or one whose region leaves the address space:
      the overlap check asserts that it meets neither. */
  predicate Degenerate(s: State, id: nat, entry: nat) {
    && entry != INVALID_IMAGE_ID && entry != id && entry in s.descs
    && (s.descs[entry].size == 1 || s.descs[entry].base + s.descs[entry].size > TWO_64)
  }

  /** An entry that a request for `size` bytes of image `id` gets past: there is nothing in
      it to meet, or its region ends before the requested one or starts after it. */
  predicate Passable(s: State, id: nat, size: nat, entry: nat)
    requires id in s.descs && 0 < size < TWO_32
  {
    || entry == INVALID_IMAGE_ID || entry == id
    || (&& entry in s.descs && !Degenerate(s, id, entry)
        && var d, base := s.descs[entry], s.descs[id].base;
        d.size == 0 || d.base + d.size <= base || Wrap(base + size - 1) < d.base)
  }

  /** The first entry, from `i` on, that does not pass the check decides its result. */
  lemma FirstBlocked(s: State, id: nat, i: nat) returns (k: nat)
    requires id in s.descs && i <= |s.loaded|
    ensures i <= k <= |s.loaded|
    ensures forall j :: i <= j < k ==> OverlapsAt(s, id, s.loaded[j]).Clear?
    ensures k < |s.loaded| ==> !OverlapsAt(s, id, s.loaded[k]).Clear?
    ensures CheckOverlaps(s, id, i) == if k < |s.loaded| then OverlapsAt(s, id, s.loaded[k]) else Clear
    decreases |s.loaded| - i
  {
    k := i;
    if i < |s.loaded| && OverlapsAt(s, id, s.loaded[i]).Clear? {
      k := FirstBlocked(s, id, i + 1);
    }
  }

  /** A degenerate image is in the table, and the check gets past every entry before it. */
  ghost predicate StopsAt(s: State, id: nat, size: nat, k: nat)
    requires id in s.descs && 0 < size < TWO_32
  {
    && k < |s.loaded| && Degenerate(s, id, s.loaded[k])
    && forall j :: 0 <= j < k ==> Passable(s, id, size, s.loaded[j])
  }

  /** No entry of the table is in state RESET. */
  ghost predicate NoneStale(s: State, id: nat) {
    forall e :: e in s.loaded && e != INVALID_IMAGE_ID && e != id ==> e in s.descs && !s.descs[e].state.Reset?
  }

  lemma EntryCases(s: State, id: nat, entry: nat)
    requires id in s.descs && 0 < s.descs[id].size
    requires entry != INVALID_IMAGE_ID && entry != id ==> entry in s.descs && !s.descs[entry].state.Reset?
    ensures OverlapsAt(s, id, entry) == OverlapHalt(OverlapEnd) <==> Degenerate(s, id, entry)
    ensures OverlapsAt(s, id, entry).Clear? <==> Passable(s, id, s.descs[id].size, entry)
  {
  }

  /** The assertion on an image's end address fails exactly when a degenerate image is in
      the table and every entry before it is passable. */
  lemma OverlapEndIff(s: State, id: nat)
    requires id in s.descs && 0 < s.descs[id].size && NoneStale(s, id)
    ensures CheckOverlaps(s, id, 0) == OverlapHalt(OverlapEnd) <==> exists k :: StopsAt(s, id, s.descs[id].size, k)
  {
    forall k | 0 <= k < |s.loaded|
      ensures OverlapsAt(s, id, s.loaded[k]) == OverlapHalt(OverlapEnd) <==> Degenerate(s, id, s.loaded[k])
      ensures OverlapsAt(s, id, s.loaded[k]).Clear? <==> Passable(s, id, s.descs[id].size, s.loaded[k])
    {
      assert s.loaded[k] in s.loaded;
      EntryCases(s, id, s.loaded[k]);
    }
    var first := FirstBlocked(s, id, 0);
    if CheckOverlaps(s, id, 0) == OverlapHalt(OverlapEnd) {
      assert StopsAt(s, id, s.descs[id].size, first);
    }
  }

  /** When a copy stops the machine, in terms of the request and the table before it. */
  ghost predicate CopyStops(s: State, r: Request)
    requires r.Copy?
  {
    && CopyProceeds(s, r) && s.descs[r.id].state.Reset?
    && exists k :: StopsAt(s, r.id, r.imageSize, k)
  }

  /** Exactly then it does. */
  lemma CopyStopsIff(p: Platform, s: State, r: Request)
    requires Inv(p, s) && r.Copy?
    ensures CopyStep(s, r).Halted? <==> CopyStops(s, r)
  {
    CopyKeeps(p, s, r);
    if CopyProceeds(s, r) {
      assert ImageOk(p, s, r.id);
      if s.descs[r.id].state.Reset? {
        FirstCopyStopsIff(p, s, r);
      } else {
        CopyBlockKeeps(p, s, r);
      }
    }
  }

  lemma FirstCopyStopsIff(p: Platform, s: State, r: Request)
    requires Inv(p, s) && r.Copy? && CopyProceeds(s, r) && s.descs[r.id].state.Reset?
    ensures CopyStep(s, r).Halted? <==> exists k :: StopsAt(s, r.id, r.imageSize, k)
  {
    FirstCopyCases(s, r);
    var sized := Put(s, r.id, s.descs[r.id].(size := r.imageSize));
    forall e | e in s.loaded && e != INVALID_IMAGE_ID && e != r.id
      ensures e in sized.descs && !sized.descs[e].state.Reset?
    {
      LoadedIff(p, s, e);
    }
    OverlapEndIff(sized, r.id);
    SizedStopsAt(s, sized, r.id, r.imageSize);
    CheckOverlapsSites(sized, r.id, 0);
    OverlapNeverStale(p, s, sized, r.id, 0);
    if CheckOverlaps(sized, r.id, 0).Clear? { FirstCopyKeeps(p, s, r); }
  }

  /** The size being checked is part of the request and not of the table. */
  lemma SizedStopsAt(s: State, sized: State, id: nat, size: nat)
    requires id in s.descs && 0 < size < TWO_32 && sized == Put(s, id, s.descs[id].(size := size))
    ensures forall k :: StopsAt(s, id, size, k) <==> StopsAt(sized, id, size, k)
  {
    forall e: nat
      ensures Degenerate(s, id, e) <==> Degenerate(sized, id, e)
      ensures Passable(s, id, size, e) <==> Passable(sized, id, size, e)
    {
    }
  }

  lemma VerdictKeeps(p: Platform, s: State, r: Request, bytes: seq<Byte>)
    requires Inv(p, s) && r.Auth? && r.id in s.descs && s.descs[r.id].state.Copied?
    ensures Verdict(s, r, bytes).Done? ==> Inv(p, Verdict(s, r, bytes).next)
    ensures Verdict(s, r, bytes).Halted? ==> Verdict(s, r, bytes).site == PostImageLoad
  {
    assert ImageOk(p, s, r.id);
    LoadedIff(p, s, r.id);
    if !r.authOk {
      RemoveLoadedCounts(p, s.loaded, r.id);
      OneImageChanges(p, s, Verdict(s, r, bytes).next, r.id, s.descs[r.id].(state := Reset));
    } else if r.postOk {
      OneImageChanges(p, s, Verdict(s, r, bytes).next, r.id, s.descs[r.id].(state := Authenticated));
    }
  }

  lemma InPlaceKeeps(p: Platform, s: State, r: Request)
    requires Inv(p, s) && r.Auth? && r.id in s.descs && s.descs[r.id].state.Reset?
    requires AddLoaded(s.loaded, r.id).Some?
    ensures
      var sized := Put(s, r.id, s.descs[r.id].(size := |r.data|)).(loaded := AddLoaded(s.loaded, r.id).value);
      && (Verdict(sized, r, r.data).Done? ==> Inv(p, Verdict(sized, r, r.data).next))
      && (Verdict(sized, r, r.data).Halted? ==> Verdict(sized, r, r.data).site == PostImageLoad)
  {
    assert ImageOk(p, s, r.id);
    LoadedIff(p, s, r.id);
    var d := s.descs[r.id].(size := |r.data|);
    var sized := Put(s, r.id, d).(loaded := AddLoaded(s.loaded, r.id).value);
    if !r.authOk {
      AddThenRemove(p, s.loaded, r.id);
      OneImageChanges(p, s, Verdict(sized, r, r.data).next, r.id, d);
    } else if r.postOk {
      AddLoadedCounts(p, s.loaded, r.id);
      var d' := d.(state := Authenticated);
      assert s.descs[r.id := d][r.id := d'] == s.descs[r.id := d'];
      OneImageChanges(p, s, Verdict(sized, r, r.data).next, r.id, d');
    }
  }

  lemma AuthKeeps(p: Platform, s: State, r: Request)
    requires Inv(p, s) && r.Auth?
    ensures AuthStep(s, r).Done? ==> Inv(p, AuthStep(s, r).next)
    ensures AuthStep(s, r).Halted? ==> AuthStep(s, r).site == PostImageLoad
    ensures AuthStep(s, r).Halted? <==> AuthProceeds(s, r) && r.authOk && !r.postOk
  {
    if r.id in s.descs {
      var d := s.descs[r.id];
      if d.state.Copied? {
        VerdictKeeps(p, s, r, Read(s.mem, d.base, d.size));
      } else if d.state.Reset? && AddLoaded(s.loaded, r.id).Some? {
        InPlaceKeeps(p, s, r);
      }
    }
  }

  /** The request gets past the checks of its arguments, to the authentication module. */
  predicate AuthProceeds(s: State, r: Request)
    requires r.Auth?
  {
    && r.id in s.descs
    && var d := s.descs[r.id];
    && (if s.world.NonSecure? && d.world.Secure? then d.state.Copied? else d.state.Reset?)
    && (d.state.Reset? ==>
        && r.src != 0 && |r.data| > 0 && r.src <= UINTPTR_MAX - |r.data| && r.memOk
        && (r.id in s.loaded || INVALID_IMAGE_ID in s.loaded))
  }

  lemma SwitchKeeps(p: Platform, s: State, r: Request)
    requires Inv(p, s) && (r.Execute? || r.Resume?)
    ensures Step(s, r).Done? ==> Inv(p, Step(s, r).next)
    ensures Step(s, r).Halted? <==>
      r.Resume? && s.world.NonSecure? && s.secExec in s.descs && !s.descs[s.secExec].state.Interrupted?
    ensures Step(s, r).Halted? ==> Step(s, r).site == ResumeNonSecure
  {
    var id := if r.Execute? then r.id else s.secExec;
    if id in s.descs {
      assert ImageOk(p, s, id);
      if Step(s, r).Done? && Step(s, r).next != s {
        NoneElseExecuted(p, s, id);
        OneImageChanges(p, s, Step(s, r).next, id, Step(s, r).next.descs[id]);
      }
    }
  }

  lemma DoneKeeps(p: Platform, s: State)
    requires Inv(p, s)
    ensures SecImageDoneStep(s).Done? && Inv(p, SecImageDoneStep(s).next)
  {
    if s.world.Secure? {
      assert ImageOk(p, s, s.secExec);
      LoadedIff(p, s, s.secExec);
      RemoveLoadedCounts(p, s.loaded, s.secExec);
      NoneElseExecuted(p, s, s.secExec);
      OneImageChanges(p, s, SecImageDoneStep(s).next, s.secExec, s.descs[s.secExec].(state := Reset));
    }
  }

  lemma ResetKeeps(p: Platform, s: State, id: nat)
    requires Inv(p, s)
    ensures ResetStep(s, id).Done? ==> Inv(p, ResetStep(s, id).next)
    ensures ResetStep(s, id).Halted? <==> s.world.NonSecure? && id == p.bootId
    ensures ResetStep(s, id).Halted? ==> ResetStep(s, id).site == ResetExecuted
  {
    if id in s.descs {
      assert ImageOk(p, s, id);
      if s.world.NonSecure? && id != p.bootId && !s.descs[id].state.Reset? {
        LoadedIff(p, s, id);
        RemoveLoadedCounts(p, s.loaded, id);
        OneImageChanges(p, s, ResetStep(s, id).next, id, s.descs[id].(copied := 0, size := 0, state := Reset));
      }
    }
  }

  /** Every request keeps the invariant; where it can stop the machine, and under
      which conditions. */
  lemma StepKeeps(p: Platform, s: State, r: Request)
    requires Inv(p, s)
    ensures Step(s, r).Done? ==> Inv(p, Step(s, r).next)
    ensures Step(s, r).Halted? ==>
      Step(s, r).site in {OverlapEnd, PostImageLoad, ResumeNonSecure, ResetExecuted, Finished}
    ensures r.Copy? ==> (Step(s, r).Halted? <==> CopyStops(s, r))
    ensures r.Auth? ==> (Step(s, r).Halted? <==> AuthProceeds(s, r) && r.authOk && !r.postOk)
    ensures r.Resume? ==> (Step(s, r).Halted? <==>
      s.world.NonSecure? && s.secExec in s.descs && !s.descs[s.secExec].state.Interrupted?)
    ensures r.ImageReset? ==> (Step(s, r).Halted? <==> s.world.NonSecure? && r.id == p.bootId)
    ensures r.Execute? || r.SecImageDone? ==> Step(s, r).Done?
  {
    match r
    case Copy(_, _, _, _, _, _) =>
      CopyKeeps(p, s, r);
      CopyStopsIff(p, s, r);
    case Auth(_, _, _, _, _, _) => AuthKeeps(p, s, r);
    case Execute(_) => SwitchKeeps(p, s, r);
    case Resume(_) => SwitchKeeps(p, s, r);
    case SecImageDone => DoneKeeps(p, s);
    case ImageReset(id) => ResetKeeps(p, s, id);
    case UpdateDone =>
  }

  // ---- Runs ---------------------------------------------------------------

  lemma {:induction false} RunKeeps(p: Platform, mem: Memory, requests: seq<Request>)
    requires p.Valid()
    ensures Run(Boot(p, mem), requests).Done? ==> Inv(p, Run(Boot(p, mem), requests).next)
    decreases |requests|
  {
    if requests == [] {
      BootInv(p, mem);
    } else {
      var last := |requests| - 1;
      RunKeeps(p, mem, requests[..last]);
      match Run(Boot(p, mem), requests[..last])
      case Halted(_) =>
      case Done(_, s) => StepKeeps(p, s, requests[last]);
    }
  }

  /** In every run that has not stopped, the secure world runs exactly when some
      secure image is EXECUTED, and that image is the one `sec_exec_image_id` names. */
  lemma SecureWorldIffExecuted(p: Platform, mem: Memory, requests: seq<Request>, id: nat)
    requires p.Valid()
    requires Run(Boot(p, mem), requests).Done?
    requires id in p.images && p.images[id].world.Secure?
    ensures
      var s := Run(Boot(p, mem), requests).next;
      id in s.descs && (s.descs[id].state.Executed? <==> s.world.Secure? && s.secExec == id)
  {
    RunKeeps(p, mem, requests);
    assert ImageOk(p, Run(Boot(p, mem), requests).next, id);
  }

  /** The secure world never runs without such an image. */
  lemma SecureWorldHasImage(p: Platform, mem: Memory, requests: seq<Request>)
    requires p.Valid() && Run(Boot(p, mem), requests).Done?
    ensures
      var s := Run(Boot(p, mem), requests).next;
      s.world.Secure? <==> exists id :: id in s.descs && s.descs[id].world.Secure? && s.descs[id].state.Executed?
  {
    RunKeeps(p, mem, requests);
    var s := Run(Boot(p, mem), requests).next;
    if s.world.Secure? { assert ImageOk(p, s, s.secExec); }
    if id :| id in s.descs && s.descs[id].world.Secure? && s.descs[id].state.Executed? {
      assert ImageOk(p, s, id);
    }
  }

  /** No run ever stops at the assertions on the secure caller of a resume or a
      done, on the progress of a copy, on the state of a loaded image or on the
      security of a reset. */
  lemma {:induction false} RunHaltsOnlyAt(p: Platform, mem: Memory, requests: seq<Request>)
    requires p.Valid()
    requires Run(Boot(p, mem), requests).Halted?
    ensures Run(Boot(p, mem), requests).site in
      {OverlapEnd, PostImageLoad, ResumeNonSecure, ResetExecuted, Finished}
    decreases |requests|
  {
    var last := |requests| - 1;
    match Run(Boot(p, mem), requests[..last])
    case Halted(_) => RunHaltsOnlyAt(p, mem, requests[..last]);
    case Done(_, s) =>
      RunKeeps(p, mem, requests[..last]);
      StepKeeps(p, s, requests[last]);
  }

  /** Every copy that is accepted moves the image strictly forward, and it
      completes exactly when nothing remains. */
  lemma CopyAdvances(p: Platform, s: State, r: Request)
    requires Inv(p, s) && r.Copy? && Step(s, r).Done? && Step(s, r).code.Success?
    ensures r.id in s.descs
    ensures
      var d, d' := s.descs[r.id], Step(s, r).next.descs[r.id];
      var was := if d.state.Reset? then 0 else d.copied;
      && was < d'.copied <= d'.size
      && (d.state.Copying? ==> d'.size == d.size)
      && (d'.state.Copied? <==> d'.copied == d'.size)
      && (d'.state.Copying? <==> d'.copied < d'.size)
  {
    assert CopyProceeds(s, r);
    assert ImageOk(p, s, r.id);
  }

  // ---- Undoing a switch of worlds -------------------------------------------

  /** Interrupting the secure image and resuming it gives back the state as it was. */
  lemma ResumeRoundTrip(p: Platform, s: State, a: nat, b: nat)
    requires Inv(p, s) && s.world.Secure?
    ensures ResumeStep(s, a).Done? && ResumeStep(s, a).next.world.NonSecure?
    ensures ResumeStep(ResumeStep(s, a).next, b) == Done(Param(b), s)
  {
    var id := s.secExec;
    assert ImageOk(p, s, id);
    var d := s.descs[id];
    assert s.descs[id := d.(state := Interrupted)][id := d] == s.descs;
  }

  /** An image that is executed and reports that it is done leaves behind only its own
      descriptor, in state RESET, and its slot, free. */
  lemma ExecuteThenDone(p: Platform, s: State, id: nat)
    requires Inv(p, s) && ExecuteStep(s, id).Done? && ExecuteStep(s, id).code.Success?
    ensures
      var running := ExecuteStep(s, id).next;
      && running.world.Secure? && running.secExec == id && running.loaded == s.loaded && id in s.loaded
      && SecImageDoneStep(running) == Done(Success, Put(s, id, s.descs[id].(state := Reset)).(
           loaded := RemoveLoaded(s.loaded, id).value, secExec := INVALID_IMAGE_ID))
  {
    assert ImageOk(p, s, id);
    LoadedIff(p, s, id);
    var d := s.descs[id];
    assert s.descs[id := d.(state := Executed)][id := d.(state := Reset)] == s.descs[id := d.(state := Reset)];
  }

  // ---- Two runs that do stop ----------------------------------------------

  lemma FirstByteLoads(p: Platform, mem: Memory, a: nat, r: Request)
    requires p.Valid() && p.slots > 0 && a in p.images
    requires p.images[a].world.Secure? && p.images[a].maxSize > 0
    requires r.Copy? && r.id == a && r.src == 1 && |r.data| == 1 && r.imageSize == 1 && r.memOk && r.preOk
    ensures
      var s := Boot(p, mem);
      var out := CopyStep(s, r);
      && out.Done? && out.next.world.NonSecure?
      && |out.next.loaded| > 0 && out.next.loaded[0] == a
      && out.next.descs == s.descs[a := s.descs[a].(size := 1, copied := 1, state := Copied)]
  {
    var s := Boot(p, mem);
    AllClear(Put(s, a, s.descs[a].(size := 1)), a, 0);
    assert s.loaded[0] == INVALID_IMAGE_ID;
    assert a !in s.loaded;
    assert Find(s.loaded, INVALID_IMAGE_ID) == 0;
    var d := s.descs[a].(size := 1, copied := 0);
    var d' := d.(copied := 1, state := Copied);
    assert s.descs[a := d][a := d'] == s.descs[a := d'];
    assert CopyStep(s, r) == CopyBlock(Put(s, a, d), r);
  }

  /** Loading one byte into the first image makes the copy of any other stop the machine. */
  lemma OneByteImageStops(p: Platform, mem: Memory, a: nat, b: nat, x: Byte)
    requires p.Valid() && p.slots > 0 && a != b && a in p.images && b in p.images
    requires p.images[a].world.Secure? && p.images[b].world.Secure?
    requires p.images[a].maxSize > 0 && p.images[b].maxSize > 0
    ensures Run(Boot(p, mem), [Copy(a, 1, [x], 1, true, true), Copy(b, 1, [x], 1, true, true)])
         == Halted(OverlapEnd)
  {
    var c1, c2 := Copy(a, 1, [x], 1, true, true), Copy(b, 1, [x], 1, true, true);
    var s0 := Boot(p, mem);
    FirstByteLoads(p, mem, a, c1);
    var s1 := CopyStep(s0, c1).next;
    SecondCopyStops(s1, a, c2);
    assert [c1, c2][..1] == [c1] && [c1][..0] == [];
    assert Run(s0, []) == Done(Success, s0);
    assert Run(s0, [c1]) == Step(s0, c1);
  }

  lemma SecondCopyStops(s: State, a: nat, r: Request)
    requires r.Copy? && r.id in s.descs && a in s.descs && r.id != a && a != INVALID_IMAGE_ID
    requires s.world.NonSecure? && s.descs[r.id].world.Secure? && s.descs[r.id].state.Reset?
    requires r.src == 1 && |r.data| == 1 && 0 < r.imageSize <= s.descs[r.id].maxSize
    requires |s.loaded| > 0 && s.loaded[0] == a && s.descs[a].size == 1 && !s.descs[a].state.Reset?
    ensures CopyStep(s, r) == Halted(OverlapEnd)
  {
    var sized := Put(s, r.id, s.descs[r.id].(size := r.imageSize));
    assert OverlapsAt(sized, r.id, sized.loaded[0]) == OverlapHalt(OverlapEnd);
    assert CheckOverlaps(sized, r.id, 0) == OverlapHalt(OverlapEnd);
  }

  lemma AllClear(s: State, id: nat, i: nat)
    requires id in s.descs && i <= |s.loaded|
    requires forall k :: i <= k < |s.loaded| ==> s.loaded[k] == INVALID_IMAGE_ID
    ensures CheckOverlaps(s, id, i).Clear?
    decreases |s.loaded| - i
  {
    if i < |s.loaded| { AllClear(s, id, i + 1); }
  }

  /** An interrupted image that the normal world resets leaves `sec_exec_image_id`
      behind, so that resuming it stops the machine. */
  lemma ResetThenResumeStops(p: Platform, s: State, param: nat)
    requires Inv(p, s) && s.world.NonSecure? && s.secExec in s.descs
    requires s.descs[s.secExec].state.Interrupted?
    ensures ResetStep(s, s.secExec).Done?
    ensures ResumeStep(ResetStep(s, s.secExec).next, param) == Halted(ResumeNonSecure)
  {
    LoadedIff(p, s, s.secExec);
  }

  /** One more request. */
  lemma RunOn(s: State, requests: seq<Request>, r: Request)
    ensures Run(s, requests + [r]) ==
      if Run(s, requests).Done? then Step(Run(s, requests).next, r) else Run(s, requests)
  {
    assert (requests + [r])[..|requests|] == requests;
  }

  /** Copy one byte, authenticate it, execute it and interrupt it. */
  function UpToInterrupt(id: nat, x: Byte): seq<Request> {
    [Copy(id, 1, [x], 1, true, true)] + [Auth(id, 1, [x], true, true, true)] + [Execute(id)] + [Resume(0)]
  }

  lemma InterruptReached(p: Platform, mem: Memory, id: nat, x: Byte)
    requires p.Valid() && p.slots > 0 && id in p.images
    requires p.images[id].world.Secure? && p.images[id].executable && p.images[id].maxSize > 0
    ensures
      var out := Run(Boot(p, mem), UpToInterrupt(id, x));
      && out.Done? && out.next.world.NonSecure? && out.next.secExec == id
      && id in out.next.descs && out.next.descs[id].state.Interrupted?
  {
    var s0 := Boot(p, mem);
    var c := Copy(id, 1, [x], 1, true, true);
    FirstByteLoads(p, mem, id, c);
    assert [] + [c] == [c];
    RunOn(s0, [], c);
    AuthorisedRuns(CopyStep(s0, c).next, s0, [c], id, x);
  }

  /** From a copied image to an interrupted one. */
  lemma AuthorisedRuns(s: State, s0: State, requests: seq<Request>, id: nat, x: Byte)
    requires Run(s0, requests).Done? && Run(s0, requests).next == s && s.world.NonSecure? && id in s.descs
    requires s.descs[id].world.Secure? && s.descs[id].executable && s.descs[id].state.Copied?
    ensures
      var out := Run(s0, requests + [Auth(id, 1, [x], true, true, true)] + [Execute(id)] + [Resume(0)]);
      && out.Done? && out.next.world.NonSecure? && out.next.secExec == id
      && id in out.next.descs && out.next.descs[id].state.Interrupted?
  {
    var a := Auth(id, 1, [x], true, true, true);
    RunOn(s0, requests, a);
    RunOn(s0, requests + [a], Execute(id));
    RunOn(s0, requests + [a] + [Execute(id)], Resume(0));
  }

  /** On every platform with a secure executable image: a run of six requests from boot
      that stops the machine at the assertion on a non-secure resume. */
  lemma ResetRunStops(p: Platform, mem: Memory, id: nat, x: Byte)
    requires p.Valid() && p.slots > 0 && id in p.images
    requires p.images[id].world.Secure? && p.images[id].executable && p.images[id].maxSize > 0
    ensures Run(Boot(p, mem), UpToInterrupt(id, x) + [ImageReset(id)] + [Resume(0)]) == Halted(ResumeNonSecure)
  {
    var s0, requests := Boot(p, mem), UpToInterrupt(id, x);
    InterruptReached(p, mem, id, x);
    RunKeeps(p, mem, requests);
    ResetThenResumeStops(p, Run(s0, requests).next, 0);
    RunOn(s0, requests, ImageReset(id));
    RunOn(s0, requests + [ImageReset(id)], Resume(0));
  }
}
