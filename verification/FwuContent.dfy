/** What lies in memory: loaded secure images never overlap, and an image that
    executes holds the bytes that were copied for it and then authenticated. */
module FwuContent {
  import opened Words
  import opened FwuModel
  import opened FwuInvariants

  // ---- Memory -------------------------------------------------------------

  /** Appending a block to a region reads back as the concatenation. */
  lemma ReadAfterAppend(mem: Memory, base: Word64, n: Word32, data: Block)
    requires base + n + |data| <= TWO_64 && n + |data| < TWO_32 && |data| > 0
    ensures Read(Write(mem, base + n, data), base, n + |data|) == Read(mem, base, n) + data
  {
    assert Write(mem, base + n, data)[base..base + n + |data|] == mem[base..base + n] + data;
  }

  lemma ReadElsewhere(mem: Memory, base: Word64, n: Word32, at: Word64, data: Block)
    requires base + n <= TWO_64 && at + |data| <= TWO_64
    requires base + n <= at || at + |data| <= base
    ensures Read(Write(mem, at, data), base, n) == Read(mem, base, n)
  {
    assert Write(mem, at, data)[base..base + n] == mem[base..base + n];
  }

  // ---- The invariant ------------------------------------------------------

  ghost predicate LoadedSecure(s: State, id: nat) {
    id in s.descs && s.descs[id].world.Secure? && !s.descs[id].state.Reset?
  }

  /** What a loaded secure image's own descriptor, history and memory agree on. */
  ghost predicate ContentOk(s: State, id: nat)
    requires id in s.descs
  {
    var d := s.descs[id];
    && d.base + d.size <= TWO_64
    && 0 < d.copied <= d.size && (!d.state.Copying? ==> d.copied == d.size)
    && id in s.accepted && Read(s.mem, d.base, d.copied) == s.accepted[id]
    && (d.state.Authenticated? || d.state.Executed? || d.state.Interrupted? ==>
        id in s.verified && s.verified[id] == s.accepted[id])
  }

  ghost predicate Apart(d: Desc, e: Desc) {
    d.base + d.size <= e.base || e.base + e.size <= d.base
  }

  ghost predicate ContentInv(s: State) {
    && (forall id :: LoadedSecure(s, id) ==> ContentOk(s, id))
    && (forall i, j :: LoadedSecure(s, i) && LoadedSecure(s, j) && i != j ==> Apart(s.descs[i], s.descs[j]))
  }

  /** `id` placed as `d` says would be clear of every other loaded secure image. */
  ghost predicate ApartFromOthers(s: State, id: nat, d: Desc) {
    forall other :: LoadedSecure(s, other) && other != id ==> Apart(s.descs[other], d)
  }

  ghost predicate HistoryKept(s: State, s': State, id: nat) {
    forall other :: other != id ==>
      && (other in s.accepted ==> other in s'.accepted && s'.accepted[other] == s.accepted[other])
      && (other in s.verified ==> other in s'.verified && s'.verified[other] == s.verified[other])
  }

  /** A step that rewrites image `id` and, within the region of `wide`, the memory:
      the other images keep their content, and all stay apart. */
  lemma OthersKeepContent(s: State, s': State, id: nat, wide: Desc, at: Word64, data: Block)
    requires ContentInv(s) && id in s.descs && id in s'.descs && s'.descs == s.descs[id := s'.descs[id]]
    requires wide.base == s'.descs[id].base && s'.descs[id].size <= wide.size
    requires s'.mem == s.mem || (s'.mem == Write(s.mem, at, data)
      && wide.base <= at && at + |data| <= wide.base + wide.size <= TWO_64)
    requires HistoryKept(s, s', id) && ApartFromOthers(s, id, wide)
    requires LoadedSecure(s', id) ==> ContentOk(s', id)
    ensures ContentInv(s')
  {
    forall other | LoadedSecure(s', other)
      ensures ContentOk(s', other)
    {
      if other != id {
        assert LoadedSecure(s, other) && ContentOk(s, other);
        var e := s.descs[other];
        if s'.mem != s.mem { ReadElsewhere(s.mem, e.base, e.copied, at, data); }
      }
    }
    forall i, j | LoadedSecure(s', i) && LoadedSecure(s', j) && i != j
      ensures Apart(s'.descs[i], s'.descs[j])
    {
      if i != id { assert LoadedSecure(s, i); }
      if j != id { assert LoadedSecure(s, j); }
    }
  }

  // ---- Copy ---------------------------------------------------------------

  /** What an accepted block changes. */
  lemma BlockFrame(s: State, r: Request)
    requires r.Copy? && r.id in s.descs && s.descs[r.id].copied < s.descs[r.id].size
    requires s.descs[r.id].base + s.descs[r.id].size <= TWO_64
    requires CopyBlock(s, r).Done? && CopyBlock(s, r).code.Success?
    ensures
      var s', d := CopyBlock(s, r).next, s.descs[r.id];
      var block := Clipped(d, r.data);
      var d' := d.(copied := d.copied + |block|, state := if |block| == d.size - d.copied then Copied else Copying);
      && s'.descs == s.descs[r.id := d']
      && s'.mem == Write(s.mem, d.base + d.copied, block)
      && HistoryKept(s, s', r.id) && r.id in s'.accepted
      && s'.accepted[r.id] == (if d.copied == 0 || r.id !in s.accepted then [] else s.accepted[r.id]) + block
  {
  }

  /** The image's own memory and history still agree after an accepted block. */
  lemma BlockAppends(s: State, s': State, id: nat, block: Block)
    requires id in s.descs && id in s'.descs && id in s'.accepted && |block| > 0
    requires
      var d, d' := s.descs[id], s'.descs[id];
      && d.copied + |block| <= d.size && d.base + d.size <= TWO_64
      && d' == d.(copied := d.copied + |block|, state := if |block| == d.size - d.copied then Copied else Copying)
      && (d.copied != 0 ==> id in s.accepted && Read(s.mem, d.base, d.copied) == s.accepted[id])
      && s'.mem == Write(s.mem, d.base + d.copied, block)
      && s'.accepted[id] == (if d.copied == 0 || id !in s.accepted then [] else s.accepted[id]) + block
    ensures ContentOk(s', id)
  {
    var d := s.descs[id];
    ReadAfterAppend(s.mem, d.base, d.copied, block);
    assert d.copied == 0 ==> Read(s.mem, d.base, d.copied) == [];
  }

  lemma AppendKeepsContent(s: State, s': State, id: nat, block: Block)
    requires ContentInv(s) && id in s.descs && |block| > 0
    requires s.descs[id].copied + |block| <= s.descs[id].size && s.descs[id].base + s.descs[id].size <= TWO_64
    requires
      var d := s.descs[id];
      var d' := d.(copied := d.copied + |block|, state := if |block| == d.size - d.copied then Copied else Copying);
      && (d.copied != 0 ==> id in s.accepted && Read(s.mem, d.base, d.copied) == s.accepted[id])
      && ApartFromOthers(s, id, d)
      && s'.descs == s.descs[id := d'] && s'.mem == Write(s.mem, d.base + d.copied, block)
      && HistoryKept(s, s', id) && id in s'.accepted
      && s'.accepted[id] == (if d.copied == 0 || id !in s.accepted then [] else s.accepted[id]) + block
    ensures ContentInv(s')
  {
    var d := s.descs[id];
    BlockAppends(s, s', id, block);
    OthersKeepContent(s, s', id, d, d.base + d.copied, block);
  }

  lemma CopyBlockContent(p: Platform, s: State, r: Request)
    requires Inv(p, s) && ContentInv(s) && r.Copy? && r.id in s.descs && |r.data| > 0
    requires s.descs[r.id].world.Secure? && (s.descs[r.id].state.Reset? || s.descs[r.id].state.Copying?)
    requires s.descs[r.id].state.Reset? ==> s.descs[r.id].copied == 0 < s.descs[r.id].size
    requires s.descs[r.id].base + s.descs[r.id].size <= TWO_64
    requires ApartFromOthers(s, r.id, s.descs[r.id])
    ensures s.descs[r.id].copied < s.descs[r.id].size
    ensures CopyBlock(s, r).Done? && ContentInv(CopyBlock(s, r).next)
  {
    var d := s.descs[r.id];
    assert CopyOk(d) by { assert ImageOk(p, s, r.id); }
    if d.state.Copying? { assert LoadedSecure(s, r.id) && ContentOk(s, r.id); }
    var slot := TakeSlot(s, r);
    if slot.code.Success? {
      AcceptedBlockContent(s, r);
    } else {
      SameContent(s, slot.next);
    }
  }

  lemma AcceptedBlockContent(s: State, r: Request)
    requires ContentInv(s) && r.Copy? && r.id in s.descs && |r.data| > 0
    requires
      var d := s.descs[r.id];
      && d.copied < d.size && d.base + d.size <= TWO_64
      && (d.copied != 0 ==> r.id in s.accepted && Read(s.mem, d.base, d.copied) == s.accepted[r.id])
      && ApartFromOthers(s, r.id, d)
    requires TakeSlot(s, r).code.Success?
    ensures CopyBlock(s, r).Done? && ContentInv(CopyBlock(s, r).next)
  {
    BlockFrame(s, r);
    AppendKeepsContent(s, CopyBlock(s, r).next, r.id, Clipped(s.descs[r.id], r.data));
  }

  lemma SameContent(s: State, s': State)
    requires ContentInv(s) && s'.descs == s.descs && s'.mem == s.mem
    requires s'.accepted == s.accepted && s'.verified == s.verified
    ensures ContentInv(s')
  {
    forall id | LoadedSecure(s', id) ensures LoadedSecure(s, id) && ContentOk(s', id) {
      assert ContentOk(s, id);
    }
  }

  /** A clear overlap check means the image is apart from every loaded secure image. */
  lemma ClearMeansApart(p: Platform, s: State, sized: State, id: nat)
    requires Inv(p, s) && ContentInv(s) && id in s.descs && sized.loaded == s.loaded
    requires id in sized.descs && SizedFrom(s, sized, id) && CheckOverlaps(sized, id, 0).Clear?
    requires sized.descs[id].size > 0 && sized.descs[id].base + sized.descs[id].size <= TWO_64
    ensures ApartFromOthers(s, id, sized.descs[id])
  {
    var k := FirstBlocked(sized, id, 0);
    forall other | LoadedSecure(s, other) && other != id
      ensures Apart(s.descs[other], sized.descs[id])
    {
      LoadedIff(p, s, other);
      var at :| 0 <= at < |s.loaded| && s.loaded[at] == other;
      assert OverlapsAt(sized, id, s.loaded[at]).Clear?;
      assert ContentOk(s, other);
    }
  }

  /** The state in which the first block of a new image is written. */
  function Ready(s: State, r: Request): State
    requires r.Copy? && r.id in s.descs
  {
    Put(s, r.id, s.descs[r.id].(size := r.imageSize, copied := 0))
  }

  lemma ReadyContent(p: Platform, s: State, r: Request)
    requires Inv(p, s) && p.NonWrapping() && ContentInv(s)
    requires r.Copy? && CopyProceeds(s, r) && s.descs[r.id].state.Reset?
    requires CheckOverlaps(Put(s, r.id, s.descs[r.id].(size := r.imageSize)), r.id, 0).Clear?
    ensures Inv(p, Ready(s, r)) && ContentInv(Ready(s, r))
    ensures ApartFromOthers(Ready(s, r), r.id, Ready(s, r).descs[r.id])
    ensures Ready(s, r).descs[r.id].base + Ready(s, r).descs[r.id].size <= TWO_64
  {
    var d := s.descs[r.id];
    var d' := d.(size := r.imageSize, copied := 0);
    assert ImageOk(p, s, r.id);
    UnloadedKeepsContent(s, Ready(s, r), r.id, d');
    OneImageChanges(p, s, Ready(s, r), r.id, d');
    assert ApartFromOthers(s, r.id, d') by {
      var sized := Put(s, r.id, d.(size := r.imageSize));
      ClearMeansApart(p, s, sized, r.id);
      SameRegionApart(s, r.id, sized.descs[r.id], d');
    }
    OthersUnmoved(s, Ready(s, r), r.id, d');
  }

  lemma SameRegionApart(s: State, id: nat, d: Desc, e: Desc)
    requires ApartFromOthers(s, id, d) && d.base == e.base && d.size == e.size
    ensures ApartFromOthers(s, id, e)
  {
    forall other | LoadedSecure(s, other) && other != id ensures Apart(s.descs[other], e) {
      assert Apart(s.descs[other], d);
    }
  }

  lemma OthersUnmoved(s: State, s': State, id: nat, d: Desc)
    requires ApartFromOthers(s, id, d) && s'.descs == s.descs[id := d]
    ensures ApartFromOthers(s', id, d)
  {
    forall other | LoadedSecure(s', other) && other != id ensures Apart(s'.descs[other], d) {
      assert LoadedSecure(s, other);
    }
  }

  lemma UnloadedKeepsContent(s: State, s': State, id: nat, d: Desc)
    requires ContentInv(s) && id in s.descs && s'.descs == s.descs[id := d]
    requires !LoadedSecure(s', id) && s'.mem == s.mem && HistoryKept(s, s', id)
    ensures ContentInv(s')
  {
    forall other | LoadedSecure(s', other)
      ensures LoadedSecure(s, other) && ContentOk(s', other)
    {
      assert ContentOk(s, other);
    }
  }

  lemma CopyContent(p: Platform, s: State, r: Request)
    requires Inv(p, s) && p.NonWrapping() && ContentInv(s) && r.Copy? && CopyStep(s, r).Done?
    ensures ContentInv(CopyStep(s, r).next)
  {
    if CopyProceeds(s, r) {
      var d := s.descs[r.id];
      if d.state.Copying? {
        assert ImageOk(p, s, r.id);
        assert LoadedSecure(s, r.id) && ContentOk(s, r.id);
        CopyBlockContent(p, s, r);
      } else {
        FirstCopyCases(s, r);
        if CheckOverlaps(Put(s, r.id, d.(size := r.imageSize)), r.id, 0).Clear? {
          ReadyContent(p, s, r);
          CopyBlockContent(p, Ready(s, r), r);
        } else {
          UnloadedKeepsContent(s, Put(s, r.id, d.(size := 0)), r.id, d.(size := 0));
        }
      }
    }
  }

  // ---- The other handlers -------------------------------------------------

  /** The secure world gets a secure image authenticated where it lies, outside the
      image's own region. */
  ghost predicate AuthElsewhere(s: State, r: Request)
    requires r.Auth?
  {
    && s.world.Secure? && r.id in s.descs && s.descs[r.id].world.Secure?
    && AuthStep(s, r).Done? && AuthStep(s, r).code.Success?
  }

  lemma AuthContent(p: Platform, s: State, r: Request)
    requires Inv(p, s) && ContentInv(s) && r.Auth? && !AuthElsewhere(s, r) && AuthStep(s, r).Done?
    ensures ContentInv(AuthStep(s, r).next)
  {
    var s' := AuthStep(s, r).next;
    if s' != s {
      assert ImageOk(p, s, r.id);
      if s.descs[r.id].state.Copied? {
        VerdictContent(s, r);
      } else {
        InPlaceContent(s, r);
      }
    }
  }

  lemma VerdictContent(s: State, r: Request)
    requires ContentInv(s) && r.Auth? && LoadedSecure(s, r.id) && s.descs[r.id].state.Copied?
    ensures
      var d := s.descs[r.id];
      var out := Verdict(s, r, Read(s.mem, d.base, d.size));
      out.Done? ==> ContentInv(out.next)
  {
    var d := s.descs[r.id];
    assert ContentOk(s, r.id);
    var out := Verdict(s, r, Read(s.mem, d.base, d.size));
    if out.Done? { OthersKeepContent(s, out.next, r.id, d, d.base, Zeroes(d.size)); }
  }

  /** Authenticating a non-secure image where it lies, or failing to authenticate any,
      touches no loaded secure image. */
  lemma InPlaceContent(s: State, r: Request)
    requires ContentInv(s) && r.Auth? && !AuthElsewhere(s, r) && r.id in s.descs && !s.descs[r.id].state.Copied?
    requires AuthStep(s, r).Done?
    ensures ContentInv(AuthStep(s, r).next)
  {
    var d, s' := s.descs[r.id], AuthStep(s, r).next;
    if s' != s {
      var sized := d.(size := |r.data|);
      var d' := if r.authOk then sized.(state := Authenticated) else sized;
      assert s.descs[r.id := sized][r.id := d'] == s.descs[r.id := d'];
      UnloadedKeepsContent(s, s', r.id, d');
    }
  }

  lemma ControlContent(p: Platform, s: State, r: Request)
    requires Inv(p, s) && ContentInv(s) && !r.Copy? && !r.Auth? && Step(s, r).Done?
    ensures ContentInv(Step(s, r).next)
  {
    var s' := Step(s, r).next;
    if s' != s {
      var id := if r.Execute? || r.ImageReset? then r.id else s.secExec;
      assert ImageOk(p, s, id);
      var d := s.descs[id];
      if LoadedSecure(s, id) {
        assert ContentOk(s, id);
        OthersKeepContent(s, s', id, d, d.base, Zeroes(d.copied));
      } else {
        UnloadedKeepsContent(s, s', id, s'.descs[id]);
      }
    }
  }

  // ---- Runs ---------------------------------------------------------------

  /** No such authentication happens in the run. */
  ghost predicate AuthInPlaceOnly(s: State, requests: seq<Request>)
    decreases |requests|
  {
    requests == [] ||
    var last := |requests| - 1;
    && AuthInPlaceOnly(s, requests[..last])
    && (requests[last].Auth? && Run(s, requests[..last]).Done? ==>
        !AuthElsewhere(Run(s, requests[..last]).next, requests[last]))
  }

  lemma {:induction false} RunContent(p: Platform, mem: Memory, requests: seq<Request>)
    requires p.Valid() && p.NonWrapping() && AuthInPlaceOnly(Boot(p, mem), requests)
    ensures Run(Boot(p, mem), requests).Done? ==> ContentInv(Run(Boot(p, mem), requests).next)
    decreases |requests|
  {
    if requests != [] {
      var last := |requests| - 1;
      RunContent(p, mem, requests[..last]);
      match Run(Boot(p, mem), requests[..last])
      case Halted(_) =>
      case Done(_, s) =>
        RunKeeps(p, mem, requests[..last]);
        var r := requests[last];
        if Step(s, r).Done? {
          match r
          case Copy(_, _, _, _, _, _) => CopyContent(p, s, r);
          case Auth(_, _, _, _, _, _) => AuthContent(p, s, r);
          case _ => ControlContent(p, s, r);
        }
    }
  }

  /** Over every run: loaded secure images occupy disjoint regions. */
  lemma LoadedImagesDisjoint(p: Platform, mem: Memory, requests: seq<Request>, i: nat, j: nat)
    requires p.Valid() && p.NonWrapping() && AuthInPlaceOnly(Boot(p, mem), requests)
    requires Run(Boot(p, mem), requests).Done?
    requires i != j
    requires
      var s := Run(Boot(p, mem), requests).next;
      LoadedSecure(s, i) && LoadedSecure(s, j)
    ensures
      var s := Run(Boot(p, mem), requests).next;
      || s.descs[i].base + s.descs[i].size <= s.descs[j].base
      || s.descs[j].base + s.descs[j].size <= s.descs[i].base
  {
    RunContent(p, mem, requests);
    assert Apart(Run(Boot(p, mem), requests).next.descs[i], Run(Boot(p, mem), requests).next.descs[j]);
  }

  /** Over every run: a secure image that executes holds, over the whole of its
      size, the concatenation of its accepted blocks, which is what was authenticated. */
  lemma ExecutedImageIsVerified(p: Platform, mem: Memory, requests: seq<Request>, id: nat)
    requires p.Valid() && p.NonWrapping() && AuthInPlaceOnly(Boot(p, mem), requests)
    requires Run(Boot(p, mem), requests).Done?
    requires
      var s := Run(Boot(p, mem), requests).next;
      id in s.descs && s.descs[id].world.Secure? && s.descs[id].state.Executed?
    ensures
      var s := Run(Boot(p, mem), requests).next;
      && id in s.accepted && id in s.verified
      && Read(s.mem, s.descs[id].base, s.descs[id].size) == s.accepted[id] == s.verified[id]
  {
    RunContent(p, mem, requests);
    assert LoadedSecure(Run(Boot(p, mem), requests).next, id);
  }
}
