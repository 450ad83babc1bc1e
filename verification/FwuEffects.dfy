/** What the FWU handlers leave behind: which requests are accepted, and that copied bytes
    do not outlive a reset or a failed authentication. */
module FwuEffects {
  import opened Words
  import opened FwuModel
  import opened FwuInvariants
  import opened FwuContent

  // ---- Which requests are accepted -------------------------------------------

  /** The table has or can take the image. */
  predicate HasRoom(s: State, id: nat) {
    id in s.loaded || INVALID_IMAGE_ID in s.loaded
  }

  lemma AllPassable(s: State, id: nat)
    requires id in s.descs && 0 < s.descs[id].size && NoneStale(s, id)
    ensures CheckOverlaps(s, id, 0).Clear? <==>
      forall k :: 0 <= k < |s.loaded| ==> Passable(s, id, s.descs[id].size, s.loaded[k])
  {
    forall k | 0 <= k < |s.loaded|
      ensures OverlapsAt(s, id, s.loaded[k]).Clear? <==> Passable(s, id, s.descs[id].size, s.loaded[k])
    {
      assert s.loaded[k] in s.loaded;
      EntryCases(s, id, s.loaded[k]);
    }
    var first := FirstBlocked(s, id, 0);
  }

  /** A copy is accepted exactly when its arguments are in order, its source is mapped, there
      is room in the table and, if it is the first of its image, the image meets no loaded
      one and the platform agrees. */
  lemma CopyAcceptedIff(p: Platform, s: State, r: Request)
    requires Inv(p, s) && r.Copy?
    ensures CopyStep(s, r).Done? && CopyStep(s, r).code.Success? <==>
      && CopyProceeds(s, r) && r.memOk && HasRoom(s, r.id)
      && (s.descs[r.id].state.Reset? ==>
          && r.preOk
          && forall k :: 0 <= k < |s.loaded| ==> Passable(s, r.id, r.imageSize, s.loaded[k]))
  {
    if CopyProceeds(s, r) {
      assert ImageOk(p, s, r.id);
      if s.descs[r.id].state.Reset? { FirstCopyAcceptedIff(p, s, r); }
    }
  }

  /** The part that all copies share. */
  lemma BlockAcceptedIff(s: State, r: Request)
    requires r.Copy? && r.id in s.descs && s.descs[r.id].copied <= s.descs[r.id].size
    ensures CopyBlock(s, r).Done? && (CopyBlock(s, r).code.Success? <==>
      r.memOk && HasRoom(s, r.id) && (s.descs[r.id].state.Reset? ==> r.preOk))
  {
  }

  lemma SizedPassable(s: State, id: nat, size: Word32)
    requires id in s.descs && 0 < size
    ensures forall e: nat ::
      Passable(s, id, size, e) <==> Passable(Put(s, id, s.descs[id].(size := size)), id, size, e)
  {
  }

  /** The overlap check of a first copy passes exactly when the image meets no loaded one. */
  lemma FirstCopyClearIff(p: Platform, s: State, r: Request)
    requires Inv(p, s) && r.Copy? && CopyProceeds(s, r) && s.descs[r.id].state.Reset?
    ensures CheckOverlaps(Put(s, r.id, s.descs[r.id].(size := r.imageSize)), r.id, 0).Clear? <==>
      forall k :: 0 <= k < |s.loaded| ==> Passable(s, r.id, r.imageSize, s.loaded[k])
  {
    var sized := Put(s, r.id, s.descs[r.id].(size := r.imageSize));
    forall e | e in s.loaded && e != INVALID_IMAGE_ID && e != r.id
      ensures e in sized.descs && !sized.descs[e].state.Reset?
    {
      LoadedIff(p, s, e);
    }
    AllPassable(sized, r.id);
    SizedPassable(s, r.id, r.imageSize);
  }

  lemma FirstCopyAcceptedIff(p: Platform, s: State, r: Request)
    requires Inv(p, s) && r.Copy? && CopyProceeds(s, r) && s.descs[r.id].state.Reset?
    ensures CopyStep(s, r).Done? && CopyStep(s, r).code.Success? <==>
      && r.memOk && HasRoom(s, r.id) && r.preOk
      && forall k :: 0 <= k < |s.loaded| ==> Passable(s, r.id, r.imageSize, s.loaded[k])
  {
    FirstCopyCases(s, r);
    FirstCopyClearIff(p, s, r);
    var d := s.descs[r.id];
    BlockAcceptedIff(Put(s, r.id, d.(size := r.imageSize, copied := 0)), r);
  }

  /** An image of this size would meet no loaded one. */
  predicate Fits(s: State, id: nat, size: nat)
    requires id in s.descs && 0 < size < TWO_32
  {
    forall k :: 0 <= k < |s.loaded| ==> Passable(s, id, size, s.loaded[k])
  }

  /** The address and size arguments name no memory. */
  predicate BadSource(src: Word64, data: Block) {
    src == 0 || |data| == 0 || src + |data| > UINTPTR_MAX
  }

  /** A copy that the normal world may make of this image is refused for want of memory
      exactly when its arguments name none, the image is empty or too large, the source is
      not mapped or the table is full. What else is refused, is so for want of permission. */
  lemma CopyRefusals(p: Platform, s: State, r: Request)
    requires Inv(p, s) && r.Copy? && CopyStep(s, r).Done?
    ensures CopyStep(s, r).code in {Success, EPERM, ENOMEM}
    ensures CopyStep(s, r).code == ENOMEM <==>
      && s.world.NonSecure? && r.id in s.descs && s.descs[r.id].world.Secure?
      && s.descs[r.id].state in {Reset, Copying}
      && (|| BadSource(r.src, r.data)
          || (s.descs[r.id].state.Reset? && (r.imageSize == 0 || r.imageSize > s.descs[r.id].maxSize))
          || ((s.descs[r.id].state.Reset? ==> Fits(s, r.id, r.imageSize)) && (!r.memOk || !HasRoom(s, r.id))))
  {
    if CopyProceeds(s, r) {
      assert ImageOk(p, s, r.id);
      if s.descs[r.id].state.Reset? { FirstCopyRefusals(p, s, r); }
    }
  }

  lemma FirstCopyRefusals(p: Platform, s: State, r: Request)
    requires Inv(p, s) && r.Copy? && CopyProceeds(s, r) && s.descs[r.id].state.Reset? && CopyStep(s, r).Done?
    ensures CopyStep(s, r).code in {Success, EPERM, ENOMEM}
    ensures CopyStep(s, r).code == ENOMEM <==> Fits(s, r.id, r.imageSize) && (!r.memOk || !HasRoom(s, r.id))
  {
    FirstCopyCases(s, r);
    FirstCopyClearIff(p, s, r);
  }

  /** An authentication is refused for want of memory exactly when the image is to be
      authenticated where it lies and the arguments name no memory, or none that is mapped,
      or the table is full. */
  lemma AuthRefusals(s: State, r: Request)
    requires r.Auth? && AuthStep(s, r).Done?
    ensures AuthStep(s, r).code in {Success, EPERM, ENOMEM, EAUTH}
    ensures AuthStep(s, r).code == ENOMEM <==>
      && r.id in s.descs && s.descs[r.id].state.Reset? && (s.world.Secure? || s.descs[r.id].world.NonSecure?)
      && (BadSource(r.src, r.data) || !r.memOk || !HasRoom(s, r.id))
  {
    if AuthProceeds(s, r) { ProceedsToVerdict(s, r); }
  }

  /** An authentication that proceeds is decided by the module's verdict. */
  lemma ProceedsToVerdict(s: State, r: Request)
    requires r.Auth? && AuthProceeds(s, r)
    ensures s.descs[r.id].state.Copied? ==>
      AuthStep(s, r) == Verdict(s, r, Read(s.mem, s.descs[r.id].base, s.descs[r.id].size))
    ensures s.descs[r.id].state.Reset? ==>
      && AddLoaded(s.loaded, r.id).Some? && r.id in AddLoaded(s.loaded, r.id).value
      && AuthStep(s, r) == Verdict(
           Put(s, r.id, s.descs[r.id].(size := |r.data|)).(loaded := AddLoaded(s.loaded, r.id).value), r, r.data)
  {
    if s.descs[r.id].state.Reset? && r.id !in s.loaded {
      var i := Find(s.loaded, INVALID_IMAGE_ID);
      assert s.loaded[i := r.id][i] == r.id;
    }
  }

  /** The module judges exactly the requests that proceed to it, and its verdict decides. */
  lemma AuthAcceptedIff(s: State, r: Request)
    requires r.Auth?
    ensures AuthStep(s, r).Done? && AuthStep(s, r).code.Success? <==> AuthProceeds(s, r) && r.authOk && r.postOk
    ensures AuthStep(s, r).Done? && AuthStep(s, r).code.EAUTH? <==> AuthProceeds(s, r) && !r.authOk
  {
    if AuthProceeds(s, r) { ProceedsToVerdict(s, r); }
  }

  /** An image authenticated where it lies: its size and the bytes verified are those of
      the request, it has a slot, and no memory is touched. */
  lemma InPlaceEffect(s: State, r: Request)
    requires r.Auth? && AuthProceeds(s, r) && s.descs[r.id].state.Reset? && r.authOk && r.postOk
    ensures
      var s' := AuthStep(s, r).next;
      && s'.descs == s.descs[r.id := s.descs[r.id].(size := |r.data|, state := Authenticated)]
      && r.id in s'.loaded && r.id in s'.authFlags && s'.mem == s.mem
      && r.id in s'.verified && s'.verified[r.id] == r.data
  {
    ProceedsToVerdict(s, r);
    var d := s.descs[r.id].(size := |r.data|);
    assert s.descs[r.id := d][r.id := d.(state := Authenticated)] == s.descs[r.id := d.(state := Authenticated)];
  }

  /** The normal world can start exactly an authenticated, executable, secure image. */
  lemma ExecuteAcceptedIff(p: Platform, s: State, id: nat)
    requires Inv(p, s)
    ensures ExecuteStep(s, id).Done? && (ExecuteStep(s, id).code.Success? <==>
      && s.world.NonSecure? && id in p.images && p.images[id].world.Secure? && p.images[id].executable
      && s.descs[id].state.Authenticated?)
  {
    if id in s.descs { assert ImageOk(p, s, id); }
  }

  /** A resume is refused exactly when the normal world asks and no image was started. */
  lemma ResumeRefusedIff(p: Platform, s: State, param: nat)
    requires Inv(p, s) && ResumeStep(s, param).Done?
    ensures ResumeStep(s, param).code == EPERM <==> s.world.NonSecure? && s.secExec == INVALID_IMAGE_ID
    ensures ResumeStep(s, param).code != EPERM ==>
      ResumeStep(s, param).code == Param(param) && ResumeStep(s, param).next.world != s.world
  {
  }

  /** A reset is accepted exactly from the normal world for any image but the booted one,
      and done exactly from the secure world. */
  lemma ResetAcceptedIff(p: Platform, s: State, id: nat)
    requires Inv(p, s)
    ensures ResetStep(s, id).Done? && ResetStep(s, id).code.Success? <==>
      s.world.NonSecure? && id in p.images && id != p.bootId
  {
    ResetKeeps(p, s, id);
    if id in s.descs && id != p.bootId { LoadedIff(p, s, id); }
  }

  lemma DoneAcceptedIff(p: Platform, s: State)
    requires Inv(p, s)
    ensures SecImageDoneStep(s).Done? && (SecImageDoneStep(s).code.Success? <==> s.world.Secure?)
  {
    DoneKeeps(p, s);
  }

  // ---- Copied bytes are wiped --------------------------------------------------

  /** `n` bytes from `base` on are zero, and all other bytes are as they were. */
  ghost predicate Wiped(mem: Memory, mem': Memory, base: nat, n: nat) {
    && base + n <= TWO_64 && mem'[base..base + n] == Zeroes(n)
    && mem'[..base] == mem[..base] && mem'[base + n..] == mem[base + n..]
  }

  lemma WriteZeroes(mem: Memory, base: Word64, n: Word32)
    requires base + n <= TWO_64
    ensures Wiped(mem, Write(mem, base, Zeroes(n)), base, n)
  {
  }

  /** The image is out of the table and in state RESET. */
  ghost predicate Unloaded(s: State, id: nat) {
    id in s.descs && s.descs[id].state.Reset? && id !in s.loaded
  }

  /** A reset of a loaded secure image succeeds, wipes exactly what was copied and takes
      the authentication back. */
  lemma ResetWipes(p: Platform, s: State, id: nat)
    requires Inv(p, s) && ContentInv(s) && s.world.NonSecure? && LoadedSecure(s, id)
    ensures
      var out := Step(s, ImageReset(id));
      && out.Done? && out.code.Success? && Unloaded(out.next, id) && id !in out.next.authFlags
      && Wiped(s.mem, out.next.mem, s.descs[id].base, s.descs[id].copied)
      && out.next.descs[id].size == 0 == out.next.descs[id].copied
  {
    assert ImageOk(p, s, id) && ContentOk(s, id);
    ResetKeeps(p, s, id);
    LoadedIff(p, s, id);
    WriteZeroes(s.mem, s.descs[id].base, s.descs[id].copied);
    LoadedIff(p, ResetStep(s, id).next, id);
  }

  /** So does an authentication that fails, for the whole of the image. */
  lemma FailedAuthWipes(p: Platform, s: State, r: Request)
    requires Inv(p, s) && ContentInv(s) && r.Auth? && s.world.NonSecure? && !r.authOk
    requires LoadedSecure(s, r.id) && s.descs[r.id].state.Copied?
    ensures
      var out := Step(s, r);
      && out.Done? && out.code.EAUTH? && Unloaded(out.next, r.id)
      && Wiped(s.mem, out.next.mem, s.descs[r.id].base, s.descs[r.id].size)
  {
    assert ContentOk(s, r.id);
    AuthKeeps(p, s, r);
    WriteZeroes(s.mem, s.descs[r.id].base, s.descs[r.id].size);
    LoadedIff(p, AuthStep(s, r).next, r.id);
  }

  /** Over runs: whatever was copied to a secure image is gone once it is reset, or once its
      authentication has failed. */
  lemma RunWipes(p: Platform, mem: Memory, requests: seq<Request>, r: Request)
    requires p.Valid() && p.NonWrapping() && AuthInPlaceOnly(Boot(p, mem), requests)
    requires Run(Boot(p, mem), requests).Done?
    requires r.ImageReset? || (r.Auth? && !r.authOk)
    requires
      var s := Run(Boot(p, mem), requests).next;
      s.world.NonSecure? && LoadedSecure(s, r.id) && (r.Auth? ==> s.descs[r.id].state.Copied?)
    ensures
      var s, out := Run(Boot(p, mem), requests).next, Run(Boot(p, mem), requests + [r]);
      && out.Done? && Unloaded(out.next, r.id)
      && Wiped(s.mem, out.next.mem, s.descs[r.id].base, s.descs[r.id].copied)
  {
    RunKeeps(p, mem, requests);
    RunContent(p, mem, requests);
    RunOn(Boot(p, mem), requests, r);
    var s := Run(Boot(p, mem), requests).next;
    assert ContentOk(s, r.id);
    if r.ImageReset? { ResetWipes(p, s, r.id); } else { FailedAuthWipes(p, s, r); }
  }
}
