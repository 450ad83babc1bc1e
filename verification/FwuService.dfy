/** The FWU service as BL1 runs it: static variables updated in place. Each
    handler is proved to do what its function in FwuModel says. */
module FwuService {
  import opened Words
  import opened FwuModel
  import opened FwuInvariants
  import opened FwuContent

  datatype Reply = Returned(code: Code) | Stopped(site: Site)

  class Service {
    var descs: map<nat, Desc>
    var loadedIds: array<nat>
    var secExecImageId: nat
    var world: World
    var mem: Memory
    var authFlags: set<nat>
    ghost var accepted: map<nat, seq<Byte>>
    ghost var verified: map<nat, seq<Byte>>

    constructor (p: Platform, memory: Memory)
      requires p.Valid()
      ensures View() == Boot(p, memory) && fresh(loadedIds)
    {
      descs := p.images[p.bootId := p.images[p.bootId].(state := Executed)];
      loadedIds := new nat[p.slots](_ => INVALID_IMAGE_ID);
      secExecImageId := INVALID_IMAGE_ID;
      world := NonSecure;
      mem := memory;
      authFlags := {};
      accepted, verified := map[], map[];
    }

    ghost function View(): State
      reads this, loadedIds
    {
      State(descs, loadedIds[..], secExecImageId, world, mem, authFlags, accepted, verified)
    }

    /** The reply and the new state are those of `outcome`; after a stop there is no state. */
    twostate predicate Does(outcome: Outcome, reply: Reply)
      reads this, loadedIds
    {
      && loadedIds == old(loadedIds)
      && match outcome
         case Done(code, next) => reply == Returned(code) && View() == next
         case Halted(site) => reply == Stopped(site)
    }

    // ---- The table of loaded images ---------------------------------------

    method IndexOf(id: nat) returns (i: nat)
      ensures i == Find(loadedIds[..], id)
    {
      i := 0;
      while i < loadedIds.Length && loadedIds[i] != id
        invariant i <= loadedIds.Length
        invariant id !in loadedIds[..i]
      {
        i := i + 1;
      }
    }

    method AddLoadedId(id: nat) returns (ok: bool)
      modifies loadedIds
      ensures var t := AddLoaded(old(loadedIds[..]), id);
        ok == t.Some? && loadedIds[..] == if ok then t.value else old(loadedIds[..])
    {
      var i := IndexOf(id);
      if i < loadedIds.Length { return true; }
      i := IndexOf(INVALID_IMAGE_ID);
      if i == loadedIds.Length { return false; }
      loadedIds[i] := id;
      return true;
    }

    method RemoveLoadedId(id: nat) returns (ok: bool)
      modifies loadedIds
      ensures var t := RemoveLoaded(old(loadedIds[..]), id);
        ok == t.Some? && loadedIds[..] == if ok then t.value else old(loadedIds[..])
    {
      var i := IndexOf(id);
      if i == loadedIds.Length { return false; }
      loadedIds[i] := INVALID_IMAGE_ID;
      return true;
    }

    method ImageCheckOverlaps(id: nat) returns (result: Overlap)
      requires id in descs
      ensures result == CheckOverlaps(View(), id, 0)
    {
      var i := 0;
      while i < loadedIds.Length
        invariant i <= loadedIds.Length
        invariant CheckOverlaps(View(), id, 0) == CheckOverlaps(View(), id, i)
      {
        var entry := loadedIds[i];
        if entry != INVALID_IMAGE_ID && entry != id {
          if entry !in descs || descs[entry].state.Reset? { return OverlapHalt(OverlapState); }
          if descs[entry].size != 0 {
            var base, end := descs[entry].base, End(descs[entry]);
            if end <= base { return OverlapHalt(OverlapEnd); }
            if !(end < descs[id].base || End(descs[id]) < base) { return Overlapping; }
          }
        }
        i := i + 1;
      }
      result := Clear;
    }

    // ---- Handlers ---------------------------------------------------------

    method ImageCopy(r: Request) returns (reply: Reply)
      requires r.Copy?
      modifies this, loadedIds
      ensures Does(CopyStep(old(View()), r), reply)
    {
      if r.id !in descs { return Returned(EPERM); }
      var d := descs[r.id];
      if world.Secure? || d.world.NonSecure? { return Returned(EPERM); }
      if !d.state.Reset? && !d.state.Copying? { return Returned(EPERM); }
      if r.src == 0 || |r.data| == 0 || r.src > UINTPTR_MAX - |r.data| { return Returned(ENOMEM); }
      if d.state.Copying? {
        if d.copied == 0 || d.size == 0 || d.copied >= d.size { return Stopped(CopyProgress); }
      } else {
        if r.imageSize == 0 || r.imageSize > d.maxSize { return Returned(ENOMEM); }
        descs := descs[r.id := d.(size := r.imageSize)];
        ghost var sized := Put(old(View()), r.id, d.(size := r.imageSize));
        assert View() == sized;
        var overlap := ImageCheckOverlaps(r.id);
        if overlap.OverlapHalt? { return Stopped(overlap.site); }
        if overlap.Overlapping? {
          descs := descs[r.id := d.(size := 0)];
          assert descs == old(descs)[r.id := d.(size := 0)];
          return Returned(EPERM);
        }
        descs := descs[r.id := d.(size := r.imageSize, copied := 0)];
        assert descs == old(descs)[r.id := d.(size := r.imageSize, copied := 0)];
      }
      reply := CopyOneBlock(r);
    }

    method CopyOneBlock(r: Request) returns (reply: Reply)
      requires r.Copy? && r.id in descs && descs[r.id].copied <= descs[r.id].size
      modifies this, loadedIds
      ensures Does(CopyBlock(old(View()), r), reply)
    {
      reply := GetSlot(r);
      if !reply.code.Success? { return; }
      CommitBlock(r);
    }

    method GetSlot(r: Request) returns (reply: Reply)
      requires r.Copy? && r.id in descs
      modifies loadedIds
      ensures reply.Returned? && Does(TakeSlot(old(View()), r), reply)
    {
      if !r.memOk { return Returned(ENOMEM); }
      var ok := AddLoadedId(r.id);
      if !ok { return Returned(ENOMEM); }
      if descs[r.id].state.Reset? && !r.preOk {
        ok := RemoveLoadedId(r.id);
        return Returned(EPERM);
      }
      return Returned(Success);
    }

    /** The end of an accepted copy: the memory, the descriptor and the history change together. */
    method CommitBlock(r: Request)
      requires r.Copy? && r.id in descs && descs[r.id].copied <= descs[r.id].size
      modifies this
      ensures loadedIds == old(loadedIds) && View() == WriteBlock(old(View()), r)
    {
      var d := descs[r.id];
      var block := Clipped(d, r.data);
      CopyToMemory(Wrap(d.base + d.copied), block);
      RecordBlock(r.id, d.copied == 0, block);
      descs := descs[r.id := Advanced(d, |block|)];
    }

    method CopyToMemory(at: Word64, block: Block)
      modifies `mem
      ensures mem == Write(old(mem), at, block)
    {
      mem := Write(mem, at, block);
    }

    /** History only. */
    ghost method RecordBlock(id: nat, first: bool, block: Block)
      modifies `accepted
      ensures accepted == Joined(old(accepted), id, first, block)
    {
      accepted := Joined(accepted, id, first, block);
    }

    method ImageAuth(r: Request) returns (reply: Reply)
      requires r.Auth?
      modifies this, loadedIds
      ensures Does(AuthStep(old(View()), r), reply)
    {
      if r.id !in descs { return Returned(EPERM); }
      var d := descs[r.id];
      if world.Secure? {
        if !d.state.Reset? { return Returned(EPERM); }
      } else if d.world.Secure? {
        if !d.state.Copied? { return Returned(EPERM); }
      } else {
        if !d.state.Reset? { return Returned(EPERM); }
      }
      var bytes: seq<Byte>;
      if d.state.Copied? {
        bytes := Read(mem, d.base, d.size);
      } else {
        if r.src == 0 || |r.data| == 0 || r.src > UINTPTR_MAX - |r.data| { return Returned(ENOMEM); }
        if !r.memOk { return Returned(ENOMEM); }
        var ok := AddLoadedId(r.id);
        if !ok { return Returned(ENOMEM); }
        bytes := r.data;
        descs := descs[r.id := d.(size := |r.data|)];
      }
      reply := Judge(r, bytes);
    }

    method Judge(r: Request, bytes: seq<Byte>) returns (reply: Reply)
      requires r.Auth? && r.id in descs
      modifies this, loadedIds
      ensures Does(Verdict(old(View()), r, bytes), reply)
    {
      var d := descs[r.id];
      if !r.authOk {
        if d.state.Copied? {
          mem := Write(mem, d.base, Zeroes(d.size));
          descs := descs[r.id := d.(state := Reset)];
        }
        var _ := RemoveLoadedId(r.id);
        return Returned(EAUTH);
      }
      descs := descs[r.id := d.(state := Authenticated)];
      authFlags := authFlags + {r.id};
      verified := verified[r.id := bytes];
      if !r.postOk { return Stopped(PostImageLoad); }
      return Returned(Success);
    }

    /** `bl1_prepare_next_image`: the image is about to run in its own world. */
    method PrepareNextImage(id: nat)
      requires id in descs
      modifies this
      ensures View() == Put(old(View()), id, old(descs)[id].(state := Executed)).(world := old(descs)[id].world)
      ensures loadedIds == old(loadedIds)
    {
      world := descs[id].world;
      descs := descs[id := descs[id].(state := Executed)];
    }

    method ImageExecute(id: nat) returns (reply: Reply)
      modifies this
      ensures Does(ExecuteStep(old(View()), id), reply)
    {
      if id !in descs || world.Secure? || descs[id].world.NonSecure?
         || !descs[id].executable || !descs[id].state.Authenticated? {
        return Returned(EPERM);
      }
      PrepareNextImage(id);
      secExecImageId := id;
      return Returned(Success);
    }

    method ImageResume(param: nat) returns (reply: Reply)
      modifies this
      ensures Does(ResumeStep(old(View()), param), reply)
    {
      if secExecImageId !in descs {
        return if world.NonSecure? then Returned(EPERM) else Stopped(ResumeImage);
      }
      var d := descs[secExecImageId];
      if d.world.NonSecure? || !d.executable { return Stopped(ResumeImage); }
      if world.Secure? {
        if !d.state.Executed? { return Stopped(ResumeSecure); }
        descs := descs[secExecImageId := d.(state := Interrupted)];
        world := NonSecure;
      } else {
        if !d.state.Interrupted? { return Stopped(ResumeNonSecure); }
        descs := descs[secExecImageId := d.(state := Executed)];
        world := Secure;
      }
      return Returned(Param(param));
    }

    method ImageDone() returns (reply: Reply)
      modifies this, loadedIds
      ensures Does(SecImageDoneStep(old(View())), reply)
    {
      if world.NonSecure? { return Returned(EPERM); }
      if secExecImageId !in descs { return Stopped(DoneImage); }
      var d := descs[secExecImageId];
      if d.world.NonSecure? || !d.executable || !d.state.Executed? { return Stopped(DoneImage); }
      var ok := RemoveLoadedId(secExecImageId);
      if !ok { return Stopped(DoneTable); }
      descs := descs[secExecImageId := d.(state := Reset)];
      secExecImageId := INVALID_IMAGE_ID;
      world := NonSecure;
      return Returned(Success);
    }

    method ResetImage(id: nat) returns (reply: Reply)
      modifies this, loadedIds
      ensures Does(ResetStep(old(View()), id), reply)
    {
      if id !in descs || world.Secure? { return Returned(EPERM); }
      var d := descs[id];
      if d.state.Reset? { return Returned(Success); }
      if d.state.Executed? { return Stopped(ResetExecuted); }
      var ok := RemoveLoadedId(id);
      if !ok { return Returned(EPERM); }
      if d.copied != 0 {
        if d.world.NonSecure? { return Stopped(ResetSecurity); }
        mem := Write(mem, d.base, Zeroes(d.copied));
      }
      descs := descs[id := d.(copied := 0, size := 0, state := Reset)];
      authFlags := authFlags - {id};
      return Returned(Success);
    }

    /** `bl1_fwu_smc_handler`. */
    method Serve(r: Request) returns (reply: Reply)
      modifies this, loadedIds
      ensures Does(Step(old(View()), r), reply)
    {
      match r
      case Copy(_, _, _, _, _, _) => reply := ImageCopy(r);
      case Auth(_, _, _, _, _, _) => reply := ImageAuth(r);
      case Execute(id) => reply := ImageExecute(id);
      case Resume(param) => reply := ImageResume(param);
      case SecImageDone => reply := ImageDone();
      case ImageReset(id) => reply := ResetImage(id);
      case UpdateDone => reply := Stopped(Finished);
    }

    /** Any requests, one after the other from boot, up to one that stops the machine. What
        is kept holds in the end, and loaded secure images lie apart and hold their content. */
    method ServeAll(ghost p: Platform, ghost memory: Memory, requests: seq<Request>)
      returns (replies: seq<Reply>)
      requires p.Valid() && View() == Boot(p, memory)
      modifies this, loadedIds
      ensures |replies| <= |requests| && (forall i :: 0 <= i < |replies| - 1 ==> replies[i].Returned?)
      ensures |replies| < |requests| ==> replies != [] && replies[|replies| - 1].Stopped?
      ensures replies != [] && replies[|replies| - 1].Stopped? ==>
        Run(Boot(p, memory), requests[..|replies|]) == Halted(replies[|replies| - 1].site)
      ensures replies == [] || replies[|replies| - 1].Returned? ==>
        && Run(Boot(p, memory), requests).Done? && View() == Run(Boot(p, memory), requests).next
        && Inv(p, View())
        && (p.NonWrapping() && AuthInPlaceOnly(Boot(p, memory), requests) ==> ContentInv(View()))
    {
      replies := [];
      for i := 0 to |requests|
        invariant |replies| == i && forall j :: 0 <= j < i ==> replies[j].Returned?
        invariant loadedIds == old(loadedIds)
        invariant Run(Boot(p, memory), requests[..i]).Done? && View() == Run(Boot(p, memory), requests[..i]).next
      {
        RunOn(Boot(p, memory), requests[..i], requests[i]);
        assert requests[..i] + [requests[i]] == requests[..i + 1];
        var reply := Serve(requests[i]);
        replies := replies + [reply];
        if reply.Stopped? { return; }
      }
      assert requests[..|requests|] == requests;
      RunKeeps(p, memory, requests);
      if p.NonWrapping() && AuthInPlaceOnly(Boot(p, memory), requests) { RunContent(p, memory, requests); }
    }
  }
}
