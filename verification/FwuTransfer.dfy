/** Copied images against what was sent: over every run a loaded secure image holds the
    bytes that the normal world sent for it, in the order in which it sent them. */
module FwuTransfer {
  import opened Words
  import opened FwuModel
  import opened FwuInvariants
  import opened FwuContent

  /** The request is a copy to this image, and it is accepted. */
  ghost predicate Copies(s: State, r: Request, id: nat) {
    r.Copy? && r.id == id && Step(s, r).Done? && Step(s, r).code.Success?
  }

  /** What was sent once the request is served: an accepted block goes behind the ones
      before it, or starts the image anew. */
  ghost function SentNext(s: State, sent: seq<Byte>, r: Request, id: nat): seq<Byte> {
    if !Copies(s, r, id) then sent
    else if id in s.descs && s.descs[id].state.Copying? then sent + r.data
    else r.data
  }

  /** The bytes sent for the image in a run, from the first accepted block on. */
  ghost function Sent(s: State, requests: seq<Request>, id: nat): seq<Byte>
    decreases |requests|
  {
    if requests == [] then []
    else
      var last := |requests| - 1;
      match Run(s, requests[..last])
      case Halted(_) => []
      case Done(_, next) => SentNext(next, Sent(s, requests[..last], id), requests[last], id)
  }

  /** A loaded secure image took in a prefix of what was sent, and all of it so far while
      its copy goes on. */
  ghost predicate SentOk(s: State, sent: seq<Byte>, id: nat) {
    LoadedSecure(s, id) ==>
      && id in s.accepted && s.accepted[id] <= sent
      && (s.descs[id].state.Copying? ==> s.accepted[id] == sent)
  }

  /** What the image took in before this request. */
  ghost function Had(s: State, id: nat): seq<Byte>
    requires id in s.descs
  {
    if s.descs[id].state.Copying? && s.descs[id].copied != 0 && id in s.accepted then s.accepted[id] else []
  }

  /** An accepted block is taken in from its start, whole unless it completes the image. */
  lemma CopyTakesPrefix(s: State, r: Request)
    requires r.Copy? && Copies(s, r, r.id)
    ensures
      var s' := Step(s, r).next;
      && r.id in s.descs && r.id in s'.descs && r.id in s'.accepted
      && s'.accepted[r.id] <= Had(s, r.id) + r.data
      && (s'.descs[r.id].state.Copying? ==> s'.accepted[r.id] == Had(s, r.id) + r.data)
  {
  }

  /** The step neither changes what the image took in, nor loads it, nor resumes its copy. */
  ghost predicate TakesNothing(s: State, s': State, id: nat) {
    && (LoadedSecure(s', id) ==>
        LoadedSecure(s, id) && (s'.descs[id].state.Copying? ==> s.descs[id].state.Copying?))
    && (id in s.accepted ==> id in s'.accepted && s'.accepted[id] == s.accepted[id])
  }

  lemma OtherCopyTakesNothing(s: State, r: Request, id: nat)
    requires r.Copy? && Step(s, r).Done? && !Copies(s, r, id)
    ensures TakesNothing(s, Step(s, r).next, id)
  {
  }

  lemma AuthTakesNothing(s: State, r: Request, id: nat)
    requires r.Auth? && Step(s, r).Done? && !AuthElsewhere(s, r)
    ensures TakesNothing(s, Step(s, r).next, id)
  {
  }

  lemma ControlTakesNothing(s: State, r: Request, id: nat)
    requires !r.Copy? && !r.Auth? && Step(s, r).Done?
    ensures TakesNothing(s, Step(s, r).next, id)
  {
  }

  lemma StepKeepsSent(s: State, sent: seq<Byte>, r: Request, id: nat)
    requires ContentInv(s) && SentOk(s, sent, id) && Step(s, r).Done? && !(r.Auth? && AuthElsewhere(s, r))
    ensures SentOk(Step(s, r).next, SentNext(s, sent, r, id), id)
  {
    if Copies(s, r, id) {
      CopyTakesPrefix(s, r);
      if s.descs[id].world.Secure? && s.descs[id].state.Copying? { assert ContentOk(s, id); }
    } else if r.Copy? {
      OtherCopyTakesNothing(s, r, id);
    } else if r.Auth? {
      AuthTakesNothing(s, r, id);
    } else {
      ControlTakesNothing(s, r, id);
    }
  }

  lemma {:induction false} RunKeepsSent(p: Platform, mem: Memory, requests: seq<Request>, id: nat)
    requires p.Valid() && p.NonWrapping() && AuthInPlaceOnly(Boot(p, mem), requests)
    ensures Run(Boot(p, mem), requests).Done? ==>
      SentOk(Run(Boot(p, mem), requests).next, Sent(Boot(p, mem), requests, id), id)
    decreases |requests|
  {
    if requests != [] {
      var last := |requests| - 1;
      RunKeepsSent(p, mem, requests[..last], id);
      RunContent(p, mem, requests[..last]);
      match Run(Boot(p, mem), requests[..last])
      case Halted(_) =>
      case Done(_, s) =>
        if Step(s, requests[last]).Done? {
          StepKeepsSent(s, Sent(Boot(p, mem), requests[..last], id), requests[last], id);
        }
    }
  }

  /** Over every run: a loaded secure image holds the first bytes of what was sent for it,
      all of them while its copy goes on and as many as its size once that is complete; and
      if it executes, those are the bytes that were authenticated. */
  lemma ImageIsWhatWasSent(p: Platform, mem: Memory, requests: seq<Request>, id: nat)
    requires p.Valid() && p.NonWrapping() && AuthInPlaceOnly(Boot(p, mem), requests)
    requires Run(Boot(p, mem), requests).Done? && LoadedSecure(Run(Boot(p, mem), requests).next, id)
    ensures
      var s, sent := Run(Boot(p, mem), requests).next, Sent(Boot(p, mem), requests, id);
      var d := s.descs[id];
      && d.copied == (if d.state.Copying? then |sent| else d.size) <= |sent|
      && Read(s.mem, d.base, d.copied) == sent[..d.copied]
      && (d.state.Executed? ==> id in s.verified && s.verified[id] == sent[..d.size])
  {
    RunKeepsSent(p, mem, requests, id);
    RunContent(p, mem, requests);
    assert ContentOk(Run(Boot(p, mem), requests).next, id);
  }
}
