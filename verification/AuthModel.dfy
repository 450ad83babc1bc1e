/** The chain of trust and the history of an authentication module
    (`drivers/auth/auth_mod.c`). */
module AuthModel {
  import opened Words
  import Der

  datatype ParamKind = RawData | SigValue | SigAlg | HashValue | PubKey | NvCtrValue

  /** `auth_param_type_desc_t`. */
  datatype ParamType = ParamType(kind: ParamKind, cookie: nat)

  datatype Method =
    | NoMethod
    | Hash(data: ParamType, hash: ParamType)
    | Sig(pk: ParamType, sig: ParamType, alg: ParamType, data: ParamType)
    | NvCtr(cert: ParamType, plat: ParamType)
    | UnknownMethod

  /** `auth_param_desc_t`: a parameter to keep for the children and the buffer for it;
      the type pointer of an unused slot is NULL. */
  datatype Slot = Slot(paramType: Option<ParamType>, buffer: nat)

  /** `auth_img_desc_t`. */
  datatype ImgDesc = ImgDesc(imgType: nat, parent: Option<nat>, methods: Option<seq<Method>>, slots: Option<seq<Slot>>)

  /** What the platform says about the root-of-trust public key. */
  datatype Rotpk = NotDeployed | KeyHash(hash: seq<Byte>) | FullKey(key: seq<Byte>)

  /** The image parser and the crypto library, as functions of what they are given. */
  datatype Libraries = Libraries(
    integrity: (nat, seq<Byte>) -> bool,
    getParam: (nat, ParamType, seq<Byte>) -> Option<seq<Byte>>,
    verifyHash: (seq<Byte>, seq<Byte>) -> bool,
    verifySignature: (seq<Byte>, seq<Byte>, seq<Byte>, seq<Byte>) -> bool,
    convertPk: seq<Byte> -> Option<seq<Byte>>,
    rotpk: nat -> Option<Rotpk>)

  /** A chain of trust and the libraries it is checked with. */
  datatype Cot = Cot(descs: map<nat, ImgDesc>, lib: Libraries)
  {
    /** Parents are images of the chain, and going up always ends: a finite forest. */
    ghost predicate Ranked(rank: map<nat, nat>) {
      forall id :: id in descs && descs[id].parent.Some? ==>
        var p := descs[id].parent.value;
        p in descs && id in rank && p in rank && rank[p] < rank[id]
    }

    /** No two descriptors share a parameter buffer. */
    ghost predicate SeparateBuffers() {
      forall i, j, b :: Owns(i, b) && Owns(j, b) ==> i == j
    }

    ghost predicate Owns(id: nat, b: nat) {
      && id in descs && descs[id].slots.Some?
      && exists k :: 0 <= k < |descs[id].slots.value|
           && descs[id].slots.value[k].paramType.Some? && descs[id].slots.value[k].buffer == b
    }

    function Param(id: nat, what: ParamType, content: seq<Byte>): Option<seq<Byte>>
      requires id in descs
    {
      lib.getParam(descs[id].imgType, what, content)
    }
  }

  // ---- Looking up a parameter of the parent -------------------------------------

  /** Fault: a NULL type pointer is followed before the parameter is met. */
  datatype Found = At(buffer: nat) | Missing | Fault

  /** `auth_get_param`, from slot `i` on. */
  function FindSlot(slots: seq<Slot>, want: ParamType, i: nat): Found
    requires i <= |slots|
    decreases |slots| - i
  {
    if i == |slots| then Missing
    else if slots[i].paramType.None? then Fault
    else if slots[i].paramType.value == want then At(slots[i].buffer)
    else FindSlot(slots, want, i + 1)
  }

  function GetParam(d: ImgDesc, want: ParamType): Found {
    if d.slots.None? then Missing else FindSlot(d.slots.value, want, 0)
  }

  /** The slots from `i` to `k` are in use and of other types. */
  ghost predicate NoneBefore(slots: seq<Slot>, want: ParamType, i: nat, k: nat)
    requires k <= |slots|
  {
    forall j :: i <= j < k ==> slots[j].paramType.Some? && slots[j].paramType.value != want
  }

  /** The lookup faults exactly when an unused slot comes before every match, finds nothing
      exactly when all slots are of other types, and otherwise finds the first match. */
  lemma {:induction false} FindSlotMeaning(slots: seq<Slot>, want: ParamType, i: nat)
    requires i <= |slots|
    ensures FindSlot(slots, want, i).Fault? <==>
      exists k :: i <= k < |slots| && slots[k].paramType.None? && NoneBefore(slots, want, i, k)
    ensures FindSlot(slots, want, i).Missing? <==> NoneBefore(slots, want, i, |slots|)
    ensures FindSlot(slots, want, i).At? ==>
      exists k :: i <= k < |slots| && slots[k].paramType == Some(want) && NoneBefore(slots, want, i, k)
                  && FindSlot(slots, want, i) == At(slots[k].buffer)
    decreases |slots| - i
  {
    if i < |slots| {
      FindSlotMeaning(slots, want, i + 1);
      if slots[i].paramType.Some? && slots[i].paramType.value != want {
        forall k | i < k <= |slots| ensures NoneBefore(slots, want, i, k) <==> NoneBefore(slots, want, i + 1, k) {
        }
      } else {
        assert NoneBefore(slots, want, i, i);
      }
    }
  }

  /** An input that faults: the wanted parameter is there, behind an unused slot. */
  lemma UnusedSlotFaults(want: ParamType)
    ensures FindSlot([Slot(None, 0), Slot(Some(want), 1)], want, 0).Fault?
  {
  }

  // ---- Passing a method ----------------------------------------------------------

  datatype State = State(buffers: map<nat, seq<Byte>>, counters: map<nat, nat>, flags: set<nat>)

  function Buffer(s: State, b: nat): seq<Byte> {
    if b in s.buffers then s.buffers[b] else []
  }

  function Counter(s: State, cookie: nat): nat {
    if cookie in s.counters then s.counters[cookie] else 0
  }

  /** `auth_hash`: the data of the image hashes to the value kept from its parent. */
  predicate HashPasses(cot: Cot, s: State, id: nat, content: seq<Byte>, m: Method)
    requires id in cot.descs && m.Hash?
  {
    && cot.descs[id].parent.Some? && cot.descs[id].parent.value in cot.descs
    && var kept := GetParam(cot.descs[cot.descs[id].parent.value], m.hash);
    && var data := cot.Param(id, m.data, content);
    && kept.At? && data.Some? && cot.lib.verifyHash(data.value, Buffer(s, kept.buffer))
  }

  /** The platform's root key vouches for the key in a root certificate. */
  predicate RotpkAccepts(cot: Cot, cookie: nat, pk: seq<Byte>) {
    && var rotpk := cot.lib.rotpk(cookie);
    && rotpk.Some?
    && match rotpk.value
       case NotDeployed => true
       case KeyHash(hash) =>
         var converted := cot.lib.convertPk(pk);
         converted.Some? && cot.lib.verifyHash(converted.value, hash)
       case FullKey(key) => key == pk
  }

  /** The public key that the image's signature is checked with. */
  function SigningKey(cot: Cot, s: State, id: nat, content: seq<Byte>, m: Method): Option<seq<Byte>>
    requires id in cot.descs && m.Sig?
  {
    match cot.descs[id].parent
    case Some(p) =>
      if p !in cot.descs then None
      else
        var kept := GetParam(cot.descs[p], m.pk);
        if kept.At? then Some(Buffer(s, kept.buffer)) else None
    case None =>
      var pk := cot.Param(id, m.pk, content);
      if pk.Some? && RotpkAccepts(cot, m.pk.cookie, pk.value) then pk else None
  }

  /** `auth_signature`. */
  predicate SigPasses(cot: Cot, s: State, id: nat, content: seq<Byte>, m: Method)
    requires id in cot.descs && m.Sig?
  {
    var data, sig, alg := cot.Param(id, m.data, content), cot.Param(id, m.sig, content), cot.Param(id, m.alg, content);
    var key := SigningKey(cot, s, id, content, m);
    data.Some? && sig.Some? && alg.Some? && key.Some?
    && cot.lib.verifySignature(data.value, sig.value, alg.value, key.value)
  }

  /** The counter that the certificate carries, if it is well-formed. */
  function CertCounter(cot: Cot, id: nat, content: seq<Byte>, m: Method): Option<nat>
    requires id in cot.descs && m.NvCtr?
  {
    var data := cot.Param(id, m.cert, content);
    if data.Some? && Der.Accepted(data.value) then Some(Der.Value(data.value)) else None
  }

  /** `auth_nvctr`: not older than the platform's counter. */
  predicate NvCtrPasses(cot: Cot, s: State, id: nat, content: seq<Byte>, m: Method)
    requires id in cot.descs && m.NvCtr?
  {
    CertCounter(cot, id, content, m).Some? && CertCounter(cot, id, content, m).value >= Counter(s, m.plat.cookie)
  }

  predicate Passes(cot: Cot, s: State, id: nat, content: seq<Byte>, m: Method)
    requires id in cot.descs
  {
    match m
    case NoMethod => true
    case Hash(_, _) => HashPasses(cot, s, id, content, m)
    case Sig(_, _, _, _) => SigPasses(cot, s, id, content, m)
    case NvCtr(_, _) => NvCtrPasses(cot, s, id, content, m)
    case UnknownMethod => false
  }

  predicate PassesFirst(cot: Cot, s: State, id: nat, content: seq<Byte>, n: nat)
    requires id in cot.descs && cot.descs[id].methods.Some? && n <= |cot.descs[id].methods.value|
  {
    forall k :: 0 <= k < n ==> Passes(cot, s, id, content, cot.descs[id].methods.value[k])
  }

  /** The image is sound and all its authentication methods accept it. */
  predicate PassesAll(cot: Cot, s: State, id: nat, content: seq<Byte>) {
    && id in cot.descs && cot.descs[id].methods.Some?
    && cot.lib.integrity(cot.descs[id].imgType, content)
    && PassesFirst(cot, s, id, content, |cot.descs[id].methods.value|)
  }

  predicate Signed(cot: Cot, id: nat) {
    && id in cot.descs && cot.descs[id].methods.Some?
    && exists k :: 0 <= k < |cot.descs[id].methods.value| && cot.descs[id].methods.value[k].Sig?
  }

  // ---- The platform's part in one verification --------------------------------------

  /** What the platform answers while an image is verified: for method `i` whether the
      root key could be measured, the counter read and (under PSA_FWU_SUPPORT) upgraded
      now; whether the counter could be written; for slot `i` whether a key was published. */
  datatype Env = Env(
    measured: nat -> bool, readable: nat -> bool, mayUpgrade: nat -> bool, writable: bool, published: nat -> bool)

  /** Method `i` succeeds. */
  predicate MethodOk(cot: Cot, s: State, id: nat, content: seq<Byte>, env: Env, i: nat)
    requires id in cot.descs && cot.descs[id].methods.Some? && i < |cot.descs[id].methods.value|
  {
    var m := cot.descs[id].methods.value[i];
    && Passes(cot, s, id, content, m)
    && (m.Sig? && cot.descs[id].parent.None? ==> env.measured(i))
    && (m.NvCtr? ==> env.readable(i))
  }

  predicate MethodsOk(cot: Cot, s: State, id: nat, content: seq<Byte>, env: Env, n: nat)
    requires id in cot.descs && cot.descs[id].methods.Some? && n <= |cot.descs[id].methods.value|
  {
    forall i :: 0 <= i < n ==> MethodOk(cot, s, id, content, env, i)
  }

  /** The counter write left pending by the first `n` methods: the last counter method's,
      if the last newer certificate counter may be upgraded. */
  datatype Pending = Pending(need: bool, cookie: nat, value: nat)

  function PendingAfter(cot: Cot, s: State, id: nat, content: seq<Byte>, env: Env, n: nat): Pending
    requires id in cot.descs && cot.descs[id].methods.Some? && n <= |cot.descs[id].methods.value|
  {
    if n == 0 then Pending(false, 0, 0)
    else
      var before := PendingAfter(cot, s, id, content, env, n - 1);
      var m := cot.descs[id].methods.value[n - 1];
      if m.NvCtr? && CertCounter(cot, id, content, m).Some? then
        var cert := CertCounter(cot, id, content, m).value;
        Pending(if cert > Counter(s, m.plat.cookie) then env.mayUpgrade(n - 1) else before.need, m.plat.cookie, cert)
      else before
  }

  /** A pending write is of a value that one of the passing methods carries and that is
      not below the platform's. */
  lemma {:induction false} PendingIsCarried(cot: Cot, s: State, id: nat, content: seq<Byte>, env: Env, n: nat)
    requires id in cot.descs && cot.descs[id].methods.Some? && n <= |cot.descs[id].methods.value|
    requires MethodsOk(cot, s, id, content, env, n)
    ensures
      var p := PendingAfter(cot, s, id, content, env, n);
      p.need ==> CarriesCounter(cot, id, content, p.cookie, p.value) && Counter(s, p.cookie) <= p.value
  {
    if n > 0 {
      PendingIsCarried(cot, s, id, content, env, n - 1);
      var m := cot.descs[id].methods.value[n - 1];
      assert MethodOk(cot, s, id, content, env, n - 1);
      if m.NvCtr? { assert CounterOf(cot, id, content, m, m.plat.cookie, CertCounter(cot, id, content, m).value); }
    }
  }

  /** All methods succeed on a sound image. */
  predicate Authenticates(cot: Cot, s: State, id: nat, content: seq<Byte>, env: Env) {
    && id in cot.descs && cot.descs[id].methods.Some?
    && cot.lib.integrity(cot.descs[id].imgType, content)
    && MethodsOk(cot, s, id, content, env, |cot.descs[id].methods.value|)
  }

  function FinalPending(cot: Cot, s: State, id: nat, content: seq<Byte>, env: Env): Pending
    requires Authenticates(cot, s, id, content, env)
  {
    PendingAfter(cot, s, id, content, env, |cot.descs[id].methods.value|)
  }

  /** A platform counter is to be written. */
  predicate Upgrades(cot: Cot, s: State, id: nat, content: seq<Byte>, env: Env) {
    Authenticates(cot, s, id, content, env) && Signed(cot, id) && FinalPending(cot, s, id, content, env).need
  }

  /** One parameter for the children can be taken from the content and fits its buffer. */
  predicate SlotOk(cot: Cot, s: State, id: nat, content: seq<Byte>, env: Env, slot: nat)
    requires ValidSlot(cot, id, slot)
  {
    && SlotBytes(cot, id, content, slot).Some?
    && |SlotBytes(cot, id, content, slot).value| <= |Buffer(s, SlotBuffer(cot, id, slot))|
    && (cot.descs[id].slots.value[slot].paramType.value.kind.PubKey? ==> env.published(slot))
  }

  ghost predicate SlotsOk(cot: Cot, s: State, id: nat, content: seq<Byte>, env: Env) {
    forall slot :: ValidSlot(cot, id, slot) ==> SlotOk(cot, s, id, content, env, slot)
  }

  /** Buffers keep their sizes. */
  ghost predicate SameSizes(s: State, s': State) {
    forall b :: |Buffer(s', b)| == |Buffer(s, b)|
  }

  lemma SlotOkSameSizes(cot: Cot, s: State, s': State, id: nat, content: seq<Byte>, env: Env, slot: nat)
    requires ValidSlot(cot, id, slot) && SameSizes(s, s')
    ensures SlotOk(cot, s, id, content, env, slot) <==> SlotOk(cot, s', id, content, env, slot)
  {
    assert |Buffer(s', SlotBuffer(cot, id, slot))| == |Buffer(s, SlotBuffer(cot, id, slot))|;
  }

  lemma SlotsOkSameBuffers(cot: Cot, s: State, s': State, id: nat, content: seq<Byte>, env: Env)
    requires s'.buffers == s.buffers
    ensures SlotsOk(cot, s, id, content, env) <==> SlotsOk(cot, s', id, content, env)
  {
    forall slot | ValidSlot(cot, id, slot)
      ensures SlotOk(cot, s, id, content, env, slot) <==> SlotOk(cot, s', id, content, env, slot)
    {
      SlotOkSameSizes(cot, s, s', id, content, env, slot);
    }
  }

  lemma AuthenticatesPasses(cot: Cot, s: State, id: nat, content: seq<Byte>, env: Env)
    requires Authenticates(cot, s, id, content, env)
    ensures PassesAll(cot, s, id, content)
  {
    forall k | 0 <= k < |cot.descs[id].methods.value|
      ensures Passes(cot, s, id, content, cot.descs[id].methods.value[k])
    {
      assert MethodOk(cot, s, id, content, env, k);
    }
  }

  /** When `auth_mod_verify_img` succeeds. */
  ghost predicate Accepts(cot: Cot, s: State, id: nat, content: seq<Byte>, env: Env) {
    && Authenticates(cot, s, id, content, env)
    && (Upgrades(cot, s, id, content, env) ==> env.writable)
    && SlotsOk(cot, s, id, content, env)
  }

  /** One of the image's methods takes `value` from the certificate for this counter. */
  ghost predicate CarriesCounter(cot: Cot, id: nat, content: seq<Byte>, cookie: nat, value: nat)
    requires id in cot.descs && cot.descs[id].methods.Some?
  {
    exists k :: 0 <= k < |cot.descs[id].methods.value|
      && CounterOf(cot, id, content, cot.descs[id].methods.value[k], cookie, value)
  }

  ghost predicate CounterOf(cot: Cot, id: nat, content: seq<Byte>, m: Method, cookie: nat, value: nat)
    requires id in cot.descs
  {
    m.NvCtr? && m.plat.cookie == cookie && CertCounter(cot, id, content, m) == Some(value)
  }

  // ---- Histories -------------------------------------------------------------------

  /** The lasting effects of `auth_mod_verify_img`, in the order in which they happen. */
  datatype Effect =
    | Verified(id: nat, content: seq<Byte>)                               // all methods passed
    | Raised(id: nat, content: seq<Byte>, cookie: nat, value: nat)        // platform counter written
    | Stored(id: nat, content: seq<Byte>, slot: nat)                      // parameter copied to its buffer
    | Flagged(id: nat, content: seq<Byte>)                                // marked as authenticated

  /** `memcpy` to the start of a buffer: what lies beyond stays. */
  function Overlay(buffer: seq<Byte>, bytes: seq<Byte>): (r: seq<Byte>)
    requires |bytes| <= |buffer|
    ensures |r| == |buffer|
    ensures forall i :: 0 <= i < |r| ==> r[i] == if i < |bytes| then bytes[i] else buffer[i]
  {
    bytes + buffer[|bytes|..]
  }

  predicate ValidSlot(cot: Cot, id: nat, slot: nat) {
    && id in cot.descs && cot.descs[id].slots.Some? && slot < |cot.descs[id].slots.value|
    && cot.descs[id].slots.value[slot].paramType.Some?
  }

  /** The bytes that an image's content provides for one of its slots. */
  function SlotBytes(cot: Cot, id: nat, content: seq<Byte>, slot: nat): Option<seq<Byte>>
    requires ValidSlot(cot, id, slot)
  {
    cot.Param(id, cot.descs[id].slots.value[slot].paramType.value, content)
  }

  function SlotBuffer(cot: Cot, id: nat, slot: nat): nat
    requires ValidSlot(cot, id, slot)
  {
    cot.descs[id].slots.value[slot].buffer
  }

  /** The state after one more effect. */
  function After(cot: Cot, s: State, e: Effect): State {
    match e
    case Verified(_, _) => s
    case Raised(_, _, cookie, value) => s.(counters := s.counters[cookie := value])
    case Stored(id, content, slot) =>
      if ValidSlot(cot, id, slot) && SlotBytes(cot, id, content, slot).Some?
         && |SlotBytes(cot, id, content, slot).value| <= |Buffer(s, SlotBuffer(cot, id, slot))| then
        var b := SlotBuffer(cot, id, slot);
        s.(buffers := s.buffers[b := Overlay(Buffer(s, b), SlotBytes(cot, id, content, slot).value)])
      else s
    case Flagged(id, _) => s.(flags := s.flags + {id})
  }

  function Replay(cot: Cot, init: State, h: seq<Effect>): State
    decreases |h|
  {
    if h == [] then init else After(cot, Replay(cot, init, h[..|h| - 1]), h[|h| - 1])
  }

  /** When an effect is legitimate, given what happened before it. */
  ghost predicate Legal(cot: Cot, init: State, before: seq<Effect>, e: Effect) {
    var s := Replay(cot, init, before);
    match e
    case Verified(id, content) => PassesAll(cot, s, id, content)
    case Raised(id, content, cookie, value) =>
      && Verified(id, content) in before && Signed(cot, id)
      && CarriesCounter(cot, id, content, cookie, value)
      && Counter(s, cookie) <= value < 0x8000_0000
    case Stored(id, content, slot) =>
      && Verified(id, content) in before && ValidSlot(cot, id, slot)
      && SlotBytes(cot, id, content, slot).Some?
      && |SlotBytes(cot, id, content, slot).value| <= |Buffer(s, SlotBuffer(cot, id, slot))|
    case Flagged(id, content) =>
      && Verified(id, content) in before
      && forall slot :: ValidSlot(cot, id, slot) ==> Stored(id, content, slot) in before
  }

  ghost predicate LegalHistory(cot: Cot, init: State, h: seq<Effect>)
    decreases |h|
  {
    h == [] || (LegalHistory(cot, init, h[..|h| - 1]) && Legal(cot, init, h[..|h| - 1], h[|h| - 1]))
  }

  lemma Extend(cot: Cot, init: State, h: seq<Effect>, e: Effect)
    requires LegalHistory(cot, init, h) && Legal(cot, init, h, e)
    ensures LegalHistory(cot, init, h + [e]) && Replay(cot, init, h + [e]) == After(cot, Replay(cot, init, h), e)
  {
    assert (h + [e])[..|h|] == h;
  }

  /** Every effect of a legal history was legal when it happened. */
  lemma {:induction false} LegalAt(cot: Cot, init: State, h: seq<Effect>, k: nat)
    requires LegalHistory(cot, init, h) && k < |h|
    ensures Legal(cot, init, h[..k], h[k]) && LegalHistory(cot, init, h[..k])
    decreases |h|
  {
    var last := |h| - 1;
    if k < last {
      LegalAt(cot, init, h[..last], k);
      assert h[..last][..k] == h[..k];
    }
  }

  // ---- What legal histories guarantee ---------------------------------------------

  /** Anti-rollback: over any history a platform counter never goes down. */
  lemma {:induction false} CountersNeverDecrease(cot: Cot, init: State, h: seq<Effect>, n: nat, cookie: nat)
    requires LegalHistory(cot, init, h) && n <= |h|
    ensures Counter(Replay(cot, init, h[..n]), cookie) <= Counter(Replay(cot, init, h), cookie)
    decreases |h|
  {
    if n == |h| {
      assert h[..n] == h;
    } else {
      var last := |h| - 1;
      CountersNeverDecrease(cot, init, h[..last], n, cookie);
      assert h[..last][..n] == h[..n];
    }
  }

  /** Method `n` takes the value for this counter from the image: a well-formed integer. */
  predicate CertifiesCounter(cot: Cot, id: nat, content: seq<Byte>, n: nat, cookie: nat, value: nat)
    requires HasMethod(cot, id, n)
  {
    var m := cot.descs[id].methods.value[n];
    && m.NvCtr? && m.plat.cookie == cookie && cot.Param(id, m.cert, content).Some?
    && Der.Accepted(cot.Param(id, m.cert, content).value) && Der.Value(cot.Param(id, m.cert, content).value) == value
  }

  lemma RaisedIsCertified(cot: Cot, e: Effect)
    requires e.Raised? && Signed(cot, e.id) && CarriesCounter(cot, e.id, e.content, e.cookie, e.value)
    ensures exists n: nat :: HasMethod(cot, e.id, n) && cot.descs[e.id].methods.value[n].Sig?
    ensures exists n: nat :: HasMethod(cot, e.id, n) && CertifiesCounter(cot, e.id, e.content, n, e.cookie, e.value)
  {
    var methods := cot.descs[e.id].methods.value;
    var s: nat :| s < |methods| && methods[s].Sig?;
    assert HasMethod(cot, e.id, s);
    var c: nat :| c < |methods| && CounterOf(cot, e.id, e.content, methods[c], e.cookie, e.value);
    assert HasMethod(cot, e.id, c) && CertifiesCounter(cot, e.id, e.content, c, e.cookie, e.value);
  }

  /** A counter that has changed holds the value that a certificate carried for it; the
      certificate's image has a signature method, and the certificate had passed all the
      image's methods. */
  lemma {:induction false} CounterChangeIsAuthorised(cot: Cot, init: State, h: seq<Effect>, cookie: nat)
    returns (k: nat, j: nat)
    requires LegalHistory(cot, init, h)
    requires Counter(Replay(cot, init, h), cookie) != Counter(init, cookie)
    ensures j < k < |h| && h[k].Raised? && h[k].cookie == cookie
    ensures Counter(Replay(cot, init, h), cookie) == h[k].value
    ensures exists n: nat :: HasMethod(cot, h[k].id, n) && cot.descs[h[k].id].methods.value[n].Sig?
    ensures exists n: nat ::
      HasMethod(cot, h[k].id, n) && CertifiesCounter(cot, h[k].id, h[k].content, n, cookie, h[k].value)
    ensures h[j] == Verified(h[k].id, h[k].content)
    ensures PassesAll(cot, Replay(cot, init, h[..j]), h[k].id, h[k].content)
    decreases |h|
  {
    var last := |h| - 1;
    if h[last].Raised? && h[last].cookie == cookie {
      k := last;
      j :| 0 <= j < last && h[..last][j] == Verified(h[k].id, h[k].content);
      LegalAt(cot, init, h, j);
      RaisedIsCertified(cot, h[k]);
    } else {
      k, j := CounterChangeIsAuthorised(cot, init, h[..last], cookie);
      assert h[..last][..j] == h[..j];
    }
  }

  /** The effect at `k` copied `value` to byte `i` of the owner's buffer `b`, from content
      which had passed all the owner's methods by the effect at `j`. */
  ghost predicate ByteFrom(
    cot: Cot, init: State, h: seq<Effect>, owner: nat, b: nat, i: nat, value: Byte, k: nat, j: nat)
  {
    && j < k < |h| && h[k].Stored? && h[k].id == owner && ValidSlot(cot, owner, h[k].slot)
    && SlotBuffer(cot, owner, h[k].slot) == b && SlotBytes(cot, owner, h[k].content, h[k].slot).Some?
    && var bytes := SlotBytes(cot, owner, h[k].content, h[k].slot).value;
    && i < |bytes| && bytes[i] == value
    && h[j] == Verified(owner, h[k].content) && PassesAll(cot, Replay(cot, init, h[..j]), owner, h[k].content)
  }

  /** The effect copies to byte `i` of buffer `b`. */
  predicate Covers(cot: Cot, e: Effect, b: nat, i: nat) {
    && e.Stored? && ValidSlot(cot, e.id, e.slot) && SlotBuffer(cot, e.id, e.slot) == b
    && SlotBytes(cot, e.id, e.content, e.slot).Some? && i < |SlotBytes(cot, e.id, e.content, e.slot).value|
  }

  /** Every byte of a parameter buffer that was ever copied to was extracted from content
      of the buffer's one owner which had passed all the owner's methods. */
  lemma {:induction false} BufferByteIsVerified(
    cot: Cot, init: State, h: seq<Effect>, owner: nat, b: nat, i: nat, c: nat) returns (k: nat, j: nat)
    requires LegalHistory(cot, init, h) && cot.SeparateBuffers() && cot.Owns(owner, b)
    requires c < |h| && Covers(cot, h[c], b, i)
    ensures i < |Buffer(Replay(cot, init, h), b)|
    ensures ByteFrom(cot, init, h, owner, b, i, Buffer(Replay(cot, init, h), b)[i], k, j)
    decreases |h|
  {
    var last := |h| - 1;
    var e := h[last];
    if Covers(cot, e, b, i) {
      k := last;
      assert cot.Owns(e.id, b);
      j :| 0 <= j < last && h[..last][j] == Verified(e.id, e.content);
      LegalAt(cot, init, h, j);
    } else {
      k, j := BufferByteIsVerified(cot, init, h[..last], owner, b, i, c);
      assert h[..last][..j] == h[..j];
    }
  }

  /** And every other byte is what it was at first. */
  lemma {:induction false} UncoveredIsInitial(cot: Cot, init: State, h: seq<Effect>, b: nat, i: nat)
    requires LegalHistory(cot, init, h) && i < |Buffer(init, b)|
    requires forall c :: 0 <= c < |h| ==> !Covers(cot, h[c], b, i)
    ensures |Buffer(Replay(cot, init, h), b)| == |Buffer(init, b)|
    ensures Buffer(Replay(cot, init, h), b)[i] == Buffer(init, b)[i]
    decreases |h|
  {
    if h != [] {
      var last := |h| - 1;
      UncoveredIsInitial(cot, init, h[..last], b, i);
      assert !Covers(cot, h[last], b, i);
    }
  }

  // ---- Flagged images -----------------------------------------------------------------

  /** A flagged image had content that passed all its methods, and that content filled
      the start of every one of its buffers. */
  lemma {:induction false} FlagMeansVerified(cot: Cot, init: State, h: seq<Effect>, id: nat) returns (k: nat)
    requires LegalHistory(cot, init, h) && id in Replay(cot, init, h).flags && id !in init.flags
    ensures k < |h| && h[k].Flagged? && h[k].id == id && Legal(cot, init, h[..k], h[k])
    decreases |h|
  {
    var last := |h| - 1;
    if h[last].Flagged? && h[last].id == id {
      k := last;
    } else {
      k := FlagMeansVerified(cot, init, h[..last], id);
      assert h[..last][..k] == h[..k];
    }
  }

  /** The buffer starts with the whole of one parameter, copied by the effect at `k` from
      content which had passed all the owner's methods by the effect at `j`. */
  ghost predicate WholeFrom(cot: Cot, init: State, h: seq<Effect>, owner: nat, b: nat, k: nat, j: nat) {
    && j < k < |h| && StoredTo(cot, h[k], b) && h[k].id == owner
    && var bytes, now := SlotBytes(cot, owner, h[k].content, h[k].slot).value, Buffer(Replay(cot, init, h), b);
    && |bytes| <= |now| && now[..|bytes|] == bytes
    && h[j] == Verified(owner, h[k].content) && PassesAll(cot, Replay(cot, init, h[..j]), owner, h[k].content)
  }

  /** The effect copies a parameter to buffer `b`. */
  predicate StoredTo(cot: Cot, e: Effect, b: nat) {
    && e.Stored? && ValidSlot(cot, e.id, e.slot) && SlotBuffer(cot, e.id, e.slot) == b
    && SlotBytes(cot, e.id, e.content, e.slot).Some?
  }

  /** A buffer that was ever copied to starts with one whole parameter of its one owner's
      verified content: the last that was copied. */
  lemma {:induction false} BufferStartIsWhole(cot: Cot, init: State, h: seq<Effect>, owner: nat, b: nat, c: nat)
    returns (k: nat, j: nat)
    requires LegalHistory(cot, init, h) && cot.SeparateBuffers() && cot.Owns(owner, b)
    requires c < |h| && StoredTo(cot, h[c], b)
    ensures WholeFrom(cot, init, h, owner, b, k, j)
    decreases |h|
  {
    var last := |h| - 1;
    var e := h[last];
    if StoredTo(cot, e, b) {
      k := last;
      assert cot.Owns(e.id, b);
      j :| 0 <= j < last && h[..last][j] == Verified(e.id, e.content);
      LegalAt(cot, init, h, j);
    } else {
      k, j := BufferStartIsWhole(cot, init, h[..last], owner, b, c);
      assert h[..last][..j] == h[..j];
    }
  }

  /** Whatever a lookup in a flagged image finds starts with one whole parameter of its
      verified content. */
  lemma FlaggedIsFilled(cot: Cot, init: State, h: seq<Effect>, owner: nat, want: ParamType) returns (k: nat, j: nat)
    requires LegalHistory(cot, init, h) && cot.SeparateBuffers() && owner in cot.descs
    requires owner in Replay(cot, init, h).flags && owner !in init.flags
    requires GetParam(cot.descs[owner], want).At?
    ensures WholeFrom(cot, init, h, owner, GetParam(cot.descs[owner], want).buffer, k, j)
  {
    var f := FlagMeansVerified(cot, init, h, owner);
    var slots, b := cot.descs[owner].slots.value, GetParam(cot.descs[owner], want).buffer;
    FindSlotMeaning(slots, want, 0);
    var slot: nat :| slot < |slots| && slots[slot].paramType == Some(want) && slots[slot].buffer == b;
    assert ValidSlot(cot, owner, slot) && cot.Owns(owner, b);
    var c: nat :| c < f && h[..f][c] == Stored(owner, h[f].content, slot);
    LegalAt(cot, init, h, c);
    k, j := BufferStartIsWhole(cot, init, h, owner, b, c);
  }

  // ---- Parents first ------------------------------------------------------------------

  /** Whenever an image passed, its parent was flagged. */
  ghost predicate ParentsFirst(cot: Cot, init: State, h: seq<Effect>) {
    forall k :: 0 <= k < |h| ==> ParentFirst(cot, init, h, k)
  }

  ghost predicate ParentFirst(cot: Cot, init: State, h: seq<Effect>, k: nat)
    requires k < |h|
  {
    h[k].Verified? && h[k].id in cot.descs && cot.descs[h[k].id].parent.Some? ==>
      cot.descs[h[k].id].parent.value in Replay(cot, init, h[..k]).flags
  }

  lemma {:induction false} FlagsGrow(cot: Cot, init: State, h: seq<Effect>, n: nat)
    requires n <= |h|
    ensures Replay(cot, init, h[..n]).flags <= Replay(cot, init, h).flags
    decreases |h|
  {
    if n == |h| {
      assert h[..n] == h;
    } else {
      var last := |h| - 1;
      FlagsGrow(cot, init, h[..last], n);
      assert h[..last][..n] == h[..n];
    }
  }

  /** Verifying an image whose parent is flagged keeps it so. */
  lemma ParentsStayFirst(cot: Cot, init: State, h: seq<Effect>, h': seq<Effect>, id: nat)
    requires ParentsFirst(cot, init, h) && h <= h' && id in cot.descs
    requires forall k :: |h| <= k < |h'| ==> h'[k].id == id
    requires cot.descs[id].parent.Some? ==> cot.descs[id].parent.value in Replay(cot, init, h).flags
    ensures ParentsFirst(cot, init, h')
  {
    forall k | 0 <= k < |h'| ensures ParentFirst(cot, init, h', k) {
      if k < |h| {
        assert ParentFirst(cot, init, h, k) && h'[..k] == h[..k];
      } else {
        FlagsGrow(cot, init, h'[..k], |h|);
        assert h'[..k][..|h|] == h;
      }
    }
  }

  predicate HasMethod(cot: Cot, id: nat, n: nat) {
    id in cot.descs && cot.descs[id].methods.Some? && n < |cot.descs[id].methods.value|
  }

  // ---- What a verified image has passed ---------------------------------------------

  /** The image's data hashes to the value that its parent's buffer holds. */
  ghost predicate HashChecked(cot: Cot, s: State, id: nat, content: seq<Byte>, m: Method)
    requires id in cot.descs && m.Hash?
  {
    && cot.descs[id].parent.Some? && cot.descs[id].parent.value in cot.descs
    && var kept := GetParam(cot.descs[cot.descs[id].parent.value], m.hash);
    && kept.At? && cot.Param(id, m.data, content).Some?
    && cot.lib.verifyHash(cot.Param(id, m.data, content).value, Buffer(s, kept.buffer))
  }

  /** The platform's root key is not deployed, is this key, or is its hash. */
  ghost predicate RootVouches(cot: Cot, cookie: nat, key: seq<Byte>) {
    && cot.lib.rotpk(cookie).Some?
    && var root := cot.lib.rotpk(cookie).value;
    || root.NotDeployed?
    || (root.FullKey? && root.key == key)
    || (root.KeyHash? && cot.lib.convertPk(key).Some? && cot.lib.verifyHash(cot.lib.convertPk(key).value, root.hash))
  }

  /** The signature that the image carries was verified over its data, with the key that its
      parent's buffer holds or, for a root, with its own key, which the platform vouches for. */
  ghost predicate SignatureChecked(cot: Cot, s: State, id: nat, content: seq<Byte>, m: Method)
    requires id in cot.descs && m.Sig?
  {
    var data, sig, alg := cot.Param(id, m.data, content), cot.Param(id, m.sig, content), cot.Param(id, m.alg, content);
    && data.Some? && sig.Some? && alg.Some?
    && match cot.descs[id].parent
       case Some(parent) =>
         && parent in cot.descs && GetParam(cot.descs[parent], m.pk).At?
         && var key := Buffer(s, GetParam(cot.descs[parent], m.pk).buffer);
         cot.lib.verifySignature(data.value, sig.value, alg.value, key)
       case None =>
         && cot.Param(id, m.pk, content).Some?
         && var key := cot.Param(id, m.pk, content).value;
         RootVouches(cot, m.pk.cookie, key) && cot.lib.verifySignature(data.value, sig.value, alg.value, key)
  }

  /** The counter that the image carries is well-formed and not older than the platform's. */
  ghost predicate CounterChecked(cot: Cot, s: State, id: nat, content: seq<Byte>, m: Method)
    requires id in cot.descs && m.NvCtr?
  {
    && cot.Param(id, m.cert, content).Some? && Der.Accepted(cot.Param(id, m.cert, content).value)
    && Der.Value(cot.Param(id, m.cert, content).value) >= Counter(s, m.plat.cookie)
  }

  ghost predicate MethodChecked(cot: Cot, s: State, id: nat, content: seq<Byte>, n: nat)
    requires HasMethod(cot, id, n)
  {
    match cot.descs[id].methods.value[n]
    case NoMethod => true
    case Hash(d, v) => HashChecked(cot, s, id, content, Hash(d, v))
    case Sig(k, v, a, d) => SignatureChecked(cot, s, id, content, Sig(k, v, a, d))
    case NvCtr(c, p) => CounterChecked(cot, s, id, content, NvCtr(c, p))
    case UnknownMethod => false
  }

  /** Every image of the history that passed was sound and had each of its checks made. */
  ghost predicate ChecksMade(cot: Cot, init: State, h: seq<Effect>) {
    forall k :: 0 <= k < |h| && h[k].Verified? ==> Checked(cot, Replay(cot, init, h[..k]), h[k].id, h[k].content)
  }

  ghost predicate Checked(cot: Cot, s: State, id: nat, content: seq<Byte>) {
    && id in cot.descs && cot.descs[id].methods.Some? && cot.lib.integrity(cot.descs[id].imgType, content)
    && forall n :: HasMethod(cot, id, n) ==> MethodChecked(cot, s, id, content, n)
  }

  /** An image passes exactly when all that holds. */
  lemma PassingIsChecked(cot: Cot, s: State, id: nat, content: seq<Byte>)
    ensures PassesAll(cot, s, id, content) <==> Checked(cot, s, id, content)
  {
    if id in cot.descs && cot.descs[id].methods.Some? {
      forall n: nat | HasMethod(cot, id, n)
        ensures MethodChecked(cot, s, id, content, n) <==> Passes(cot, s, id, content, cot.descs[id].methods.value[n])
      {
        OneMethod(cot, s, id, content, n);
      }
      forall n | 0 <= n < |cot.descs[id].methods.value| ensures HasMethod(cot, id, n) {
      }
    }
  }

  lemma OneMethod(cot: Cot, s: State, id: nat, content: seq<Byte>, n: nat)
    requires HasMethod(cot, id, n)
    ensures MethodChecked(cot, s, id, content, n) <==> Passes(cot, s, id, content, cot.descs[id].methods.value[n])
  {
  }

  lemma AllChecksMade(cot: Cot, init: State, h: seq<Effect>)
    requires LegalHistory(cot, init, h)
    ensures ChecksMade(cot, init, h)
  {
    forall k | 0 <= k < |h| && h[k].Verified?
      ensures Checked(cot, Replay(cot, init, h[..k]), h[k].id, h[k].content)
    {
      LegalAt(cot, init, h, k);
      PassingIsChecked(cot, Replay(cot, init, h[..k]), h[k].id, h[k].content);
    }
  }

  /** What the lookup of this type in the image's parent finds started with one whole
      parameter of verified content of the parent. */
  ghost predicate FromParent(cot: Cot, init: State, h: seq<Effect>, id: nat, want: ParamType)
    requires id in cot.descs
  {
    && cot.descs[id].parent.Some? && cot.descs[id].parent.value in cot.descs
    && var parent := cot.descs[id].parent.value;
    && GetParam(cot.descs[parent], want).At?
    && exists k, j :: WholeFrom(cot, init, h, parent, GetParam(cot.descs[parent], want).buffer, k, j)
  }

  /** The hash check that let an image pass rested on verified content of its parent. */
  lemma HashCheckRestsOnParent(cot: Cot, init: State, h: seq<Effect>, k: nat, n: nat)
    requires LegalHistory(cot, init, h) && cot.SeparateBuffers() && ParentsFirst(cot, init, h) && init.flags == {}
    requires k < |h| && h[k].Verified? && HasMethod(cot, h[k].id, n) && cot.descs[h[k].id].methods.value[n].Hash?
    ensures HashChecked(cot, Replay(cot, init, h[..k]), h[k].id, h[k].content, cot.descs[h[k].id].methods.value[n])
    ensures FromParent(cot, init, h[..k], h[k].id, cot.descs[h[k].id].methods.value[n].hash)
  {
    LegalAt(cot, init, h, k);
    PassingIsChecked(cot, Replay(cot, init, h[..k]), h[k].id, h[k].content);
    assert MethodChecked(cot, Replay(cot, init, h[..k]), h[k].id, h[k].content, n);
    assert ParentFirst(cot, init, h, k);
    var w, j := FlaggedIsFilled(
      cot, init, h[..k], cot.descs[h[k].id].parent.value, cot.descs[h[k].id].methods.value[n].hash);
  }

  /** And so did the key of its signature check. */
  lemma KeyRestsOnParent(cot: Cot, init: State, h: seq<Effect>, k: nat, n: nat)
    requires LegalHistory(cot, init, h) && cot.SeparateBuffers() && ParentsFirst(cot, init, h) && init.flags == {}
    requires k < |h| && h[k].Verified? && HasMethod(cot, h[k].id, n)
    requires cot.descs[h[k].id].methods.value[n].Sig? && cot.descs[h[k].id].parent.Some?
    ensures SignatureChecked(cot, Replay(cot, init, h[..k]), h[k].id, h[k].content, cot.descs[h[k].id].methods.value[n])
    ensures FromParent(cot, init, h[..k], h[k].id, cot.descs[h[k].id].methods.value[n].pk)
  {
    LegalAt(cot, init, h, k);
    PassingIsChecked(cot, Replay(cot, init, h[..k]), h[k].id, h[k].content);
    assert MethodChecked(cot, Replay(cot, init, h[..k]), h[k].id, h[k].content, n);
    assert ParentFirst(cot, init, h, k);
    var w, j := FlaggedIsFilled(
      cot, init, h[..k], cot.descs[h[k].id].parent.value, cot.descs[h[k].id].methods.value[n].pk);
  }

  /** The value a check against the parent compares with, if method `n` is such a check. */
  function ParentParam(cot: Cot, id: nat, n: nat): Option<ParamType>
    requires HasMethod(cot, id, n)
  {
    match cot.descs[id].methods.value[n]
    case Hash(_, hash) => Some(hash)
    case Sig(pk, _, _, _) => if cot.descs[id].parent.Some? then Some(pk) else None
    case _ => None
  }

  /** Every hash and key check of the history rested on verified content of the parent. */
  ghost predicate ChecksRest(cot: Cot, init: State, h: seq<Effect>) {
    forall k, n :: 0 <= k < |h| && h[k].Verified? && HasMethod(cot, h[k].id, n) ==> CheckRests(cot, init, h, k, n)
  }

  ghost predicate CheckRests(cot: Cot, init: State, h: seq<Effect>, k: nat, n: nat)
    requires k < |h| && HasMethod(cot, h[k].id, n)
  {
    ParentParam(cot, h[k].id, n).Some? ==>
      FromParent(cot, init, h[..k], h[k].id, ParentParam(cot, h[k].id, n).value)
  }

  lemma AllChecksRest(cot: Cot, init: State, h: seq<Effect>)
    requires LegalHistory(cot, init, h) && cot.SeparateBuffers() && ParentsFirst(cot, init, h) && init.flags == {}
    ensures ChecksRest(cot, init, h)
  {
    forall k: nat, n: nat | k < |h| && h[k].Verified? && HasMethod(cot, h[k].id, n)
      ensures CheckRests(cot, init, h, k, n)
    {
      if ParentParam(cot, h[k].id, n).Some? {
        if cot.descs[h[k].id].methods.value[n].Hash? {
          HashCheckRestsOnParent(cot, init, h, k, n);
        } else {
          KeyRestsOnParent(cot, init, h, k, n);
        }
      }
    }
  }

  // ---- Which counter is raised --------------------------------------------------------

  /** Method `i` carries a counter newer than the platform's. */
  predicate Newer(cot: Cot, s: State, id: nat, content: seq<Byte>, i: nat)
    requires HasMethod(cot, id, i)
  {
    var m := cot.descs[id].methods.value[i];
    && m.NvCtr? && cot.Param(id, m.cert, content).Some? && Der.Accepted(cot.Param(id, m.cert, content).value)
    && Der.Value(cot.Param(id, m.cert, content).value) > Counter(s, m.plat.cookie)
  }

  /** The last newer counter of the first `n` methods is the one at `i`. */
  ghost predicate LastNewer(cot: Cot, s: State, id: nat, content: seq<Byte>, n: nat, i: nat) {
    && i < n && HasMethod(cot, id, i) && Newer(cot, s, id, content, i)
    && forall j :: i < j < n && HasMethod(cot, id, j) ==> !Newer(cot, s, id, content, j)
  }

  /** A write is pending exactly when the last newer counter may be upgraded now. */
  lemma {:induction false} PendingIff(cot: Cot, s: State, id: nat, content: seq<Byte>, env: Env, n: nat)
    requires id in cot.descs && cot.descs[id].methods.Some? && n <= |cot.descs[id].methods.value|
    ensures PendingAfter(cot, s, id, content, env, n).need <==>
      exists i :: LastNewer(cot, s, id, content, n, i) && env.mayUpgrade(i)
  {
    if n > 0 {
      PendingIff(cot, s, id, content, env, n - 1);
      assert HasMethod(cot, id, n - 1);
      if Newer(cot, s, id, content, n - 1) {
        assert LastNewer(cot, s, id, content, n, n - 1);
      } else {
        forall i ensures LastNewer(cot, s, id, content, n, i) <==> LastNewer(cot, s, id, content, n - 1, i) {
        }
      }
    }
  }

  /** It is of the value that the last counter method carries, for that method's counter. */
  lemma {:induction false} PendingValue(cot: Cot, s: State, id: nat, content: seq<Byte>, env: Env, n: nat, i: nat)
    requires HasMethod(cot, id, i) && i < n <= |cot.descs[id].methods.value| && cot.descs[id].methods.value[i].NvCtr?
    requires CounterChecked(cot, s, id, content, cot.descs[id].methods.value[i])
    requires forall j :: i < j < n ==> !cot.descs[id].methods.value[j].NvCtr?
    ensures
      var p, m := PendingAfter(cot, s, id, content, env, n), cot.descs[id].methods.value[i];
      p.cookie == m.plat.cookie && p.value == Der.Value(cot.Param(id, m.cert, content).value)
    decreases n
  {
    if n > i + 1 { PendingValue(cot, s, id, content, env, n - 1, i); }
  }

  /** So a signed image whose last counter method carries a newer counter, to be upgraded
      now, leaves the platform's counter to be written with the certificate's value. */
  lemma NewerIsRaised(cot: Cot, s: State, id: nat, content: seq<Byte>, env: Env, i: nat, n: nat)
    requires Authenticates(cot, s, id, content, env) && HasMethod(cot, id, i) && HasMethod(cot, id, n)
    requires cot.descs[id].methods.value[n].Sig? && Newer(cot, s, id, content, i) && env.mayUpgrade(i)
    requires forall j :: i < j && HasMethod(cot, id, j) ==> !cot.descs[id].methods.value[j].NvCtr?
    ensures Upgrades(cot, s, id, content, env)
    ensures
      var p, m := FinalPending(cot, s, id, content, env), cot.descs[id].methods.value[i];
      p.cookie == m.plat.cookie && p.value == Der.Value(cot.Param(id, m.cert, content).value)
  {
    var all := |cot.descs[id].methods.value|;
    forall j | i < j < all ensures !cot.descs[id].methods.value[j].NvCtr? { assert HasMethod(cot, id, j); }
    PendingIff(cot, s, id, content, env, all);
    assert LastNewer(cot, s, id, content, all, i);
    PendingValue(cot, s, id, content, env, all, i);
  }

  /** When an image is accepted, spelled out: its checks hold, the platform could measure a
      root's key and read its counters, could write a counter that is to be raised, and every
      parameter for the children is there, fits its buffer and, if a key, was published. */
  lemma AcceptsIff(cot: Cot, s: State, id: nat, content: seq<Byte>, env: Env)
    ensures Accepts(cot, s, id, content, env) <==>
      && Checked(cot, s, id, content)
      && (forall n: nat :: HasMethod(cot, id, n) ==> Answered(cot, id, env, n))
      && (Upgrades(cot, s, id, content, env) ==> env.writable)
      && (cot.descs[id].slots.Some? ==>
          forall k: nat :: k < |cot.descs[id].slots.value| ==>
            KeptFor(cot, s, id, content, env, cot.descs[id].slots.value[k], k))
  {
    PassingIsChecked(cot, s, id, content);
    if id in cot.descs && cot.descs[id].methods.Some? {
      MethodsAnswered(cot, s, id, content, env);
      SlotsKept(cot, s, id, content, env);
    }
  }

  predicate Answered(cot: Cot, id: nat, env: Env, n: nat)
    requires HasMethod(cot, id, n)
  {
    && (cot.descs[id].methods.value[n].Sig? && cot.descs[id].parent.None? ==> env.measured(n))
    && (cot.descs[id].methods.value[n].NvCtr? ==> env.readable(n))
  }

  predicate KeptFor(cot: Cot, s: State, id: nat, content: seq<Byte>, env: Env, slot: Slot, k: nat)
    requires id in cot.descs
  {
    slot.paramType.Some? ==>
      && var param := cot.lib.getParam(cot.descs[id].imgType, slot.paramType.value, content);
      && param.Some? && |param.value| <= |Buffer(s, slot.buffer)|
      && (slot.paramType.value.kind.PubKey? ==> env.published(k))
  }

  lemma MethodsAnswered(cot: Cot, s: State, id: nat, content: seq<Byte>, env: Env)
    requires id in cot.descs && cot.descs[id].methods.Some?
    ensures Authenticates(cot, s, id, content, env) <==>
      PassesAll(cot, s, id, content) && forall n: nat :: HasMethod(cot, id, n) ==> Answered(cot, id, env, n)
  {
    var all := |cot.descs[id].methods.value|;
    forall n: nat | HasMethod(cot, id, n)
      ensures MethodOk(cot, s, id, content, env, n) <==>
        Passes(cot, s, id, content, cot.descs[id].methods.value[n]) && Answered(cot, id, env, n)
    {
    }
    if MethodsOk(cot, s, id, content, env, all) {
      forall n: nat | HasMethod(cot, id, n) ensures Answered(cot, id, env, n) {
        assert MethodOk(cot, s, id, content, env, n);
      }
      forall n | 0 <= n < all ensures Passes(cot, s, id, content, cot.descs[id].methods.value[n]) {
        assert MethodOk(cot, s, id, content, env, n) && HasMethod(cot, id, n);
      }
    } else {
      var n: nat :| n < all && !MethodOk(cot, s, id, content, env, n);
      assert HasMethod(cot, id, n);
    }
  }

  lemma SlotsKept(cot: Cot, s: State, id: nat, content: seq<Byte>, env: Env)
    requires id in cot.descs
    ensures SlotsOk(cot, s, id, content, env) <==>
      (cot.descs[id].slots.Some? ==>
        forall k: nat :: k < |cot.descs[id].slots.value| ==>
          KeptFor(cot, s, id, content, env, cot.descs[id].slots.value[k], k))
  {
    if cot.descs[id].slots.Some? {
      var slots := cot.descs[id].slots.value;
      if SlotsOk(cot, s, id, content, env) {
        forall k: nat | k < |slots| ensures KeptFor(cot, s, id, content, env, slots[k], k) {
          if slots[k].paramType.Some? { assert ValidSlot(cot, id, k) && SlotOk(cot, s, id, content, env, k); }
        }
      } else {
        var k: nat :| ValidSlot(cot, id, k) && !SlotOk(cot, s, id, content, env, k);
        assert !KeptFor(cot, s, id, content, env, slots[k], k);
      }
    }
  }
}
