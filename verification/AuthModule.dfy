/** The authentication module as it runs: flags, counters and parameter buffers updated
    in place. Each call adds legal effects to the history and nothing else. */
module AuthModule {
  import opened Words
  import opened AuthModel
  import Der

  datatype Verdict = Pass | Fail | Stop

  class Auth {
    const cot: Cot
    const init: State
    var buffers: map<nat, seq<Byte>>
    var counters: map<nat, nat>
    var flags: set<nat>
    ghost var history: seq<Effect>

    constructor (cot: Cot, buffers: map<nat, seq<Byte>>, counters: map<nat, nat>)
      ensures Valid() && this.cot == cot && history == [] && View() == State(buffers, counters, {}) == init
    {
      this.cot, this.init := cot, State(buffers, counters, {});
      this.buffers, this.counters, this.flags := buffers, counters, {};
      history := [];
    }

    ghost function View(): State
      reads this
    {
      State(buffers, counters, flags)
    }

    ghost predicate Valid()
      reads this
    {
      LegalHistory(cot, init, history) && View() == Replay(cot, init, history)
    }

    // ---- The methods -----------------------------------------------------------

    /** `auth_get_param`. */
    method GetParamOf(d: ImgDesc, want: ParamType) returns (found: Found)
      ensures found == GetParam(d, want)
    {
      if d.slots.None? { return Missing; }
      var i := 0;
      while i < |d.slots.value|
        invariant i <= |d.slots.value|
        invariant GetParam(d, want) == FindSlot(d.slots.value, want, i)
      {
        if d.slots.value[i].paramType.None? { return Fault; }
        if d.slots.value[i].paramType.value == want { return At(d.slots.value[i].buffer); }
        i := i + 1;
      }
      return Missing;
    }

    /** `auth_hash`. */
    method AuthHash(id: nat, content: seq<Byte>, m: Method) returns (v: Verdict)
      requires id in cot.descs && m.Hash? && (cot.descs[id].parent.Some? ==> cot.descs[id].parent.value in cot.descs)
      ensures v.Pass? <==> HashPasses(cot, View(), id, content, m)
    {
      if cot.descs[id].parent.None? { return Stop; }
      var kept := GetParamOf(cot.descs[cot.descs[id].parent.value], m.hash);
      if kept.Fault? { return Stop; }
      if kept.Missing? { return Fail; }
      var data := cot.Param(id, m.data, content);
      if data.None? { return Fail; }
      var value := if kept.buffer in buffers then buffers[kept.buffer] else [];
      return if cot.lib.verifyHash(data.value, value) then Pass else Fail;
    }

    /** The key for `auth_signature`: from the parent, or from the image itself once the
        platform's root key vouches for it. `measured` is the answer of the measurement hook. */
    method FindKey(id: nat, content: seq<Byte>, m: Method, measured: bool) returns (v: Verdict, key: seq<Byte>)
      requires id in cot.descs && m.Sig? && (cot.descs[id].parent.Some? ==> cot.descs[id].parent.value in cot.descs)
      ensures v.Pass? ==> SigningKey(cot, View(), id, content, m) == Some(key)
      ensures v.Pass? <==> SigningKey(cot, View(), id, content, m).Some? && (cot.descs[id].parent.None? ==> measured)
    {
      key := [];
      if cot.descs[id].parent.Some? {
        var kept := GetParamOf(cot.descs[cot.descs[id].parent.value], m.pk);
        if kept.Fault? { return Stop, []; }
        if kept.Missing? { return Fail, []; }
        return Pass, if kept.buffer in buffers then buffers[kept.buffer] else [];
      }
      var rotpk := cot.lib.rotpk(m.pk.cookie);
      if rotpk.None? { return Fail, []; }
      var pk := cot.Param(id, m.pk, content);
      if pk.None? { return Fail, []; }
      match rotpk.value {
        case NotDeployed =>
        case KeyHash(hash) =>
          var converted := cot.lib.convertPk(pk.value);
          if converted.None? { return Fail, []; }
          if !cot.lib.verifyHash(converted.value, hash) { return Fail, []; }
        case FullKey(full) =>
          if full != pk.value { return Fail, []; }
      }
      if !measured { return Fail, []; }
      return Pass, pk.value;
    }

    /** `auth_signature`. */
    method AuthSignature(id: nat, content: seq<Byte>, m: Method, measured: bool) returns (v: Verdict)
      requires id in cot.descs && m.Sig? && (cot.descs[id].parent.Some? ==> cot.descs[id].parent.value in cot.descs)
      ensures v.Pass? <==> SigPasses(cot, View(), id, content, m) && (cot.descs[id].parent.None? ==> measured)
    {
      var data := cot.Param(id, m.data, content);
      if data.None? { return Fail; }
      var sig := cot.Param(id, m.sig, content);
      if sig.None? { return Fail; }
      var alg := cot.Param(id, m.alg, content);
      if alg.None? { return Fail; }
      var key;
      v, key := FindKey(id, content, m, measured);
      if !v.Pass? { return; }
      return if cot.lib.verifySignature(data.value, sig.value, alg.value, key) then Pass else Fail;
    }

    /** `auth_nvctr`; `readable` is the answer of the platform's counter. */
    method AuthNvCtr(id: nat, content: seq<Byte>, m: Method, readable: bool)
      returns (v: Verdict, cert: nat, newer: bool)
      requires id in cot.descs && m.NvCtr?
      ensures v.Pass? <==> NvCtrPasses(cot, View(), id, content, m) && readable
      ensures v.Pass? ==> CertCounter(cot, id, content, m) == Some(cert)
      ensures v.Pass? ==> newer == (cert > Counter(View(), m.plat.cookie))
    {
      cert, newer := 0, false;
      var data := cot.Param(id, m.cert, content);
      if data.None? { return Fail, 0, false; }
      var decoded := Der.Decode(data.value);
      if decoded.None? { return Fail, 0, false; }
      cert := decoded.value;
      if !readable { return Fail, cert, false; }
      var plat := if m.plat.cookie in counters then counters[m.plat.cookie] else 0;
      if cert < plat { return Fail, cert, false; }
      return Pass, cert, cert > plat;
    }

    // ---- One image ---------------------------------------------------------------

    /** The loop over the authentication methods. */
    method CheckMethods(id: nat, content: seq<Byte>, env: Env) returns (v: Verdict, pending: Pending, sigDone: bool)
      requires id in cot.descs && cot.descs[id].methods.Some?
      requires cot.descs[id].parent.Some? ==> cot.descs[id].parent.value in cot.descs
      ensures v.Pass? <==> MethodsOk(cot, View(), id, content, env, |cot.descs[id].methods.value|)
      ensures v.Pass? ==> pending == PendingAfter(cot, View(), id, content, env, |cot.descs[id].methods.value|)
      ensures v.Pass? ==> sigDone == Signed(cot, id)
    {
      var methods := cot.descs[id].methods.value;
      v, pending, sigDone := Pass, Pending(false, 0, 0), false;
      var i := 0;
      while i < |methods|
        invariant i <= |methods| && v.Pass? && MethodsOk(cot, View(), id, content, env, i)
        invariant pending == PendingAfter(cot, View(), id, content, env, i)
        invariant sigDone <==> exists k :: 0 <= k < i && methods[k].Sig?
      {
        v, pending, sigDone := CheckOne(id, content, env, i, pending, sigDone);
        if !v.Pass? { return; }
        i := i + 1;
      }
    }

    /** One turn of it. */
    method CheckOne(id: nat, content: seq<Byte>, env: Env, i: nat, before: Pending, signed: bool)
      returns (v: Verdict, pending: Pending, sigDone: bool)
      requires id in cot.descs && cot.descs[id].methods.Some? && i < |cot.descs[id].methods.value|
      requires cot.descs[id].parent.Some? ==> cot.descs[id].parent.value in cot.descs
      requires before == PendingAfter(cot, View(), id, content, env, i)
      ensures v.Pass? <==> MethodOk(cot, View(), id, content, env, i)
      ensures v.Pass? ==> pending == PendingAfter(cot, View(), id, content, env, i + 1)
      ensures sigDone == (signed || cot.descs[id].methods.value[i].Sig?)
    {
      var m := cot.descs[id].methods.value[i];
      v, pending, sigDone := Pass, before, signed;
      match m {
        case NoMethod =>
        case Hash(_, _) =>
          v := AuthHash(id, content, m);
        case Sig(_, _, _, _) =>
          v := AuthSignature(id, content, m, env.measured(i));
          sigDone := true;
        case NvCtr(_, plat) =>
          var cert, newer;
          v, cert, newer := AuthNvCtr(id, content, m, env.readable(i));
          pending := Pending(if newer then env.mayUpgrade(i) else before.need, plat.cookie, cert);
        case UnknownMethod =>
          v := Fail;
      }
    }

    ghost method Append(e: Effect)
      requires LegalHistory(cot, init, history) && Legal(cot, init, history, e)
      requires View() == After(cot, Replay(cot, init, history), e)
      modifies `history
      ensures Valid() && history == old(history) + [e]
    {
      var longer := history + [e];
      assert LegalHistory(cot, init, longer) && Replay(cot, init, longer) == View() by {
        Extend(cot, init, history, e);
      }
      history := longer;
    }

    /** The platform counter is written once everything passed and a signature was checked. */
    method UpgradeCounter(id: nat, content: seq<Byte>, cookie: nat, value: nat)
      requires Valid() && Verified(id, content) in history && Signed(cot, id)
      requires CarriesCounter(cot, id, content, cookie, value) && Counter(View(), cookie) <= value
      modifies this
      ensures Valid() && history == old(history) + [Raised(id, content, cookie, value)]
      ensures flags == old(flags) && buffers == old(buffers) && counters == old(counters)[cookie := value]
    {
      ghost var k :| 0 <= k < |cot.descs[id].methods.value|
                     && CounterOf(cot, id, content, cot.descs[id].methods.value[k], cookie, value);
      Der.AcceptedBelow31Bits(cot.Param(id, cot.descs[id].methods.value[k].cert, content).value);
      counters := counters[cookie := value];
      Append(Raised(id, content, cookie, value));
    }

    /** The certificate is authenticated: its counter may be written now. */
    method RecordAndUpgrade(id: nat, content: seq<Byte>, env: Env, upgrade: bool, cookie: nat, value: nat)
      returns (ok: bool)
      requires Valid() && PassesAll(cot, View(), id, content)
      requires upgrade ==>
        Signed(cot, id) && CarriesCounter(cot, id, content, cookie, value) && Counter(View(), cookie) <= value
      modifies this
      ensures Valid() && old(history) <= history && SinceAbout(old(|history|), id, content)
      ensures flags == old(flags) && buffers == old(buffers) && Verified(id, content) in history
      ensures ok == (upgrade ==> env.writable)
      ensures counters == if upgrade && env.writable then old(counters)[cookie := value] else old(counters)
    {
      Append(Verified(id, content));
      assert history[|history| - 1] == Verified(id, content);
      ok := true;
      if upgrade {
        ok := env.writable;
        if ok { UpgradeCounter(id, content, cookie, value); }
      }
    }

    /** All effects since `n` are about this content of this image. */
    ghost predicate SinceAbout(n: nat, id: nat, content: seq<Byte>)
      reads this
    {
      n <= |history| && forall k :: n <= k < |history| ==> history[k].id == id && history[k].content == content
    }

    /** The slots before `n` are in their buffers. */
    ghost predicate StoredUpTo(id: nat, content: seq<Byte>, n: nat)
      reads this
    {
      forall slot: nat :: slot < n && ValidSlot(cot, id, slot) ==> Stored(id, content, slot) in history
    }

    ghost predicate AllStored(id: nat, content: seq<Byte>)
      reads this
    {
      forall slot :: ValidSlot(cot, id, slot) ==> Stored(id, content, slot) in history
    }

    /** `memcpy` of a parameter to its buffer. */
    method Store(id: nat, content: seq<Byte>, slot: nat, b: nat, buffer: seq<Byte>, bytes: seq<Byte>)
      requires Valid() && Legal(cot, init, history, Stored(id, content, slot)) && ValidSlot(cot, id, slot)
      requires b == SlotBuffer(cot, id, slot) && buffer == Buffer(View(), b)
      requires SlotBytes(cot, id, content, slot) == Some(bytes) && |bytes| <= |buffer|
      modifies this
      ensures Valid() && history == old(history) + [Stored(id, content, slot)]
      ensures flags == old(flags) && counters == old(counters) && SameSizes(old(View()), View())
    {
      buffers := buffers[b := Overlay(buffer, bytes)];
      Append(Stored(id, content, slot));
    }

    /** One turn of the extraction loop. */
    method ExtractOne(id: nat, content: seq<Byte>, env: Env, slot: nat) returns (ok: bool)
      requires Valid() && Verified(id, content) in history && ValidSlot(cot, id, slot)
      modifies this
      ensures Valid() && old(history) <= history && SinceAbout(old(|history|), id, content)
      ensures flags == old(flags) && counters == old(counters) && SameSizes(old(View()), View())
      ensures ok == SlotOk(cot, old(View()), id, content, env, slot)
      ensures ok ==> Stored(id, content, slot) in history
    {
      var param := SlotBytes(cot, id, content, slot);
      if param.None? { return false; }
      var b := SlotBuffer(cot, id, slot);
      var buffer := if b in buffers then buffers[b] else [];
      if |param.value| > |buffer| { return false; }
      Store(id, content, slot, b, buffer, param.value);
      ok := true;
      if cot.descs[id].slots.value[slot].paramType.value.kind.PubKey? { ok := env.published(slot); }
    }

    /** The extraction of the parameters for the children. */
    method Extract(id: nat, content: seq<Byte>, env: Env) returns (ok: bool)
      requires Valid() && id in cot.descs && Verified(id, content) in history
      modifies this
      ensures Valid() && old(history) <= history && SinceAbout(old(|history|), id, content)
      ensures flags == old(flags) && counters == old(counters)
      ensures ok == SlotsOk(cot, old(View()), id, content, env) && (ok ==> AllStored(id, content))
    {
      if cot.descs[id].slots.None? { return true; }
      var slots := cot.descs[id].slots.value;
      var i := 0;
      while i < |slots|
        invariant i <= |slots| && Valid() && old(history) <= history && SinceAbout(old(|history|), id, content)
        invariant flags == old(flags) && counters == old(counters) && SameSizes(old(View()), View())
        invariant StoredUpTo(id, content, i)
        invariant forall slot: nat :: slot < i && ValidSlot(cot, id, slot) ==>
          SlotOk(cot, old(View()), id, content, env, slot)
      {
        if slots[i].paramType.Some? {
          SlotOkSameSizes(cot, old(View()), View(), id, content, env, i);
          ok := ExtractOne(id, content, env, i);
          if !ok { return; }
        }
        i := i + 1;
      }
      return true;
    }

    /** `auth_mod_verify_img`. It succeeds exactly when every method accepts the content, a
        pending counter can be written and every parameter fits; it writes a counter exactly
        when that is pending, signed for and writable; whatever the outcome, it adds to the
        history only legal effects of this content of this image. */
    method VerifyImg(id: nat, content: seq<Byte>, env: Env) returns (v: Verdict)
      requires Valid() && id in cot.descs && (cot.descs[id].parent.Some? ==> cot.descs[id].parent.value in cot.descs)
      modifies this
      ensures Valid() && old(history) <= history && SinceAbout(old(|history|), id, content)
      ensures v.Pass? <==> Accepts(cot, old(View()), id, content, env)
      ensures flags == if v.Pass? then old(flags) + {id} else old(flags)
      ensures v.Pass? ==> Verified(id, content) in history
      ensures
        var s := old(View());
        counters == if Upgrades(cot, s, id, content, env) && env.writable
                    then var p := FinalPending(cot, s, id, content, env); s.counters[p.cookie := p.value]
                    else s.counters
      ensures !Authenticates(cot, old(View()), id, content, env) ==> View() == old(View()) && history == old(history)
    {
      if !cot.lib.integrity(cot.descs[id].imgType, content) { return Fail; }
      if cot.descs[id].methods.None? { return Fail; }
      var pending, sigDone;
      v, pending, sigDone := CheckMethods(id, content, env);
      if !v.Pass? { return; }
      v := Commit(id, content, env, pending, sigDone);
    }

    /** `auth_mod_verify_img` once all methods have passed. */
    method Commit(id: nat, content: seq<Byte>, env: Env, pending: Pending, sigDone: bool) returns (v: Verdict)
      requires Valid() && Authenticates(cot, View(), id, content, env)
      requires pending == FinalPending(cot, View(), id, content, env) && sigDone == Signed(cot, id)
      modifies this
      ensures Valid() && old(history) <= history && SinceAbout(old(|history|), id, content)
      ensures v.Pass? <==> Accepts(cot, old(View()), id, content, env)
      ensures flags == if v.Pass? then old(flags) + {id} else old(flags)
      ensures v.Pass? ==> Verified(id, content) in history
      ensures counters == if pending.need && sigDone && env.writable then old(counters)[pending.cookie := pending.value]
                          else old(counters)
    {
      AuthenticatesPasses(cot, View(), id, content, env);
      PendingIsCarried(cot, View(), id, content, env, |cot.descs[id].methods.value|);
      var ok := RecordAndUpgrade(id, content, env, pending.need && sigDone, pending.cookie, pending.value);
      if !ok { return Fail; }
      SlotsOkSameBuffers(cot, old(View()), View(), id, content, env);
      ok := Extract(id, content, env);
      if !ok { return Fail; }
      MarkAuthenticated(id, content);
      return Pass;
    }

    method MarkAuthenticated(id: nat, content: seq<Byte>)
      requires Valid() && Verified(id, content) in history && AllStored(id, content)
      modifies this
      ensures Valid() && history == old(history) + [Flagged(id, content)]
      ensures flags == old(flags) + {id} && counters == old(counters)
    {
      flags := flags + {id};
      Append(Flagged(id, content));
    }

    /** `auth_mod_get_parent_id`: the parent that still has to be authenticated. */
    method GetParentId(id: nat) returns (parent: Option<nat>)
      requires id in cot.descs
      ensures parent == if cot.descs[id].parent.Some? && cot.descs[id].parent.value !in flags
                        then cot.descs[id].parent else None
    {
      if cot.descs[id].parent.None? { return None; }
      if cot.descs[id].parent.value in flags { return None; }
      return cot.descs[id].parent;
    }
  }
}
