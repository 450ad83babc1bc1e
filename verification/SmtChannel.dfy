/** The SMT channels of the SCMI server (`drivers/scmi-msg/smt.c`) as a state machine:
    any number of contexts run `scmi_proccess_smt`, one statement at a time in any
    order, while the agents rewrite the shared memory as they like. */
module SmtChannel {
  import opened Words

  const PAYLOAD_MAX: nat := 92

  datatype Kind = FastCall | Interrupt

  /** Each core enters in at most one context of each kind. */
  datatype Ctx = Ctx(core: nat, kind: Kind)

  /** Where a context is in `scmi_proccess_smt`. */
  datatype Pc =
    | Idle
    | StatusLoaded     // before spin_lock
    | Locked           // holds the spinlock, before reading `busy`
    | SeenFree         // holds the spinlock, read `busy` as false
    | SeenBusy         // holds the spinlock, read `busy` as true
    | Marked           // holds the spinlock, set `busy`
    | Acquired         // channel_set_busy returned true
    | Sized            // the payload size was accepted
    | Accepted         // the status was accepted
    | Copied           // the payload is in the context's buffer
    | Processed        // scmi_process_message returned and the length is written
    | Released         // channel_release_busy returned
    | Refused          // channel_set_busy returned false
    | Rejected         // size or status was bad: leaving without a release

  /** `status` is what was loaded on entry; `payload` is history: the bytes that were
      copied in. No statement reads it. */
  datatype Local = Local(pc: Pc, chan: nat, status: Status, size: nat, payload: seq<Byte>)

  datatype Status = Status(free: bool, error: bool)

  /** `fast` and `interrupt` are the two arrays of input buffers, a row of `PAYLOAD_MAX`
      bytes for each core; `overran` records that a copy went past the end of its array. */
  datatype State = State(
    threads: map<Ctx, Local>, lock: Option<Ctx>, busy: set<nat>, status: map<nat, Status>,
    fast: seq<Byte>, interrupt: seq<Byte>, overran: bool)

  /** One statement of one context, with what it reads from shared memory, or a write
      of an agent. */
  datatype Event =
    | Enter(t: Ctx, chan: nat)
    | TakeLock(t: Ctx)
    | ReadBusy(t: Ctx)
    | SetBusy(t: Ctx)
    | DropLock(t: Ctx)
    | CheckSize(t: Ctx, length: Word32)
    | CheckStatus(t: Ctx)
    | CopyPayload(t: Ctx, payload: seq<Byte>)
    | Process(t: Ctx)
    | Release(t: Ctx)
    | Leave(t: Ctx)
    | AgentWrites(chan: nat, status: Status)

  function Put(s: State, t: Ctx, pc: Pc): State
    requires t in s.threads
  {
    s.(threads := s.threads[t := s.threads[t].(pc := pc)])
  }

  /** A channel starts out free (`scmi_smt_init_agent_channel`). */
  function StatusOf(s: State, chan: nat): Status {
    if chan in s.status then s.status[chan] else Status(true, false)
  }

  /** `length - sizeof(message_header)` in `size_t`. */
  function PayloadSize(length: Word32): nat {
    if length >= 4 then length - 4 else length + TWO_64 - 4
  }

  // ---- The payload buffers ------------------------------------------------------

  function Buffers(s: State, kind: Kind): seq<Byte> {
    if kind.FastCall? then s.fast else s.interrupt
  }

  /** `memcpy` to `at`, as far as the array reaches. */
  function Memcpy(mem: seq<Byte>, at: nat, data: seq<Byte>): (r: seq<Byte>)
    ensures |r| == |mem|
  {
    if at + |data| <= |mem| then mem[..at] + data + mem[at + |data|..]
    else if at <= |mem| then mem[..at] + data[..|mem| - at]
    else mem
  }

  /** `memcpy` of the payload to the row of the context's core. */
  function CopyIn(s: State, t: Ctx, payload: seq<Byte>): State {
    var at := 92 * t.core;
    var after := Memcpy(Buffers(s, t.kind), at, payload);
    var s' := if t.kind.FastCall? then s.(fast := after) else s.(interrupt := after);
    s'.(overran := s.overran || at + |payload| > |after|)
  }

  /** The next state, or None when the event is not possible. */
  function Apply(s: State, e: Event): Option<State> {
    if e.AgentWrites? then Some(s.(status := s.status[e.chan := e.status]))
    else if e.t !in s.threads then None
    else
      var l := s.threads[e.t];
      match (e, l.pc)
      case (Enter(t, chan), Idle) =>
        Some(s.(threads := s.threads[t := Local(StatusLoaded, chan, StatusOf(s, chan), 0, [])]))
      case (TakeLock(t), StatusLoaded) =>
        if s.lock.None? then Some(Put(s, t, Locked).(lock := Some(t))) else None
      case (ReadBusy(t), Locked) =>
        Some(Put(s, t, if l.chan in s.busy then SeenBusy else SeenFree))
      case (SetBusy(t), SeenFree) =>
        Some(Put(s, t, Marked).(busy := s.busy + {l.chan}))
      case (DropLock(t), Marked) => Some(Put(s, t, Acquired).(lock := None))
      case (DropLock(t), SeenBusy) => Some(Put(s, t, Refused).(lock := None))
      case (CheckSize(t, length), Acquired) =>
        var size := PayloadSize(length);
        if size > PAYLOAD_MAX then Some(Put(s, t, Rejected))
        else Some(s.(threads := s.threads[t := l.(pc := Sized, size := size)]))
      case (CheckStatus(t), Sized) =>
        Some(Put(s, t, if l.status.free || l.status.error then Rejected else Accepted))
      case (CopyPayload(t, payload), Accepted) =>
        if |payload| == l.size then
          Some(CopyIn(s.(threads := s.threads[t := l.(pc := Copied, payload := payload)]), t, payload))
        else None
      case (Process(t), Copied) => Some(Put(s, t, Processed))
      case (Release(t), Processed) => Some(Put(s, t, Released).(busy := s.busy - {l.chan}))
      case (Leave(t), Released) =>
        Some(Put(s, t, Idle).(status := s.status[l.chan := StatusOf(s, l.chan).(free := true)]))
      case (Leave(t), Refused) =>
        Some(Put(s, t, Idle).(status := s.status[l.chan := Status(true, true)]))
      case (Leave(t), Rejected) =>
        Some(Put(s, t, Idle).(status := s.status[l.chan := Status(true, true)]))
      case _ => None
  }

  /** A machine: its contexts, and the buffers as they are at first. */
  datatype Machine = Machine(contexts: set<Ctx>, cores: nat, fast: seq<Byte>, interrupt: seq<Byte>)
  {
    ghost predicate Valid() {
      && |fast| == 92 * cores && |interrupt| == 92 * cores
      && forall t :: t in contexts ==> t.core < cores
    }

    function Initial(): State {
      State(map t | t in contexts :: Local(Idle, 0, Status(false, false), 0, []),
            None, {}, map[], fast, interrupt, false)
    }
  }

  function Run(s: State, events: seq<Event>): Option<State>
    decreases |events|
  {
    if events == [] then Some(s)
    else
      var last := |events| - 1;
      match Run(s, events[..last])
      case None => None
      case Some(next) => Apply(next, events[last])
  }

  /** One more event. */
  lemma RunOn(s: State, events: seq<Event>, e: Event)
    ensures Run(s, events + [e]) == if Run(s, events).Some? then Apply(Run(s, events).value, e) else None
  {
    assert (events + [e])[..|events|] == events;
  }

  // ---- Mutual exclusion -------------------------------------------------------

  ghost predicate HoldsLock(pc: Pc) {
    pc.Locked? || pc.SeenFree? || pc.SeenBusy? || pc.Marked?
  }

  /** Between acquiring and releasing. */
  ghost predicate Inside(pc: Pc) {
    pc.Marked? || pc.Acquired? || pc.Sized? || pc.Accepted? || pc.Copied? || pc.Processed?
  }

  ghost predicate Holds(s: State, t: Ctx, chan: nat) {
    t in s.threads && s.threads[t].chan == chan && Inside(s.threads[t].pc)
  }

  ghost predicate LockInv(s: State) {
    && (forall t :: t in s.threads && HoldsLock(s.threads[t].pc) ==> s.lock == Some(t))
    && (forall t :: t in s.threads && s.threads[t].pc.SeenFree? ==> s.threads[t].chan !in s.busy)
  }

  ghost predicate ChannelInv(s: State) {
    && (forall t, chan :: Holds(s, t, chan) ==> chan in s.busy)
    && (forall t, u, chan :: Holds(s, t, chan) && Holds(s, u, chan) ==> t == u)
  }

  /** A context whose message was rejected has left its channel busy and to nobody. */
  ghost predicate StuckInv(s: State) {
    forall t :: t in s.threads && s.threads[t].pc.Rejected? ==> Stuck(s, s.threads[t].chan)
  }

  /** The channel is busy although no context is on its way to releasing it. */
  ghost predicate Stuck(s: State, chan: nat) {
    chan in s.busy && forall t :: t in s.threads && s.threads[t].chan == chan ==>
      !Inside(s.threads[t].pc) && !s.threads[t].pc.SeenFree?
  }

  ghost predicate Inv(s: State) {
    LockInv(s) && ChannelInv(s) && StuckInv(s)
  }

  /** An event moves its own context only. */
  lemma ApplyThreads(s: State, e: Event)
    requires Apply(s, e).Some?
    ensures
      var s' := Apply(s, e).value;
      && s'.threads.Keys == s.threads.Keys
      && (e.AgentWrites? || s'.threads == s.threads[e.t := s'.threads[e.t]])
      && (e.AgentWrites? ==> s'.threads == s.threads)
  {
  }

  /** The lock changes hands only when taken or dropped, and only its holder makes a
      channel busy. */
  lemma ApplyShared(s: State, e: Event)
    requires Apply(s, e).Some?
    ensures
      var s' := Apply(s, e).value;
      && (s'.lock == s.lock || (e.TakeLock? && s.lock.None?) || (e.DropLock? && HoldsLock(s.threads[e.t].pc)))
      && (s'.busy == s.busy || (e.SetBusy? && s.threads[e.t].pc.SeenFree?) || (e.Release? && s'.busy <= s.busy))
  {
  }

  lemma ApplyFrame(s: State, e: Event)
    requires Apply(s, e).Some?
    ensures
      var s' := Apply(s, e).value;
      && s'.threads.Keys == s.threads.Keys
      && (forall t :: t in s.threads && (e.AgentWrites? || t != e.t) ==> s'.threads[t] == s.threads[t])
      && (s'.lock == s.lock || (e.TakeLock? && s.lock.None?) || (e.DropLock? && HoldsLock(s.threads[e.t].pc)))
      && (s'.busy <= s.busy || (e.SetBusy? && s.threads[e.t].pc.SeenFree?))
  {
    ApplyThreads(s, e);
    ApplyShared(s, e);
  }

  lemma ApplyKeepsLock(s: State, e: Event)
    requires LockInv(s) && Apply(s, e).Some?
    ensures LockInv(Apply(s, e).value)
  {
    ApplyFrame(s, e);
    var s' := Apply(s, e).value;
    forall t | t in s'.threads && HoldsLock(s'.threads[t].pc)
      ensures s'.lock == Some(t) && (s'.threads[t].pc.SeenFree? ==> s'.threads[t].chan !in s'.busy)
    {
      if e.AgentWrites? || t != e.t { assert HoldsLock(s.threads[t].pc); } else { OwnLock(s, e); }
    }
  }

  lemma OwnLock(s: State, e: Event)
    requires LockInv(s) && Apply(s, e).Some? && !e.AgentWrites? && HoldsLock(Apply(s, e).value.threads[e.t].pc)
    ensures
      var s' := Apply(s, e).value;
      s'.lock == Some(e.t) && (s'.threads[e.t].pc.SeenFree? ==> s'.threads[e.t].chan !in s'.busy)
  {
  }

  /** A context that is inside was so before, or has just marked a channel that was free. */
  lemma OwnHold(s: State, e: Event)
    requires LockInv(s) && ChannelInv(s) && Apply(s, e).Some? && !e.AgentWrites?
    requires Inside(Apply(s, e).value.threads[e.t].pc)
    ensures
      var chan := Apply(s, e).value.threads[e.t].chan;
      && chan == s.threads[e.t].chan && chan in Apply(s, e).value.busy
      && (Holds(s, e.t, chan) || (e.SetBusy? && chan !in s.busy))
  {
    var chan := s.threads[e.t].chan;
    if Inside(s.threads[e.t].pc) { assert Holds(s, e.t, chan); }
  }

  lemma ApplyKeepsChannel(s: State, e: Event)
    requires LockInv(s) && ChannelInv(s) && Apply(s, e).Some?
    ensures ChannelInv(Apply(s, e).value)
  {
    ApplyFrame(s, e);
    var s' := Apply(s, e).value;
    forall t, chan | Holds(s', t, chan)
      ensures chan in s'.busy && (Holds(s, t, chan) || (e.SetBusy? && e.t == t && chan !in s.busy))
    {
      if !e.AgentWrites? && t == e.t {
        OwnHold(s, e);
      } else {
        assert Holds(s, t, chan);
        if e.Release? { assert Holds(s, e.t, s.threads[e.t].chan); }
      }
    }
  }

  lemma ApplyKeepsStuck(s: State, e: Event)
    requires Inv(s) && Apply(s, e).Some?
    ensures StuckInv(Apply(s, e).value)
  {
    ApplyFrame(s, e);
    var s' := Apply(s, e).value;
    forall t | t in s'.threads && s'.threads[t].pc.Rejected? ensures Stuck(s', s'.threads[t].chan) {
      if !e.AgentWrites? && t == e.t {
        RejectedByCheck(s, e);
        RejectionSticks(s, e);
      } else {
        StuckStays(s, e, s.threads[t].chan);
      }
    }
  }

  lemma {:induction false} RunKeeps(m: Machine, events: seq<Event>)
    requires m.Valid()
    ensures Run(m.Initial(), events).Some? ==> Inv(Run(m.Initial(), events).value)
    decreases |events|
  {
    if events != [] {
      var last := |events| - 1;
      RunKeeps(m, events[..last]);
      match Run(m.Initial(), events[..last])
      case None =>
      case Some(s) =>
        if Apply(s, events[last]).Some? {
          ApplyKeepsLock(s, events[last]);
          ApplyKeepsChannel(s, events[last]);
          ApplyKeepsStuck(s, events[last]);
        }
    }
  }

  /** For any number of cores and any interleaving, two contexts are never both
      between acquiring and releasing one channel. */
  lemma MutualExclusion(m: Machine, events: seq<Event>, t: Ctx, u: Ctx, chan: nat)
    requires m.Valid() && Run(m.Initial(), events).Some? && t != u
    requires Holds(Run(m.Initial(), events).value, t, chan)
    ensures !Holds(Run(m.Initial(), events).value, u, chan)
  {
    RunKeeps(m, events);
  }

  // ---- Payload buffers ----------------------------------------------------------

  /** The size check, with the subtraction wrapping in `size_t`, lets through exactly
      lengths from 4 to 96. */
  lemma SizeAcceptedIff(length: Word32)
    ensures PayloadSize(length) <= PAYLOAD_MAX <==> 4 <= length <= 96
  {
  }

  /** Rows of different contexts do not meet, nor leave their array. */
  lemma RowsApart(cores: nat, t: Ctx, u: Ctx)
    requires t.core < cores && u.core < cores && t != u
    ensures t.kind != u.kind || 92 * t.core + 92 <= 92 * u.core || 92 * u.core + 92 <= 92 * t.core
    ensures 92 * t.core + 92 <= 92 * cores
  {
  }

  lemma MemcpyElsewhere(mem: seq<Byte>, at: nat, data: seq<Byte>, from: nat, to: nat)
    requires at + |data| <= |mem| && from <= to <= |mem| && (to <= at || at + |data| <= from)
    ensures Memcpy(mem, at, data)[from..to] == mem[from..to]
  {
  }

  lemma MemcpyHere(mem: seq<Byte>, at: nat, data: seq<Byte>)
    requires at + |data| <= |mem|
    ensures Memcpy(mem, at, data)[at..at + |data|] == data
  {
  }

  ghost predicate BuffersOk(m: Machine, s: State) {
    && s.threads.Keys == m.contexts && !s.overran
    && |s.fast| == 92 * m.cores && |s.interrupt| == 92 * m.cores
    && forall t :: t in s.threads ==> BufferOk(m, s, t)
  }

  /** An accepted size fits a row, and a copied payload is at the start of the context's own. */
  ghost predicate BufferOk(m: Machine, s: State, t: Ctx)
    requires |s.fast| == 92 * m.cores && |s.interrupt| == 92 * m.cores
  {
    && t in s.threads && t.core < m.cores
    && var l := s.threads[t];
    && (l.pc.Sized? || l.pc.Accepted? || l.pc.Copied? ==> l.size <= 92)
    && (l.pc.Copied? ==> |l.payload| == l.size && InRow(s, t, l.payload))
  }

  ghost predicate InRow(s: State, t: Ctx, payload: seq<Byte>)
    requires 92 * t.core + |payload| <= |Buffers(s, t.kind)|
  {
    Buffers(s, t.kind)[92 * t.core..92 * t.core + |payload|] == payload
  }

  /** Only a copy touches the arrays. */
  lemma OnlyCopiesWrite(s: State, e: Event)
    requires Apply(s, e).Some?
    ensures
      var s' := Apply(s, e).value;
      if e.CopyPayload? then
        && s.threads[e.t].pc.Accepted? && |e.payload| == s.threads[e.t].size
        && s' == CopyIn(s.(threads := s'.threads), e.t, e.payload)
        && s'.threads[e.t] == s.threads[e.t].(pc := Copied, payload := e.payload)
      else s'.fast == s.fast && s'.interrupt == s.interrupt && s'.overran == s.overran
  {
  }

  /** A context that is not copying keeps its size bound as it goes on. */
  lemma OwnBuffer(m: Machine, s: State, e: Event)
    requires Apply(s, e).Some? && !e.AgentWrites? && !e.CopyPayload? && BuffersOk(m, s)
    ensures
      var s' := Apply(s, e).value;
      |s'.fast| == 92 * m.cores && |s'.interrupt| == 92 * m.cores && BufferOk(m, s', e.t)
  {
    assert BufferOk(m, s, e.t);
  }

  /** A copy fills the start of the context's own row and leaves every other row alone. */
  lemma CopyStaysInRow(m: Machine, s: State, e: Event)
    requires m.Valid() && BuffersOk(m, s) && e.CopyPayload? && Apply(s, e).Some?
    ensures BuffersOk(m, Apply(s, e).value)
  {
    OnlyCopiesWrite(s, e);
    ApplyFrame(s, e);
    var s', t, at := Apply(s, e).value, e.t, 92 * e.t.core;
    assert BufferOk(m, s, t);
    RowsApart(m.cores, t, Ctx(t.core, if t.kind.FastCall? then Interrupt else FastCall));
    MemcpyHere(Buffers(s, t.kind), at, e.payload);
    forall u | u in s'.threads ensures BufferOk(m, s', u) {
      if u != t { OtherRowKept(m, s, s', t, e.payload, u); }
    }
  }

  lemma OtherRowKept(m: Machine, s: State, s': State, t: Ctx, payload: seq<Byte>, u: Ctx)
    requires BuffersOk(m, s) && t in s.threads && u in s.threads && t != u && |payload| <= 92
    requires s' == CopyIn(s.(threads := s'.threads), t, payload)
    requires u in s'.threads && s'.threads[u] == s.threads[u]
    ensures |s'.fast| == 92 * m.cores && |s'.interrupt| == 92 * m.cores && BufferOk(m, s', u)
  {
    assert BufferOk(m, s, t) && BufferOk(m, s, u);
    RowsApart(m.cores, t, u);
    RowsApart(m.cores, u, t);
    if t.kind == u.kind && s.threads[u].pc.Copied? {
      var from := 92 * u.core;
      MemcpyElsewhere(Buffers(s, t.kind), 92 * t.core, payload, from, from + |s.threads[u].payload|);
    }
  }

  lemma {:induction false} RunKeepsBuffers(m: Machine, events: seq<Event>)
    requires m.Valid()
    ensures Run(m.Initial(), events).Some? ==> BuffersOk(m, Run(m.Initial(), events).value)
    decreases |events|
  {
    if events != [] {
      var last := |events| - 1;
      var e := events[last];
      RunKeepsBuffers(m, events[..last]);
      match Run(m.Initial(), events[..last])
      case None =>
      case Some(s) =>
        if Apply(s, e).Some? {
          if e.CopyPayload? { CopyStaysInRow(m, s, e); } else { OtherEventKeepsBuffers(m, s, e); }
        }
    }
  }

  lemma OtherEventKeepsBuffers(m: Machine, s: State, e: Event)
    requires BuffersOk(m, s) && Apply(s, e).Some? && !e.CopyPayload?
    ensures BuffersOk(m, Apply(s, e).value)
  {
    OnlyCopiesWrite(s, e);
    ApplyFrame(s, e);
    var s' := Apply(s, e).value;
    forall u | u in s'.threads ensures BufferOk(m, s', u) {
      assert BufferOk(m, s, u);
      if !e.AgentWrites? && u == e.t { OwnBuffer(m, s, e); }
    }
  }

  /** Over every interleaving no copy runs past its array, and until its message is
      processed a context's row holds what that context copied, whatever the others do. */
  lemma PayloadIsPrivate(m: Machine, events: seq<Event>, t: Ctx)
    requires m.Valid() && Run(m.Initial(), events).Some? && t in m.contexts
    ensures
      var s := Run(m.Initial(), events).value;
      && !s.overran && t in s.threads
      && (s.threads[t].pc.Copied? ==>
          && |s.threads[t].payload| <= PAYLOAD_MAX && 92 * t.core + 92 <= |Buffers(s, t.kind)|
          && Buffers(s, t.kind)[92 * t.core..92 * t.core + |s.threads[t].payload|] == s.threads[t].payload)
  {
    RunKeepsBuffers(m, events);
    assert BufferOk(m, Run(m.Initial(), events).value, t);
  }

  /** The length field that the context last read. */
  function LastLength(events: seq<Event>, t: Ctx): Option<Word32>
    decreases |events|
  {
    if events == [] then None
    else
      var e := events[|events| - 1];
      if e.CheckSize? && e.t == t then Some(e.length) else LastLength(events[..|events| - 1], t)
  }

  ghost predicate LengthInv(s: State, events: seq<Event>, t: Ctx) {
    t in s.threads && s.threads[t].pc in {Sized, Accepted, Copied} ==>
      && LastLength(events, t).Some? && s.threads[t].size + 4 == LastLength(events, t).value
      && (s.threads[t].pc.Copied? ==> |s.threads[t].payload| == s.threads[t].size)
  }

  lemma ApplyKeepsLength(s: State, before: seq<Event>, e: Event, t: Ctx)
    requires LengthInv(s, before, t) && Apply(s, e).Some?
    ensures LengthInv(Apply(s, e).value, before + [e], t)
  {
    ApplyThreads(s, e);
    assert (before + [e])[..|before|] == before;
    if e.CheckSize? { SizeAcceptedIff(e.length); }
  }

  /** Over every run, the payload that a context has copied is as long as the length field it
      read says, less the four bytes of the message header. */
  lemma {:induction false} PayloadHasItsLength(m: Machine, events: seq<Event>, t: Ctx)
    requires Run(m.Initial(), events).Some?
    ensures
      var s := Run(m.Initial(), events).value;
      && LengthInv(s, events, t)
      && (t in s.threads && s.threads[t].pc.Copied? ==>
            LastLength(events, t).Some? && |s.threads[t].payload| + 4 == LastLength(events, t).value)
    decreases |events|
  {
    if events != [] {
      var last := |events| - 1;
      PayloadHasItsLength(m, events[..last], t);
      ApplyKeepsLength(Run(m.Initial(), events[..last]).value, events[..last], events[last], t);
      assert events[..last] + [events[last]] == events;
    }
  }

  // ---- A channel that is never released -----------------------------------------

  /** The event finds the message bad: a length outside 4..96, or FREE or ERROR in the
      status that was loaded on entry. */
  predicate Rejects(s: State, e: Event, chan: nat) {
    && (e.CheckSize? || e.CheckStatus?) && e.t in s.threads && s.threads[e.t].chan == chan
    && (if e.CheckSize? then s.threads[e.t].pc.Acquired? && (e.length < 4 || e.length > 96)
        else s.threads[e.t].pc.Sized? && (s.threads[e.t].status.free || s.threads[e.t].status.error))
  }

  /** A context is turned away exactly by such a check. */
  lemma RejectedByCheck(s: State, e: Event)
    requires Apply(s, e).Some? && !e.AgentWrites?
    ensures Apply(s, e).value.threads[e.t].pc.Rejected? <==> Rejects(s, e, s.threads[e.t].chan)
  {
    if e.CheckSize? { SizeAcceptedIff(e.length); }
  }

  /** And that leaves the channel stuck. */
  lemma RejectionSticks(s: State, e: Event)
    requires LockInv(s) && ChannelInv(s) && Apply(s, e).Some? && !e.AgentWrites?
    requires Rejects(s, e, s.threads[e.t].chan)
    ensures Stuck(Apply(s, e).value, s.threads[e.t].chan)
  {
    RejectedByCheck(s, e);
    var chan := s.threads[e.t].chan;
    assert Holds(s, e.t, chan);
    forall u | u in s.threads && s.threads[u].chan == chan && u != e.t
      ensures !Inside(s.threads[u].pc) && !s.threads[u].pc.SeenFree?
    {
      assert Inside(s.threads[u].pc) ==> Holds(s, u, chan);
    }
  }

  lemma StuckStays(s: State, e: Event, chan: nat)
    requires Stuck(s, chan) && Apply(s, e).Some?
    ensures Stuck(Apply(s, e).value, chan)
  {
    ApplyFrame(s, e);
    var s' := Apply(s, e).value;
    forall t | t in s'.threads && s'.threads[t].chan == chan
      ensures !Inside(s'.threads[t].pc) && !s'.threads[t].pc.SeenFree?
    {
      if !e.AgentWrites? && t == e.t { OwnStaysOut(s, e, chan); }
    }
    assert e.Release? ==> Inside(s.threads[e.t].pc);
  }

  lemma OwnStaysOut(s: State, e: Event, chan: nat)
    requires Apply(s, e).Some? && !e.AgentWrites? && chan in s.busy && Apply(s, e).value.threads[e.t].chan == chan
    requires s.threads[e.t].chan == chan ==> !Inside(s.threads[e.t].pc) && !s.threads[e.t].pc.SeenFree?
    ensures !Inside(Apply(s, e).value.threads[e.t].pc) && !Apply(s, e).value.threads[e.t].pc.SeenFree?
  {
  }

  /** For good: whatever happens later, the channel stays busy and no context gets
      past acquiring it again. */
  lemma {:induction false} StuckForever(s: State, events: seq<Event>, chan: nat)
    requires Stuck(s, chan) && Run(s, events).Some?
    ensures Stuck(Run(s, events).value, chan)
    decreases |events|
  {
    if events != [] {
      var last := |events| - 1;
      StuckForever(s, events[..last], chan);
      StuckStays(Run(s, events[..last]).value, events[last], chan);
    }
  }

  /** The event at `k` of the run found a message on this channel bad. */
  ghost predicate RejectedAt(s: State, events: seq<Event>, chan: nat, k: nat) {
    k < |events| && Run(s, events[..k]).Some? && Rejects(Run(s, events[..k]).value, events[k], chan)
  }

  /** A context that stops holding a channel releases it or was turned away. */
  lemma HolderLeaves(s: State, e: Event, t: Ctx, chan: nat)
    requires Apply(s, e).Some? && Holds(s, t, chan) && !Holds(Apply(s, e).value, t, chan)
    ensures chan !in Apply(s, e).value.busy || Rejects(s, e, chan)
  {
    ApplyFrame(s, e);
    assert !e.AgentWrites? && e.t == t;
    RejectedByCheck(s, e);
  }

  /** Over every run from the start, a channel that is stuck now was rejected on. */
  lemma {:induction false} StuckWasRejected(m: Machine, events: seq<Event>, chan: nat) returns (k: nat)
    requires m.Valid() && Run(m.Initial(), events).Some?
    requires var s := Run(m.Initial(), events).value; chan in s.busy && forall t :: !Holds(s, t, chan)
    ensures RejectedAt(m.Initial(), events, chan, k)
    decreases |events|
  {
    var last := |events| - 1;
    var s, e := Run(m.Initial(), events[..last]).value, events[last];
    k := last;
    if !Rejects(s, e, chan) {
      ApplyFrame(s, e);
      if chan !in s.busy {
        assert Holds(Apply(s, e).value, e.t, chan);
      }
      forall t ensures !Holds(s, t, chan) {
        if Holds(s, t, chan) { HolderLeaves(s, e, t, chan); }
      }
      k := StuckWasRejected(m, events[..last], chan);
      assert events[..last][..k] == events[..k];
    }
  }

  /** Exactly when a channel is lost: in a run from the start a channel is stuck if and
      only if some message on it had a bad length or status. */
  lemma StuckIff(m: Machine, events: seq<Event>, chan: nat)
    requires m.Valid() && Run(m.Initial(), events).Some?
    ensures Stuck(Run(m.Initial(), events).value, chan) <==> exists k :: RejectedAt(m.Initial(), events, chan, k)
  {
    var s := Run(m.Initial(), events).value;
    if Stuck(s, chan) {
      var k := StuckWasRejected(m, events, chan);
    }
    if k :| RejectedAt(m.Initial(), events, chan, k) {
      RejectedStaysStuck(m, events, chan, k);
    }
  }

  lemma RejectedStaysStuck(m: Machine, events: seq<Event>, chan: nat, k: nat)
    requires m.Valid() && Run(m.Initial(), events).Some? && RejectedAt(m.Initial(), events, chan, k)
    ensures Stuck(Run(m.Initial(), events).value, chan)
    decreases |events|
  {
    var last := |events| - 1;
    var s, e := Run(m.Initial(), events[..last]).value, events[last];
    if k == last {
      RunKeeps(m, events[..last]);
      RejectionSticks(s, e);
    } else {
      assert events[..last][..k] == events[..k];
      RejectedStaysStuck(m, events[..last], chan, k);
      StuckStays(s, e, chan);
    }
  }

  lemma StatusIsKept(s: State, e: Event)
    requires Apply(s, e).Some? && !e.AgentWrites? && !e.Enter? && !e.Leave?
    ensures
      var l, l' := s.threads[e.t], Apply(s, e).value.threads[e.t];
      !l.pc.Idle? && l'.chan == l.chan && l'.status == l.status
  {
  }

  /** The status that a context checks is the one its channel had when it entered. */
  lemma {:induction false} StatusIsThatOnEntry(m: Machine, events: seq<Event>, t: Ctx) returns (k: nat)
    requires m.Valid() && Run(m.Initial(), events).Some?
    requires var s := Run(m.Initial(), events).value; t in s.threads && !s.threads[t].pc.Idle?
    ensures k < |events| && Run(m.Initial(), events[..k]).Some?
    ensures
      var l := Run(m.Initial(), events).value.threads[t];
      events[k] == Enter(t, l.chan) && l.status == StatusOf(Run(m.Initial(), events[..k]).value, l.chan)
    decreases |events|
  {
    var last := |events| - 1;
    var s, e := Run(m.Initial(), events[..last]).value, events[last];
    ApplyThreads(s, e);
    k := last;
    if !(e.Enter? && e.t == t) {
      if !e.AgentWrites? && e.t == t { StatusIsKept(s, e); }
      k := StatusIsThatOnEntry(m, events[..last], t);
      assert events[..last][..k] == events[..k];
    }
  }

  /** A channel is busy exactly when a context holds it or a message on it was bad: all
      others gave it back. */
  lemma BusyIff(m: Machine, events: seq<Event>, chan: nat)
    requires m.Valid() && Run(m.Initial(), events).Some?
    ensures
      var s := Run(m.Initial(), events).value;
      chan in s.busy <==> (exists t :: Holds(s, t, chan)) || exists k :: RejectedAt(m.Initial(), events, chan, k)
  {
    var s := Run(m.Initial(), events).value;
    RunKeeps(m, events);
    StuckIff(m, events, chan);
    if chan in s.busy && forall t :: !Holds(s, t, chan) {
      var k := StuckWasRejected(m, events, chan);
    }
  }

  // ---- The FREE mark ---------------------------------------------------------------

  /** The event marks the channel free in shared memory. */
  predicate MarksFree(s: State, e: Event, chan: nat) {
    && e.Leave? && e.t in s.threads && s.threads[e.t].chan == chan
    && Apply(s, e).Some? && StatusOf(Apply(s, e).value, chan).free
  }

  /** Exactly when the mark is wrong. A context that leaves marks its channel free; some
      other context then holds the channel if and only if the leaving one had been refused,
      or had released the channel before the other acquired it. */
  lemma MarksFreeWhileHeldIff(s: State, e: Event, chan: nat)
    requires Inv(s) && Apply(s, e).Some? && !e.AgentWrites?
    ensures MarksFree(s, e, chan) && (exists t :: Holds(Apply(s, e).value, t, chan)) <==>
      && e.Leave? && s.threads[e.t].chan == chan
      && (s.threads[e.t].pc.Refused? || s.threads[e.t].pc.Released?)
      && exists t :: t != e.t && Holds(s, t, chan)
  {
    ApplyFrame(s, e);
    var s' := Apply(s, e).value;
    if e.Leave? {
      forall t ensures Holds(s', t, chan) <==> t != e.t && Holds(s, t, chan) {
      }
    }
  }

  // ---- The status after a message -------------------------------------------------------

  /** Since it last entered, the context had its message processed. */
  predicate Served(events: seq<Event>, t: Ctx)
    decreases |events|
  {
    events != [] &&
    var e := events[|events| - 1];
    e == Process(t) || (!(e.Enter? && e.t == t) && Served(events[..|events| - 1], t))
  }

  ghost predicate ServedInv(s: State, events: seq<Event>, t: Ctx) {
    t in s.threads && !s.threads[t].pc.Idle? ==>
      (s.threads[t].pc.Processed? || s.threads[t].pc.Released? <==> Served(events, t))
  }

  lemma ApplyKeepsServed(s: State, before: seq<Event>, e: Event, t: Ctx)
    requires ServedInv(s, before, t) && Apply(s, e).Some?
    ensures ServedInv(Apply(s, e).value, before + [e], t)
  {
    ApplyThreads(s, e);
    assert (before + [e])[..|before|] == before;
  }

  lemma {:induction false} RunKeepsServed(m: Machine, events: seq<Event>, t: Ctx)
    requires Run(m.Initial(), events).Some?
    ensures ServedInv(Run(m.Initial(), events).value, events, t)
    decreases |events|
  {
    if events != [] {
      var last := |events| - 1;
      RunKeepsServed(m, events[..last], t);
      ApplyKeepsServed(Run(m.Initial(), events[..last]).value, events[..last], events[last], t);
      assert events[..last] + [events[last]] == events;
    }
  }

  /** Over every run: a context that leaves marks its own channel free and no other, and adds
      the error mark exactly when its message was not processed. */
  lemma LeaveReports(m: Machine, events: seq<Event>, t: Ctx)
    requires Run(m.Initial(), events + [Leave(t)]).Some?
    ensures Run(m.Initial(), events).Some?
    ensures
      var s, s' := Run(m.Initial(), events).value, Run(m.Initial(), events + [Leave(t)]).value;
      && t in s.threads
      && var chan := s.threads[t].chan;
      && StatusOf(s', chan).free
      && (StatusOf(s', chan).error <==> StatusOf(s, chan).error || !Served(events, t))
      && forall other :: other != chan ==> StatusOf(s', other) == StatusOf(s, other)
  {
    RunOn(m.Initial(), events, Leave(t));
    RunKeepsServed(m, events, t);
  }

  /** Nothing else in the server writes a status. */
  lemma StatusWriters(s: State, e: Event)
    requires Apply(s, e).Some? && Apply(s, e).value.status != s.status
    ensures e.AgentWrites? || (e.Leave? && s.threads[e.t].pc in {Released, Refused, Rejected})
  {
  }

  // ---- Runs that show the failures ---------------------------------------------------

  lemma {:induction false} RunConcat(s: State, a: seq<Event>, b: seq<Event>)
    requires Run(s, a).Some?
    ensures Run(s, a + b) == Run(Run(s, a).value, b)
    decreases |b|
  {
    if b == [] {
      assert a + b == a;
    } else {
      var last := |b| - 1;
      RunConcat(s, a, b[..last]);
      assert (a + b)[..|a + b| - 1] == a + b[..last];
    }
  }

  /** The events lead from `s0` to `s`: whatever comes next goes on from there. */
  ghost predicate Leads(s0: State, events: seq<Event>, s: State) {
    forall more: seq<Event> {:trigger GoOn(s, more)} :: Run(s0, events + more) == GoOn(s, more)
  }

  ghost function GoOn(s: State, more: seq<Event>): Option<State> {
    Run(s, more)
  }

  lemma LeadsTo(s0: State, events: seq<Event>, s: State)
    requires Leads(s0, events, s)
    ensures Run(s0, events) == Some(s)
  {
    assert GoOn(s, []) == Some(s);
    assert events + [] == events;
  }

  lemma Start(s: State)
    ensures Leads(s, [], s)
  {
    forall more: seq<Event> ensures Run(s, [] + more) == GoOn(s, more) {
      assert [] + more == more;
    }
  }

  lemma Go(s0: State, events: seq<Event>, s: State, e: Event, s': State)
    requires Leads(s0, events, s) && Apply(s, e) == Some(s')
    ensures Leads(s0, events + [e], s')
  {
    forall more: seq<Event> ensures Run(s0, events + [e] + more) == GoOn(s', more) {
      assert events + [e] + more == events + ([e] + more);
      assert GoOn(s, [e] + more) == Run(s0, events + ([e] + more));
      RunOn(s, [], e);
      assert [] + [e] == [e];
      RunConcat(s, [e], more);
    }
  }

  lemma Then(s0: State, a: seq<Event>, s: State, b: seq<Event>, s': State)
    requires Leads(s0, a, s) && Leads(s, b, s')
    ensures Leads(s0, a + b, s')
  {
    forall more: seq<Event> ensures Run(s0, a + b + more) == GoOn(s', more) {
      assert a + b + more == a + (b + more);
      assert GoOn(s, b + more) == Run(s0, a + (b + more));
    }
  }

  /** `s` with one context somewhere else. */
  function With(s: State, t: Ctx, l: Local, lock: Option<Ctx>, busy: set<nat>): State {
    s.(threads := s.threads[t := l], lock := lock, busy := busy)
  }

  /** A step of that context. */
  lemma WithApply(s: State, t: Ctx, l: Local, lock: Option<Ctx>, busy: set<nat>, e: Event, l': Local,
                  lock': Option<Ctx>, busy': set<nat>)
    requires
      var now := With(s, t, l, lock, busy);
      Apply(now, e) == Some(now.(threads := now.threads[t := l'], lock := lock', busy := busy'))
    ensures Apply(With(s, t, l, lock, busy), e) == Some(With(s, t, l', lock', busy'))
  {
    assert s.threads[t := l][t := l'] == s.threads[t := l'];
  }

  /** A context acquires a free channel. */
  function Acquire(t: Ctx, chan: nat): seq<Event> {
    [Enter(t, chan)] + [TakeLock(t)] + [ReadBusy(t)] + [SetBusy(t)] + [DropLock(t)]
  }

  lemma Acquires(s: State, t: Ctx, chan: nat)
    requires t in s.threads && s.threads[t].pc.Idle? && s.lock.None? && chan !in s.busy
    ensures Leads(s, Acquire(t, chan),
                  With(s, t, Local(Acquired, chan, StatusOf(s, chan), 0, []), None, s.busy + {chan}))
  {
    var l, b := Local(StatusLoaded, chan, StatusOf(s, chan), 0, []), s.busy;
    var e := [Enter(t, chan)];
    assert [] + e == e;
    Start(s);
    Go(s, [], s, Enter(t, chan), With(s, t, l, None, b));
    LockAndRead(s, t, l, b);
    Go(s, e, With(s, t, l, None, b), TakeLock(t), With(s, t, l.(pc := Locked), Some(t), b));
    e := e + [TakeLock(t)];
    Go(s, e, With(s, t, l.(pc := Locked), Some(t), b), ReadBusy(t), With(s, t, l.(pc := SeenFree), Some(t), b));
    e := e + [ReadBusy(t)];
    WithApply(s, t, l.(pc := SeenFree), Some(t), b, SetBusy(t), l.(pc := Marked), Some(t), b + {chan});
    Go(s, e, With(s, t, l.(pc := SeenFree), Some(t), b), SetBusy(t), With(s, t, l.(pc := Marked), Some(t), b + {chan}));
    e := e + [SetBusy(t)];
    WithApply(s, t, l.(pc := Marked), Some(t), b + {chan}, DropLock(t), l.(pc := Acquired), None, b + {chan});
    Go(s, e, With(s, t, l.(pc := Marked), Some(t), b + {chan}), DropLock(t),
       With(s, t, l.(pc := Acquired), None, b + {chan}));
  }

  lemma LockAndRead(s: State, t: Ctx, l: Local, b: set<nat>)
    requires l.pc.StatusLoaded?
    ensures Apply(With(s, t, l, None, b), TakeLock(t)) == Some(With(s, t, l.(pc := Locked), Some(t), b))
    ensures Apply(With(s, t, l.(pc := Locked), Some(t), b), ReadBusy(t)) ==
      Some(With(s, t, l.(pc := if l.chan in b then SeenBusy else SeenFree), Some(t), b))
  {
    WithApply(s, t, l, None, b, TakeLock(t), l.(pc := Locked), Some(t), b);
    WithApply(s, t, l.(pc := Locked), Some(t), b, ReadBusy(t),
              l.(pc := if l.chan in b then SeenBusy else SeenFree), Some(t), b);
  }

  /** A context is refused a busy channel. */
  function Refusal(u: Ctx, chan: nat): seq<Event> {
    [Enter(u, chan)] + [TakeLock(u)] + [ReadBusy(u)] + [DropLock(u)]
  }

  lemma Refuses(s: State, u: Ctx, chan: nat)
    requires u in s.threads && s.threads[u].pc.Idle? && s.lock.None? && chan in s.busy
    ensures Leads(s, Refusal(u, chan), With(s, u, Local(Refused, chan, StatusOf(s, chan), 0, []), None, s.busy))
  {
    var l, b := Local(StatusLoaded, chan, StatusOf(s, chan), 0, []), s.busy;
    var e := [Enter(u, chan)];
    assert [] + e == e;
    Start(s);
    Go(s, [], s, Enter(u, chan), With(s, u, l, None, b));
    LockAndRead(s, u, l, b);
    Go(s, e, With(s, u, l, None, b), TakeLock(u), With(s, u, l.(pc := Locked), Some(u), b));
    e := e + [TakeLock(u)];
    Go(s, e, With(s, u, l.(pc := Locked), Some(u), b), ReadBusy(u), With(s, u, l.(pc := SeenBusy), Some(u), b));
    e := e + [ReadBusy(u)];
    WithApply(s, u, l.(pc := SeenBusy), Some(u), b, DropLock(u), l.(pc := Refused), None, b);
    Go(s, e, With(s, u, l.(pc := SeenBusy), Some(u), b), DropLock(u), With(s, u, l.(pc := Refused), None, b));
  }

  /** A context serves an empty message and releases the channel. */
  function Service(u: Ctx): seq<Event> {
    [CheckSize(u, 4)] + [CheckStatus(u)] + ([CopyPayload(u, [])] + [Process(u)] + [Release(u)])
  }

  lemma Serves(s: State, u: Ctx, l: Local, b: set<nat>)
    requires l.pc.Acquired? && l.status == Status(false, false) && l.size == 0 && l.payload == []
    requires !s.overran && 92 * u.core <= |Buffers(s, u.kind)|
    ensures Leads(With(s, u, l, None, b), Service(u), With(s, u, l.(pc := Released), None, b - {l.chan}))
  {
    PassesChecks(s, u, l, b);
    IsServed(s, u, l.(pc := Accepted), b);
    Then(With(s, u, l, None, b), [CheckSize(u, 4)] + [CheckStatus(u)], With(s, u, l.(pc := Accepted), None, b),
         [CopyPayload(u, [])] + [Process(u)] + [Release(u)], With(s, u, l.(pc := Released), None, b - {l.chan}));
  }

  lemma PassesChecks(s: State, u: Ctx, l: Local, b: set<nat>)
    requires l.pc.Acquired? && l.status == Status(false, false) && l.size == 0
    ensures Leads(With(s, u, l, None, b), [CheckSize(u, 4)] + [CheckStatus(u)],
                  With(s, u, l.(pc := Accepted), None, b))
  {
    var s0 := With(s, u, l, None, b);
    var e := [CheckSize(u, 4)];
    assert [] + e == e;
    Start(s0);
    WithApply(s, u, l, None, b, CheckSize(u, 4), l.(pc := Sized), None, b);
    Go(s0, [], s0, CheckSize(u, 4), With(s, u, l.(pc := Sized), None, b));
    WithApply(s, u, l.(pc := Sized), None, b, CheckStatus(u), l.(pc := Accepted), None, b);
    Go(s0, e, With(s, u, l.(pc := Sized), None, b), CheckStatus(u), With(s, u, l.(pc := Accepted), None, b));
  }

  lemma IsServed(s: State, u: Ctx, l: Local, b: set<nat>)
    requires l.pc.Accepted? && l.size == 0 && l.payload == []
    requires !s.overran && 92 * u.core <= |Buffers(s, u.kind)|
    ensures Leads(With(s, u, l, None, b), [CopyPayload(u, [])] + [Process(u)] + [Release(u)],
                  With(s, u, l.(pc := Released), None, b - {l.chan}))
  {
    var s0 := With(s, u, l, None, b);
    var e := [CopyPayload(u, [])];
    assert [] + e == e;
    Start(s0);
    CopiesNothing(s, u, l, b);
    Go(s0, [], s0, CopyPayload(u, []), With(s, u, l.(pc := Copied), None, b));
    WithApply(s, u, l.(pc := Copied), None, b, Process(u), l.(pc := Processed), None, b);
    Go(s0, e, With(s, u, l.(pc := Copied), None, b), Process(u), With(s, u, l.(pc := Processed), None, b));
    e := e + [Process(u)];
    WithApply(s, u, l.(pc := Processed), None, b, Release(u), l.(pc := Released), None, b - {l.chan});
    Go(s0, e, With(s, u, l.(pc := Processed), None, b), Release(u),
       With(s, u, l.(pc := Released), None, b - {l.chan}));
  }

  lemma CopiesNothing(s: State, u: Ctx, l: Local, b: set<nat>)
    requires l.pc.Accepted? && l.size == 0 && l.payload == []
    requires !s.overran && 92 * u.core <= |Buffers(s, u.kind)|
    ensures Apply(With(s, u, l, None, b), CopyPayload(u, [])) == Some(With(s, u, l.(pc := Copied), None, b))
  {
    assert Memcpy(Buffers(s, u.kind), 92 * u.core, []) == Buffers(s, u.kind);
    WithApply(s, u, l, None, b, CopyPayload(u, []), l.(pc := Copied), None, b);
  }

  /** On every machine: one message of length 3 takes its channel out of use for good. */
  lemma ShortMessageSticks(m: Machine, t: Ctx, chan: nat)
    requires m.Valid() && t in m.contexts
    ensures
      var r := Run(m.Initial(), Acquire(t, chan) + [CheckSize(t, 3)]);
      r.Some? && Stuck(r.value, chan)
  {
    var s0, events := m.Initial(), Acquire(t, chan);
    assert s0.busy + {chan} == {chan};
    Acquires(s0, t, chan);
    LeadsTo(s0, events, With(s0, t, Local(Acquired, chan, Status(true, false), 0, []), None, {chan}));
    RunOn(s0, events, CheckSize(t, 3));
    RunKeeps(m, events);
    RejectionSticks(Run(s0, events).value, CheckSize(t, 3));
  }

  /** Leaving writes the status and nothing else that matters to the others. */
  lemma LeaveMarks(s: State, u: Ctx, l: Local, b: set<nat>, t: Ctx)
    requires t != u && Holds(s, t, l.chan) && (l.pc.Refused? || l.pc.Released?)
    ensures
      var r := Apply(With(s, u, l, None, b), Leave(u));
      && r.Some? && Holds(r.value, t, l.chan)
      && StatusOf(r.value, l.chan) == Status(true, l.pc.Refused? || StatusOf(s, l.chan).error)
  {
  }

  /** On every machine with two contexts: the second is refused and, leaving, marks the
      channel free and in error that the first is using. */
  lemma RefusedMarksFree(m: Machine, t: Ctx, u: Ctx, chan: nat)
    requires m.Valid() && t in m.contexts && u in m.contexts && t != u
    ensures
      var r := Run(m.Initial(), Acquire(t, chan) + Refusal(u, chan) + [Leave(u)]);
      r.Some? && Holds(r.value, t, chan) && StatusOf(r.value, chan) == Status(true, true)
  {
    var s0 := m.Initial();
    assert s0.busy + {chan} == {chan};
    var s1 := With(s0, t, Local(Acquired, chan, Status(true, false), 0, []), None, {chan});
    var l := Local(Refused, chan, Status(true, false), 0, []);
    var events := Acquire(t, chan) + Refusal(u, chan);
    assert Run(s0, events) == Some(With(s1, u, l, None, {chan})) by {
      Acquires(s0, t, chan);
      Refuses(s1, u, chan);
      Then(s0, Acquire(t, chan), s1, Refusal(u, chan), With(s1, u, l, None, {chan}));
      LeadsTo(s0, events, With(s1, u, l, None, {chan}));
    }
    RunOn(s0, events, Leave(u));
    LeaveMarks(s1, u, l, {chan}, t);
  }

  /** And once an agent has posted a message, the first, having served it, marks the channel
      free after the second has acquired it. */
  lemma ServedMarksFree(m: Machine, t: Ctx, u: Ctx, chan: nat)
    requires m.Valid() && t in m.contexts && u in m.contexts && t != u
    ensures
      var post := [AgentWrites(chan, Status(false, false))];
      var r := Run(m.Initial(), post + Acquire(u, chan) + Service(u) + Acquire(t, chan) + [Leave(u)]);
      r.Some? && Holds(r.value, t, chan) && StatusOf(r.value, chan) == Status(true, false)
  {
    var start, post := m.Initial(), [AgentWrites(chan, Status(false, false))];
    var s0 := start.(status := start.status[chan := Status(false, false)]);
    assert s0.busy + {chan} == {chan} && {chan} - {chan} == {};
    var l := Local(Acquired, chan, Status(false, false), 0, []);
    var s2 := With(s0, u, l.(pc := Released), None, {});
    assert Leads(start, post + Acquire(u, chan) + Service(u), s2) by {
      assert Leads(start, post + Acquire(u, chan), With(s0, u, l, None, {chan})) by {
        Start(start);
        assert [] + post == post;
        Go(start, [], start, post[0], s0);
        Acquires(s0, u, chan);
        Then(start, post, s0, Acquire(u, chan), With(s0, u, l, None, {chan}));
      }
      RowsApart(m.cores, u, Ctx(u.core, if u.kind.FastCall? then Interrupt else FastCall));
      Serves(s0, u, l, {chan});
      Then(start, post + Acquire(u, chan), With(s0, u, l, None, {chan}), Service(u), s2);
    }
    SecondAcquires(start, post + Acquire(u, chan) + Service(u), s0, t, u, chan);
  }

  /** The end of that run. */
  lemma SecondAcquires(start: State, events: seq<Event>, s0: State, t: Ctx, u: Ctx, chan: nat)
    requires t in s0.threads && u in s0.threads && t != u && s0.threads[t].pc.Idle? && s0.lock.None?
    requires StatusOf(s0, chan) == Status(false, false)
    requires Leads(start, events, With(s0, u, Local(Released, chan, Status(false, false), 0, []), None, {}))
    ensures
      var r := Run(start, events + Acquire(t, chan) + [Leave(u)]);
      r.Some? && Holds(r.value, t, chan) && StatusOf(r.value, chan) == Status(true, false)
  {
    var l := Local(Acquired, chan, Status(false, false), 0, []);
    var s2 := With(s0, u, l.(pc := Released), None, {});
    assert s2.busy + {chan} == {chan};
    assert Run(start, events + Acquire(t, chan)) == Some(With(s2, t, l, None, {chan})) by {
      Acquires(s2, t, chan);
      Then(start, events, s2, Acquire(t, chan), With(s2, t, l, None, {chan}));
      LeadsTo(start, events + Acquire(t, chan), With(s2, t, l, None, {chan}));
    }
    RunOn(start, events + Acquire(t, chan), Leave(u));
    var s3 := With(s0, t, l, None, {chan});
    assert With(s2, t, l, None, {chan}) == With(s3, u, l.(pc := Released), None, {chan}) by {
      assert s0.threads[u := l.(pc := Released)][t := l] == s0.threads[t := l][u := l.(pc := Released)];
    }
    LeaveMarks(s3, u, l.(pc := Released), {chan}, t);
  }
}
