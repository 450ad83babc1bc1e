/** The firmware-update (FWU) SMC handlers of BL1 as functions on values: one
    function per handler, from the state before the call to the outcome. */
module FwuModel {
  import opened Words

  const INVALID_IMAGE_ID: nat := 0xFFFF_FFFF
  const UINTPTR_MAX: nat := TWO_64 - 1

  datatype World = Secure | NonSecure

  datatype ImageState = Reset | Copying | Copied | Authenticated | Executed | Interrupted

  /** `image_desc_t`: the first four fields are fixed by the platform. */
  datatype Desc = Desc(
    base: Word64, maxSize: Word32, world: World, executable: bool,
    size: Word32, copied: Word32, state: ImageState)

  /** The bytes named by a 32-bit size argument. */
  type Block = d: seq<Byte> | |d| < TWO_32

  type Memory = m: seq<Byte> | |m| == TWO_64 witness Zeroes(TWO_64)

  /** `accepted` and `verified` are history: for each image the concatenation of
      the blocks accepted since its first copy, and the bytes on which its last
      successful authentication ran. No handler reads them. */
  datatype State = State(
    descs: map<nat, Desc>, loaded: seq<nat>, secExec: nat, world: World,
    mem: Memory, authFlags: set<nat>,
    accepted: map<nat, seq<Byte>>, verified: map<nat, seq<Byte>>)

  /** An SMC with what the environment answers while it is served: `data` is the
      memory at `src` (as long as the size argument), `memOk`, `preOk`, `postOk`
      are the platform hooks and `authOk` the verdict of the authentication module. */
  datatype Request =
    | Copy(id: nat, src: Word64, data: Block, imageSize: Word32, memOk: bool, preOk: bool)
    | Auth(id: nat, src: Word64, data: Block, memOk: bool, authOk: bool, postOk: bool)
    | Execute(id: nat)
    | Resume(param: nat)
    | SecImageDone
    | ImageReset(id: nat)
    | UpdateDone

  datatype Code = Success | EPERM | ENOMEM | EAUTH | Param(param: nat)

  /** The statements at which a handler can stop the machine. */
  datatype Site =
    | CopyProgress       // bl1_fwu.c:277-284
    | OverlapState       // bl1_fwu.c:195
    | OverlapEnd         // bl1_fwu.c:210
    | ResumeImage        // bl1_fwu.c:574-578
    | ResumeSecure       // bl1_fwu.c:581
    | ResumeNonSecure    // bl1_fwu.c:587
    | DoneImage          // bl1_fwu.c:637-640
    | DoneTable          // bl1_fwu.c:644
    | ResetSecurity      // bl1_fwu.c:723
    | ResetExecuted      // bl1_fwu.c:744
    | PostImageLoad      // bl1_fwu.c:489
    | Finished           // bl1_fwu.c:688

  datatype Outcome = Done(code: Code, next: State) | Halted(site: Site)

  // ---- Memory -------------------------------------------------------------

  function Wrap(a: nat): (w: Word64)
    requires a < 2 * TWO_64
  {
    if a < TWO_64 then a else a - TWO_64
  }

  /** `memcpy` of `data` to `base`; addresses wrap as `uintptr_t` does. */
  function Write(mem: Memory, base: Word64, data: Block): (m: Memory) {
    if base + |data| <= TWO_64 then mem[..base] + data + mem[base + |data|..]
    else
      var fits := TWO_64 - base;
      data[fits..] + mem[|data| - fits..base] + data[..fits]
  }

  function Read(mem: Memory, base: Word64, n: Word32): (data: Block)
    ensures |data| == n
  {
    if base + n <= TWO_64 then mem[base..base + n] else mem[base..] + mem[..base + n - TWO_64]
  }

  // ---- Table of loaded images ---------------------------------------------

  /** Index of the first slot holding `id`, or the table's length. */
  function Find(table: seq<nat>, id: nat): (i: nat)
    ensures i <= |table|
    ensures i < |table| <==> id in table
    ensures i < |table| ==> table[i] == id
    ensures id !in table[..i]
  {
    if table == [] then 0
    else if table[0] == id then 0
    else
      assert table == [table[0]] + table[1..];
      1 + Find(table[1..], id)
  }

  function AddLoaded(table: seq<nat>, id: nat): Option<seq<nat>> {
    if id in table then Some(table)
    else if INVALID_IMAGE_ID in table then Some(table[Find(table, INVALID_IMAGE_ID) := id])
    else None
  }

  function RemoveLoaded(table: seq<nat>, id: nat): Option<seq<nat>> {
    if id in table then Some(table[Find(table, id) := INVALID_IMAGE_ID]) else None
  }

  // ---- Overlap check ------------------------------------------------------

  datatype Overlap = Clear | Overlapping | OverlapHalt(site: Site)

  /** Last address of an image, computed in `uintptr_t`. */
  function End(d: Desc): (e: Word64) {
    if d.base + d.size == 0 then UINTPTR_MAX else Wrap(d.base + d.size - 1)
  }

  function OverlapsAt(s: State, id: nat, entry: nat): Overlap
    requires id in s.descs
  {
    if entry == INVALID_IMAGE_ID || entry == id then Clear
    else if entry !in s.descs || s.descs[entry].state.Reset? then OverlapHalt(OverlapState)
    else
      var d, checked := s.descs[entry], s.descs[id];
      if d.size == 0 then Clear
      else if End(d) <= d.base then OverlapHalt(OverlapEnd)
      else if End(d) < checked.base || End(checked) < d.base then Clear
      else Overlapping
  }

  function CheckOverlaps(s: State, id: nat, i: nat): Overlap
    requires id in s.descs && i <= |s.loaded|
    decreases |s.loaded| - i
  {
    if i == |s.loaded| then Clear
    else
      var here := OverlapsAt(s, id, s.loaded[i]);
      if here.Clear? then CheckOverlaps(s, id, i + 1) else here
  }

  // ---- Handlers -----------------------------------------------------------

  function Put(s: State, id: nat, d: Desc): State {
    s.(descs := s.descs[id := d])
  }

  /** `bl1_fwu_image_copy`. */
  function CopyStep(s: State, r: Request): Outcome
    requires r.Copy?
  {
    if r.id !in s.descs then Done(EPERM, s)
    else
      var d := s.descs[r.id];
      if s.world.Secure? then Done(EPERM, s)
      else if d.world.NonSecure? then Done(EPERM, s)
      else if !d.state.Reset? && !d.state.Copying? then Done(EPERM, s)
      else if r.src == 0 || |r.data| == 0 || r.src > UINTPTR_MAX - |r.data| then Done(ENOMEM, s)
      else if d.state.Copying? then
        if d.copied == 0 || d.size == 0 || d.copied >= d.size then Halted(CopyProgress)
        else CopyBlock(s, r)
      else if r.imageSize == 0 || r.imageSize > d.maxSize then Done(ENOMEM, s)
      else
        var sized := Put(s, r.id, d.(size := r.imageSize));
        match CheckOverlaps(sized, r.id, 0)
        case OverlapHalt(site) => Halted(site)
        case Overlapping => Done(EPERM, Put(s, r.id, d.(size := 0)))
        case Clear => CopyBlock(Put(s, r.id, d.(size := r.imageSize, copied := 0)), r)
  }

  /** The common tail of a first and a continued copy. */
  function CopyBlock(s: State, r: Request): Outcome
    requires r.Copy? && r.id in s.descs && s.descs[r.id].copied <= s.descs[r.id].size
  {
    var slot := TakeSlot(s, r);
    if slot.Done? && slot.code.Success? then Done(Success, WriteBlock(slot.next, r)) else slot
  }

  /** The source must be mapped and the image must get into the table; a new image is
      then announced to the platform, and taken out again if that fails. */
  function TakeSlot(s: State, r: Request): (o: Outcome)
    requires r.Copy? && r.id in s.descs
    ensures o.Done? && o.next == s.(loaded := o.next.loaded)
  {
    var added := AddLoaded(s.loaded, r.id);
    if !r.memOk then Done(ENOMEM, s)
    else if added.None? then Done(ENOMEM, s)
    else if s.descs[r.id].state.Reset? && !r.preOk then
      var removed := RemoveLoaded(added.value, r.id);
      Done(EPERM, s.(loaded := if removed.Some? then removed.value else added.value))
    else Done(Success, s.(loaded := added.value))
  }

  /** The block that a copy writes: the request's bytes, clipped to what remains. */
  function Clipped(d: Desc, data: Block): (b: Block)
    requires d.copied <= d.size
    ensures |b| <= |data| && d.copied + |b| <= d.size && (|data| > 0 && d.copied < d.size ==> |b| > 0)
  {
    if |data| > d.size - d.copied then data[..d.size - d.copied] else data
  }

  /** The descriptor once `n` more bytes are in. */
  function Advanced(d: Desc, n: nat): Desc
    requires d.copied + n <= d.size
  {
    d.(copied := d.copied + n, state := if n == d.size - d.copied then Copied else Copying)
  }

  /** The history once a block joined those accepted before, or started a new image. */
  function Joined(accepted: map<nat, seq<Byte>>, id: nat, first: bool, block: Block): map<nat, seq<Byte>> {
    accepted[id := (if first || id !in accepted then [] else accepted[id]) + block]
  }

  function WriteBlock(s: State, r: Request): State
    requires r.Copy? && r.id in s.descs && s.descs[r.id].copied <= s.descs[r.id].size
  {
    var d := s.descs[r.id];
    var block := Clipped(d, r.data);
    s.(descs := s.descs[r.id := Advanced(d, |block|)],
       mem := Write(s.mem, Wrap(d.base + d.copied), block),
       accepted := Joined(s.accepted, r.id, d.copied == 0, block))
  }

  /** `bl1_fwu_image_auth`. */
  function AuthStep(s: State, r: Request): Outcome
    requires r.Auth?
  {
    if r.id !in s.descs then Done(EPERM, s)
    else
      var d := s.descs[r.id];
      if s.world.Secure? && !d.state.Reset? then Done(EPERM, s)
      else if s.world.NonSecure? && d.world.Secure? && !d.state.Copied? then Done(EPERM, s)
      else if s.world.NonSecure? && d.world.NonSecure? && !d.state.Reset? then Done(EPERM, s)
      else if d.state.Copied? then Verdict(s, r, Read(s.mem, d.base, d.size))
      else if r.src == 0 || |r.data| == 0 || r.src > UINTPTR_MAX - |r.data| then Done(ENOMEM, s)
      else if !r.memOk then Done(ENOMEM, s)
      else
        var added := AddLoaded(s.loaded, r.id);
        if added.None? then Done(ENOMEM, s)
        else
          Verdict(Put(s, r.id, d.(size := |r.data|)).(loaded := added.value), r, r.data)
  }

  /** What happens to the image once the authentication module has judged `bytes`. */
  function Verdict(s: State, r: Request, bytes: seq<Byte>): Outcome
    requires r.Auth? && r.id in s.descs
  {
    var d := s.descs[r.id];
    if !r.authOk then
      var removed := RemoveLoaded(s.loaded, r.id);
      var table := if removed.Some? then removed.value else s.loaded;
      if d.state.Copied? then
        Done(EAUTH, Put(s, r.id, d.(state := Reset)).(
          loaded := table, mem := Write(s.mem, d.base, Zeroes(d.size))))
      else Done(EAUTH, s.(loaded := table))
    else if !r.postOk then Halted(PostImageLoad)
    else
      Done(Success, Put(s, r.id, d.(state := Authenticated)).(
        authFlags := s.authFlags + {r.id}, verified := s.verified[r.id := bytes]))
  }

  /** `bl1_fwu_image_execute` with `bl1_prepare_next_image`. */
  function ExecuteStep(s: State, id: nat): Outcome {
    if id !in s.descs || s.world.Secure? || s.descs[id].world.NonSecure?
       || !s.descs[id].executable || !s.descs[id].state.Authenticated? then
      Done(EPERM, s)
    else
      Done(Success, Put(s, id, s.descs[id].(state := Executed)).(secExec := id, world := Secure))
  }

  /** `bl1_fwu_image_resume`. */
  function ResumeStep(s: State, param: nat): Outcome {
    if s.secExec !in s.descs then
      if s.world.NonSecure? then Done(EPERM, s) else Halted(ResumeImage)
    else
      var d := s.descs[s.secExec];
      if d.world.NonSecure? || !d.executable then Halted(ResumeImage)
      else if s.world.Secure? then
        if !d.state.Executed? then Halted(ResumeSecure)
        else Done(Param(param), Put(s, s.secExec, d.(state := Interrupted)).(world := NonSecure))
      else
        if !d.state.Interrupted? then Halted(ResumeNonSecure)
        else Done(Param(param), Put(s, s.secExec, d.(state := Executed)).(world := Secure))
  }

  /** `bl1_fwu_sec_image_done`. */
  function SecImageDoneStep(s: State): Outcome {
    if s.world.NonSecure? then Done(EPERM, s)
    else if s.secExec !in s.descs then Halted(DoneImage)
    else
      var d := s.descs[s.secExec];
      if d.world.NonSecure? || !d.executable || !d.state.Executed? then Halted(DoneImage)
      else
        var removed := RemoveLoaded(s.loaded, s.secExec);
        if removed.None? then Halted(DoneTable)
        else
          Done(Success, Put(s, s.secExec, d.(state := Reset)).(
            loaded := removed.value, secExec := INVALID_IMAGE_ID, world := NonSecure))
  }

  /** `bl1_fwu_image_reset`. */
  function ResetStep(s: State, id: nat): Outcome {
    if id !in s.descs || s.world.Secure? then Done(EPERM, s)
    else
      var d := s.descs[id];
      if d.state.Reset? then Done(Success, s)
      else if d.state.Executed? then Halted(ResetExecuted)
      else
        var removed := RemoveLoaded(s.loaded, id);
        if removed.None? then Done(EPERM, s)
        else if d.copied != 0 && d.world.NonSecure? then Halted(ResetSecurity)
        else
          Done(Success, Put(s, id, d.(copied := 0, size := 0, state := Reset)).(
            loaded := removed.value,
            mem := if d.copied != 0 then Write(s.mem, d.base, Zeroes(d.copied)) else s.mem,
            authFlags := s.authFlags - {id}))
  }

  /** `bl1_fwu_smc_handler`. */
  function Step(s: State, r: Request): Outcome {
    match r
    case Copy(_, _, _, _, _, _) => CopyStep(s, r)
    case Auth(_, _, _, _, _, _) => AuthStep(s, r)
    case Execute(id) => ExecuteStep(s, id)
    case Resume(param) => ResumeStep(s, param)
    case SecImageDone => SecImageDoneStep(s)
    case ImageReset(id) => ResetStep(s, id)
    case UpdateDone => Halted(Finished)
  }

  // ---- Runs ---------------------------------------------------------------

  /** The image table of a platform and the non-secure image that BL1 boots to
      drive the update. */
  datatype Platform = Platform(images: map<nat, Desc>, bootId: nat, slots: nat)
  {
    ghost predicate Valid() {
      && INVALID_IMAGE_ID !in images
      && bootId in images && images[bootId].world.NonSecure?
      && forall id :: id in images ==> images[id].state.Reset? && images[id].copied == 0
    }

    /** No image's region runs over the end of the address space. */
    ghost predicate NonWrapping() {
      forall id :: id in images ==> images[id].base + images[id].maxSize <= TWO_64
    }
  }

  function Boot(p: Platform, mem: Memory): State
    requires p.Valid()
  {
    State(p.images[p.bootId := p.images[p.bootId].(state := Executed)],
          seq(p.slots, _ => INVALID_IMAGE_ID), INVALID_IMAGE_ID, NonSecure, mem, {}, map[], map[])
  }

  /** The outcome of serving `requests` one after the other; a halt is final. */
  function Run(s: State, requests: seq<Request>): Outcome
    decreases |requests|
  {
    if requests == [] then Done(Success, s)
    else
      var last := |requests| - 1;
      match Run(s, requests[..last])
      case Halted(site) => Halted(site)
      case Done(_, next) => Step(next, requests[last])
  }
}
