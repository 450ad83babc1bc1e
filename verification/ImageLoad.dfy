/** Loading images together with the images that authenticate them (`common/bl_common.c`). */
module ImageLoad {
  import opened Words
  import opened AuthModel
  import opened AuthModule
  import opened CotForest

  /** How the platform answers for one image: whether it is found and opened, its size
      and bytes, how a read ends, and what happens while it is verified. */
  datatype Source = Source(found: bool, sized: bool, data: seq<Byte>, readOk: bool, bytesRead: nat, env: Env)

  /** The image is there, fits and is read in full. */
  predicate Loads(source: Source, room: nat) {
    && source.found && source.sized && 0 < |source.data| <= room
    && source.readOk && source.bytesRead >= |source.data|
  }

  datatype Code = Ok | IoError | TooBig | AuthError | MeasureError | Stopped
  {
    /** The image could not be loaded or authenticated. */
    predicate IsFailure() { IoError? || TooBig? || AuthError? }
  }

  /** One call of `load_auth_image`: a way to load for each instance of the image, and
      the answer of the measurement. */
  datatype Load = Load(id: nat, instances: seq<nat -> Source>, measured: bool)

  /** Instance `k` is there in full and is accepted in whatever state. */
  ghost predicate Sure(cot: Cot, load: Load, k: nat, room: nat)
    requires k < |load.instances|
  {
    var source := load.instances[k](load.id);
    Loads(source, room) && forall s :: Accepts(cot, s, load.id, source.data, source.env)
  }

  ghost predicate Lower(rank: map<nat, nat>, f: nat, id: nat) {
    f in rank && id in rank && rank[f] < rank[id]
  }

  /** `image_info_t`: where an image goes. */
  class ImageInfo {
    /** The memory at `image_base`, of `image_max_size` bytes. */
    const memory: array<Byte>
    var imageSize: nat

    constructor (memory: array<Byte>)
      ensures this.memory == memory && imageSize == 0
    {
      this.memory := memory;
      imageSize := 0;
    }

    ghost predicate Valid()
      reads this
    {
      imageSize <= memory.Length
    }

    /** The image as it lies in memory. */
    ghost function Image(): seq<Byte>
      reads this, memory
      requires Valid()
    {
      memory[..imageSize]
    }

    /** `load_image`: checks the size before it reads. */
    method LoadImage(source: Source) returns (code: Code)
      requires Valid()
      modifies this, memory
      ensures Valid()
      ensures code.Ok? || code.IoError? || code.TooBig?
      ensures code.Ok? <==> source.found && source.sized && 0 < |source.data| <= memory.Length
                            && source.readOk && source.bytesRead >= |source.data|
      ensures code.Ok? ==> imageSize == |source.data| && Image() == source.data
      ensures code.TooBig? <==> source.found && source.sized && |source.data| > memory.Length
      ensures code.TooBig? ==> memory[..] == old(memory[..]) && imageSize == old(imageSize)
    {
      if !source.found || !source.sized { return IoError; }
      if |source.data| == 0 { return IoError; }
      if |source.data| > memory.Length { return TooBig; }
      imageSize := |source.data|;
      var got := if source.bytesRead < |source.data| then source.bytesRead else |source.data|;
      forall i | 0 <= i < got { memory[i] := source.data[i]; }
      if !source.readOk { return IoError; }
      if source.bytesRead < |source.data| { return IoError; }
      return Ok;
    }

    method ZeroImage()
      requires Valid()
      modifies memory
      ensures Image() == Zeroes(imageSize)
    {
      forall i | 0 <= i < imageSize { memory[i] := 0; }
    }
  }

  class Loader {
    const auth: Auth

    constructor (auth: Auth)
      ensures this.auth == auth
    {
      this.auth := auth;
    }

    /** The chain of trust is a forest, the history is legal, every flagged image's parent
        is flagged and was so before the image passed. */
    ghost predicate Valid(rank: map<nat, nat>)
      reads auth
    {
      && auth.Valid() && auth.cot.Ranked(rank)
      && ParentsFlagged(auth.cot, auth.flags)
      && auth.init.flags == {} && ParentsFirst(auth.cot, auth.init, auth.history)
    }

    /** What a load leaves at its place: the image, verified, or zeroes after a failed
        verification. */
    ghost predicate Left(info: ImageInfo, id: nat, code: Code)
      reads auth, info, info.memory
    {
      && info.Valid()
      && (code.Ok? ==> id in auth.flags && Verified(id, info.Image()) in auth.history)
      && (code.AuthError? ==> info.Image() == Zeroes(info.imageSize))
    }

    /** `load_auth_image_recursive` once the parents are authenticated. */
    method LoadAndVerify(info: ImageInfo, id: nat, source: Source, ghost rank: map<nat, nat>) returns (code: Code)
      requires Valid(rank) && info.Valid() && id in auth.cot.descs
      requires auth.cot.descs[id].parent.Some? ==> auth.cot.descs[id].parent.value in auth.flags
      modifies info, info.memory, auth
      ensures Valid(rank) && old(auth.history) <= auth.history && Left(info, id, code)
      ensures auth.flags == if code.Ok? then old(auth.flags) + {id} else old(auth.flags)
      ensures code.Ok? <==>
        Loads(source, info.memory.Length) && Accepts(auth.cot, old(auth.View()), id, source.data, source.env)
    {
      code := info.LoadImage(source);
      if !code.Ok? { return; }
      var verdict := auth.VerifyImg(id, info.memory[..info.imageSize], source.env);
      ParentsStayFirst(auth.cot, auth.init, old(auth.history), auth.history, id);
      match verdict
      case Pass => code := Ok;
      case Stop => code := Stopped;
      case Fail =>
        info.ZeroImage();
        code := AuthError;
    }

    /** `load_auth_image_recursive`. The recursion goes up the forest, so it ends; it flags
        no image but this one, if it succeeds, and images above it. */
    method LoadRecursive(info: ImageInfo, id: nat, storage: nat -> Source, ghost rank: map<nat, nat>)
      returns (code: Code)
      requires Valid(rank) && info.Valid() && id in auth.cot.descs
      modifies info, info.memory, auth
      ensures Valid(rank) && old(auth.flags) <= auth.flags && old(auth.history) <= auth.history
      ensures Left(info, id, code) && FlaggedAtMost(old(auth.flags), rank, id, code.Ok?)
      ensures old(ParentReady(id)) ==> (code.Ok? <==>
        && Loads(storage(id), info.memory.Length)
        && Accepts(auth.cot, old(auth.View()), id, storage(id).data, storage(id).env))
      decreases if id in rank then rank[id] else 0
    {
      var parent := auth.GetParentId(id);
      if parent.Some? {
        code := LoadRecursive(info, parent.value, storage, rank);
        forall f | f == parent.value || Ancestor(auth.cot, f, parent.value) ensures Ancestor(auth.cot, f, id) {
          AncestorOfParent(auth.cot, f, id);
        }
        if !code.Ok? { return; }
      }
      code := LoadAndVerify(info, id, storage(id), rank);
    }

    /** The image has no parent that is still to be authenticated. */
    ghost predicate ParentReady(id: nat)
      reads auth
    {
      id in auth.cot.descs && (auth.cot.descs[id].parent.Some? ==> auth.cot.descs[id].parent.value in auth.flags)
    }

    /** Newly flagged images lie above `id`, or are `id` itself if that is allowed. */
    ghost predicate FlaggedAtMost(before: set<nat>, rank: map<nat, nat>, id: nat, self: bool)
      reads auth
    {
      forall f :: f in auth.flags && f !in before ==>
        (f == id && self) || (Lower(rank, f, id) && Ancestor(auth.cot, f, id))
    }

    /** `load_auth_image` with authentication on: one attempt for each instance that the
        platform has of the image, then the measurement. */
    method LoadAuthImage(info: ImageInfo, load: Load, ghost rank: map<nat, nat>) returns (code: Code)
      requires Valid(rank) && info.Valid() && load.id in auth.cot.descs && load.instances != []
      modifies info, info.memory, auth
      ensures Valid(rank) && old(auth.flags) <= auth.flags && old(auth.history) <= auth.history
      ensures Left(info, load.id, code)
      ensures load.id in auth.flags - old(auth.flags) ==> code.Ok? || code.MeasureError?
      ensures old(ParentReady(load.id)) && code.IsFailure() ==>
        forall k :: 0 <= k < |load.instances| ==> !Sure(auth.cot, load, k, info.memory.Length)
    {
      code := LoadRecursive(info, load.id, load.instances[0], rank);
      var k := 1;
      while !code.Ok? && !code.Stopped? && k < |load.instances|
        invariant 1 <= k <= |load.instances|
        invariant Valid(rank) && old(auth.flags) <= auth.flags && old(auth.history) <= auth.history
        invariant Left(info, load.id, code)
        invariant load.id in auth.flags - old(auth.flags) ==> code.Ok?
        invariant old(ParentReady(load.id)) && !code.Ok? ==>
          forall j :: 0 <= j < k ==> !Sure(auth.cot, load, j, info.memory.Length)
        decreases |load.instances| - k
      {
        code := LoadRecursive(info, load.id, load.instances[k], rank);
        k := k + 1;
      }
      if code.Ok? && !load.measured { code := MeasureError; }
    }

    /** Any sequence of loads on any finite chain of trust without cycles, from the initial
        state: whatever failed in between, a flagged image has all its ancestors flagged, an
        image that passed had every hash, signature and counter check made, and the hashes
        and keys of its parent that these used came from verified content of the parent. If the
        images go to separate places, each place holds in the end what its load left there: the
        verified image, or zeroes. */
    method LoadAll(loads: seq<Load>, infos: seq<ImageInfo>) returns (codes: seq<Code>)
      requires auth.Valid() && auth.history == [] && auth.init.flags == {}
      requires Closed(auth.cot) && Acyclic(auth.cot)
      requires |infos| == |loads| && forall k :: 0 <= k < |infos| ==> infos[k].Valid()
      requires forall k :: 0 <= k < |loads| ==> loads[k].id in auth.cot.descs && loads[k].instances != []
      modifies auth, infos, set info | info in infos :: info.memory
      ensures auth.Valid()
      ensures |codes| == |loads| && forall k :: 0 <= k < |loads| && codes[k].Ok? ==> loads[k].id in auth.flags
      ensures forall a, id :: id in auth.flags && Ancestor(auth.cot, a, id) ==> a in auth.flags
      ensures ChecksMade(auth.cot, auth.init, auth.history)
      ensures auth.cot.SeparateBuffers() ==> ChecksRest(auth.cot, auth.init, auth.history)
      ensures SeparatePlaces(infos) ==> forall k :: 0 <= k < |loads| ==> Left(infos[k], loads[k].id, codes[k])
    {
      AcyclicIsForest(auth.cot);
      ghost var rank :| auth.cot.Ranked(rank);
      codes := LoadInOrder(loads, infos, rank);
      AllChecksMade(auth.cot, auth.init, auth.history);
      if auth.cot.SeparateBuffers() { AllChecksRest(auth.cot, auth.init, auth.history); }
      forall a, id | id in auth.flags && Ancestor(auth.cot, a, id) ensures a in auth.flags {
        var n: nat :| n > 0 && Up(auth.cot, id, n) == Some(a);
        AncestorsFlagged(auth.cot, auth.flags, id, n);
      }
    }

    /** The loads one after the other. */
    method LoadInOrder(loads: seq<Load>, infos: seq<ImageInfo>, ghost rank: map<nat, nat>) returns (codes: seq<Code>)
      requires Valid(rank)
      requires |infos| == |loads| && forall k :: 0 <= k < |infos| ==> infos[k].Valid()
      requires forall k :: 0 <= k < |loads| ==> loads[k].id in auth.cot.descs && loads[k].instances != []
      modifies auth, infos, set info | info in infos :: info.memory
      ensures Valid(rank) && |codes| == |loads|
      ensures forall k :: 0 <= k < |loads| && codes[k].Ok? ==> loads[k].id in auth.flags
      ensures SeparatePlaces(infos) ==> forall k :: 0 <= k < |loads| ==> Left(infos[k], loads[k].id, codes[k])
    {
      codes := [];
      for k := 0 to |loads|
        invariant Valid(rank) && |codes| == k
        invariant forall j :: 0 <= j < |infos| ==> infos[j].Valid()
        invariant forall j :: 0 <= j < k && codes[j].Ok? ==> loads[j].id in auth.flags
        invariant SeparatePlaces(infos) ==> forall j :: 0 <= j < k ==> Left(infos[j], loads[j].id, codes[j])
      {
        var code := LoadAuthImage(infos[k], loads[k], rank);
        codes := codes + [code];
      }
    }
  }

  /** No two images go to the same place. */
  ghost predicate SeparatePlaces(infos: seq<ImageInfo>) {
    forall i, j :: 0 <= i < j < |infos| ==> infos[i] != infos[j] && infos[i].memory != infos[j].memory
  }
}
