/** An opened image as the partition and package readers see it. */
module Streams {
  import opened Words

  class Stream {
    const content: seq<Byte>
    /** Every request that can be served is served in full. */
    const reliable: bool
    var pos: nat

    constructor (content: seq<Byte>, reliable: bool)
      ensures this.content == content && this.reliable == reliable && pos == 0
    {
      this.content, this.reliable := content, reliable;
      pos := 0;
    }

    /** `io_seek` from the start; the device may refuse, and must for a negative offset. */
    method Seek(offset: int) returns (ok: bool)
      modifies this
      ensures if ok then 0 <= offset == pos else pos == old(pos)
      ensures reliable && offset >= 0 ==> ok
    {
      ok := *;
      if reliable { ok := true; }
      if offset < 0 { ok := false; }
      if ok { pos := offset; }
    }

    /** `io_read`: may fail, or succeed with fewer bytes than asked. */
    method Read(n: nat) returns (ok: bool, data: seq<Byte>)
      modifies this
      ensures |data| <= n && (!ok ==> data == [])
      ensures ok && data != [] ==> old(pos) + |data| <= |content| && data == content[old(pos)..old(pos) + |data|]
      ensures pos == old(pos) + |data|
      ensures reliable && old(pos) + n <= |content| ==> ok && |data| == n
    {
      var most := if pos + n <= |content| then n else if pos <= |content| then |content| - pos else 0;
      var k :| 0 <= k <= most;
      ok := *;
      if reliable { ok, k := true, most; }
      if !ok { return false, []; }
      data := if k == 0 then [] else content[pos..pos + k];
      pos := pos + k;
    }
  }
}
