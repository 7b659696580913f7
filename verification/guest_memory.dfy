/** The guest address space as the proxy sees it through the emulator's debug
    copy primitive: every address holds a byte; a handler reads a block into a
    host buffer or writes a host buffer back, and the copies it makes are
    recorded in order. */
module GuestMemory {
  import opened SocketTypes

  type Memory = nat -> byte

  /** The len bytes at addr, as a guest-to-host copy obtains them. */
  function Read(mem: Memory, addr: nat, len: nat): (bytes: seq<byte>)
    ensures |bytes| == len
    ensures forall k :: 0 <= k < len ==> bytes[k] == mem(addr + k)
  {
    seq(len, k requires 0 <= k < len => mem(addr + k))
  }

  /** The copy writes guest address x. */
  predicate Covers(c: Copy, x: nat)
  {
    c.CopyOut? && c.addr <= x < c.addr + |c.data|
  }

  /** Copy k writes guest address x and no later copy does. */
  predicate LastWriter(copies: seq<Copy>, x: nat, k: int)
  {
    0 <= k < |copies| && Covers(copies[k], x) && forall j :: k < j < |copies| ==> !Covers(copies[j], x)
  }

  /** The byte at guest address x once the host-to-guest copies of `copies`
      have been applied to mem, in order; the last copy covering x wins. */
  function ByteAfter(mem: Memory, copies: seq<Copy>, x: nat): (b: byte)
    // an address no copy writes keeps its old byte
    ensures Untouched(copies, x) ==> b == mem(x)
    // otherwise the byte comes from the last of the copies that write x
    ensures !Untouched(copies, x) ==>
      exists k :: LastWriter(copies, x, k) && b == copies[k].data[x - copies[k].addr]
    decreases |copies|
  {
    if |copies| == 0 then mem(x)
    else
      var last := copies[|copies| - 1];
      if Covers(last, x) then
        assert LastWriter(copies, x, |copies| - 1);
        last.data[x - last.addr]
      else
        var init := copies[..|copies| - 1];
        assert forall k :: 0 <= k < |init| ==> init[k] == copies[k];
        var b := ByteAfter(mem, init, x);
        // the last copy misses x, so the last writer of x in init is the last in copies
        assert !Untouched(copies, x) ==>
          exists k :: LastWriter(copies, x, k) && b == copies[k].data[x - copies[k].addr]
        by {
          if !Untouched(copies, x) {
            var k :| LastWriter(init, x, k) && b == init[k].data[x - init[k].addr];
            assert LastWriter(copies, x, k);
          }
        }
        b
  }

  /** Guest address x is written by none of the copies. */
  predicate Untouched(copies: seq<Copy>, x: nat)
  {
    forall k :: 0 <= k < |copies| ==> !Covers(copies[k], x)
  }
}
