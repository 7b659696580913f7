/** The descriptor table helpers of hw/arm/guest-socket.c: the first-fit scan
    for a free slot, the non-blocking setup of a slot's host descriptor, and a
    store into the table at an index that may lie outside it. */
module FdTable {
  import opened SocketTypes

  /** Reference scan: the least free slot at or after `from`, or -1. */
  function FirstFreeFrom(fds: seq<int>, from: nat): (i: int)
    requires from <= |fds|
    ensures i == -1 || from <= i < |fds|
    ensures i == -1 ==> forall k :: from <= k < |fds| ==> fds[k] != FREE
    ensures i != -1 ==> fds[i] == FREE && forall k :: from <= k < i ==> fds[k] != FREE
    decreases |fds| - from
  {
    if from == |fds| then -1
    else if fds[from] == FREE then from
    else FirstFreeFrom(fds, from + 1)
  }

  function FirstFree(fds: seq<int>): (i: int)
    ensures i == -1 <==> NoFreeSlot(fds)
    ensures i != -1 ==> IsFirstFree(fds, i)
  {
    FirstFreeFrom(fds, 0)
  }

  /** find_free_socket: the first free handle, or -1 with ENOMEM in the error
      cell; the table itself is never written. */
  function FindFreeSocket(p: Proxy): (r: (int, Proxy))
    ensures r.1.fds == p.fds
    ensures r.0 == -1 <==> NoFreeSlot(p.fds)
    ensures r.0 == -1 ==> r.1.errno == ENOMEM
    ensures r.0 != -1 ==> IsFirstFree(p.fds, r.0) && r.1 == p
  {
    var i := FirstFree(p.fds);
    if i == -1 then (-1, p.(errno := ENOMEM)) else (i, p)
  }

  /** The scan of find_free_socket as the source writes it, a loop over the
      slots that stops at the first free one. */
  method ScanForFree(p: Proxy) returns (i: int, p': Proxy)
    ensures p'.fds == p.fds
    ensures i == -1 ==> NoFreeSlot(p.fds) && p' == p.(errno := ENOMEM)
    ensures i != -1 ==> IsFirstFree(p.fds, i) && p' == p
  {
    var k := 0;
    while k < |p.fds|
      invariant 0 <= k <= |p.fds|
      invariant forall j :: 0 <= j < k ==> p.fds[j] != FREE
    {
      if p.fds[k] == FREE {
        return k, p;
      }
      k := k + 1;
    }
    return -1, p.(errno := ENOMEM);
  }

  /** set_socket_non_blocking(index): read the flags of fds[index], then write
      them back with O_NONBLOCK; returns index when both succeed and -1 as soon
      as one fails. The table is not an output: it is never written. */
  function SetSocketNonBlocking(index: int, f: FcntlReply): (r: (int, seq<HostCall>))
    ensures f.getOk && f.setOk ==> r.0 == index
    ensures !(f.getOk && f.setOk) ==> r.0 == -1
    // the flag write is attempted only after a successful flag read, and no other call is made
    ensures r.1 == [GetFlags(index)] + (if f.getOk then [SetFlags(index)] else [])
    ensures |r.1| >= 1 && r.1[0] == GetFlags(index)
    ensures SetFlags(index) in r.1 <==> f.getOk
    ensures forall k :: 0 <= k < |r.1| ==> !r.1[k].Socket? && r.1[k].slot == index
  {
    if !f.getOk then (-1, [GetFlags(index)])
    else if !f.setOk then (-1, [GetFlags(index), SetFlags(index)])
    else (index, [GetFlags(index), SetFlags(index)])
  }

  /** `fds[index] = v`: inside the table it replaces one slot; outside it the
      table is left as it was and the index is reported as a stray store. */
  function StoreSlot(fds: seq<int>, index: int, v: int): (r: (seq<int>, seq<int>))
    ensures |r.0| == |fds|
    ensures forall k :: 0 <= k < |fds| && k != index ==> r.0[k] == fds[k]
    ensures 0 <= index < |fds| ==> r.0[index] == v && r.1 == []
    ensures !(0 <= index < |fds|) ==> r.0 == fds && r.1 == [index]
  {
    if 0 <= index < |fds| then (fds[index := v], []) else (fds, [index])
  }
}
