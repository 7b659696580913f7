/** Properties that relate several handler calls, or a handler to guest memory:
    the table filling up in first-fit order, the guest bytes each copying
    handler leaves behind, and the defects of the source exhibited as
    concrete consequences. */
module SocketProperties {
  import opened SocketTypes
  import opened GuestMemory
  import opened FdTable
  import opened GuestSocket
  import GuestSocketFixed

  /** The host created a descriptor and both fcntl calls succeeded. */
  predicate Succeeds(r: SocketReply)
  {
    r.fd >= 0 && r.fcntl.getOk && r.fcntl.setOk
  }

  /** The first k slots hold descriptors and the rest are free. */
  predicate FilledUpTo(fds: seq<int>, k: nat)
  {
    k <= |fds|
    && (forall j :: 0 <= j < k ==> fds[j] >= 0)
    && (forall j :: k <= j < |fds| ==> fds[j] == FREE)
  }

  function Min(a: nat, b: nat): nat
  {
    if a <= b then a else b
  }

  /** The handles returned by a series of socket calls, and the final state. */
  function RunCreates(p: Proxy, domain: int, kind: int, protocol: int, replies: seq<SocketReply>): (r: (seq<int>, Proxy))
    ensures |r.0| == |replies|
    ensures |r.1.fds| == |p.fds|
    decreases |replies|
  {
    if |replies| == 0 then ([], p)
    else
      var s := HandleSocket(p, domain, kind, protocol, replies[0]);
      var rest := RunCreates(s.proxy, domain, kind, protocol, replies[1..]);
      ([s.ret] + rest.0, rest.1)
  }

  /** One successful create on a table filled up to k returns handle k, or -1
      once the table is full. */
  lemma CreateTakesNextSlot(p: Proxy, domain: int, kind: int, protocol: int, reply: SocketReply, k: nat)
    requires FilledUpTo(p.fds, k) && Succeeds(reply)
    ensures var s := HandleSocket(p, domain, kind, protocol, reply);
      && s.ret == (if k < |p.fds| then k else -1)
      && s.proxy.fds == (if k < |p.fds| then p.fds[k := reply.fd] else p.fds)
      && FilledUpTo(s.proxy.fds, Min(k + 1, |p.fds|))
  {
    if k < |p.fds| {
      assert IsFirstFree(p.fds, k);
    } else {
      assert NoFreeSlot(p.fds);
    }
  }

  /** From a table whose first k slots are taken, successful creates hand out
      k, k+1, ... up to MAX_FD_COUNT - 1, and -1 from then on; slot k + j ends
      up holding the descriptor of the j-th create, and the first k slots keep
      theirs. */
  lemma {:induction false} CreatesFillTableInOrder(p: Proxy, domain: int, kind: int, protocol: int,
                                                   replies: seq<SocketReply>, k: nat)
    requires FilledUpTo(p.fds, k)
    requires forall j :: 0 <= j < |replies| ==> Succeeds(replies[j])
    ensures var r := RunCreates(p, domain, kind, protocol, replies);
      && (forall j :: 0 <= j < |replies| ==> r.0[j] == if k + j < |p.fds| then k + j else -1)
      && FilledUpTo(r.1.fds, Min(k + |replies|, |p.fds|))
      && (forall j :: 0 <= j < k ==> r.1.fds[j] == p.fds[j])
      && (forall j :: 0 <= j < |replies| && k + j < |p.fds| ==> r.1.fds[k + j] == replies[j].fd)
    decreases |replies|
  {
    if |replies| > 0 {
      var s := HandleSocket(p, domain, kind, protocol, replies[0]);
      CreateTakesNextSlot(p, domain, kind, protocol, replies[0], k);
      var k' := Min(k + 1, |p.fds|);
      CreatesFillTableInOrder(s.proxy, domain, kind, protocol, replies[1..], k');
      var r := RunCreates(p, domain, kind, protocol, replies);
      var rest := RunCreates(s.proxy, domain, kind, protocol, replies[1..]);
      assert r.0 == [s.ret] + rest.0;
      forall j | 1 <= j < |replies|
        ensures r.0[j] == if k + j < |p.fds| then k + j else -1
      {
        assert r.0[j] == rest.0[j - 1];
      }
      forall j | 1 <= j < |replies| && k + j < |p.fds|
        ensures r.1.fds[k + j] == replies[j].fd
      {
        assert k' + (j - 1) == k + j && replies[1..][j - 1] == replies[j];
      }
    }
  }

  /** From an empty table, MAX_FD_COUNT creates succeed with handles
      0, 1, ..., and every create after that fails. */
  lemma EmptyTableFillsThenExhausts(p: Proxy, domain: int, kind: int, protocol: int, replies: seq<SocketReply>)
    requires forall j :: 0 <= j < |p.fds| ==> p.fds[j] == FREE
    requires forall j :: 0 <= j < |replies| ==> Succeeds(replies[j])
    ensures var r := RunCreates(p, domain, kind, protocol, replies);
      forall j :: 0 <= j < |replies| ==> (r.0[j] >= 0 <==> j < |p.fds|) && (j < |p.fds| ==> r.0[j] == j)
  {
    CreatesFillTableInOrder(p, domain, kind, protocol, replies, 0);
  }

  /** Reading the address block and writing the same bytes back leaves every
      guest byte as it was. */
  lemma WriteBackKeepsByte(mem: Memory, gAddr: nat, x: nat)
    ensures var a := Read(mem, gAddr, SOCKADDR_IN_SIZE);
      ByteAfter(mem, [CopyIn(gAddr, a), CopyOut(gAddr, a)], x) == mem(x)
  {
  }

  /** A successful bind copies the address back to where it came from, so
      every guest byte is as it was. */
  lemma BindKeepsGuestMemory(p: Proxy, gate: Gate, mem: Memory, sckt: int, gAddr: nat, addrlen: nat,
                             host: HostReply, x: nat)
    ensures ByteAfter(mem, HandleBind(p, gate, mem, sckt, gAddr, addrlen, host).copies, x) == mem(x)
  {
    if gate.Proceed? && addrlen <= SOCKADDR_IN_SIZE && host.ret >= 0 {
      WriteBackKeepsByte(mem, gAddr, x);
    }
  }

  /** The same for connect. */
  lemma ConnectKeepsGuestMemory(p: Proxy, gate: Gate, mem: Memory, sckt: int, gAddr: nat, addrlen: nat,
                                host: HostReply, x: nat)
    ensures ByteAfter(mem, HandleConnect(p, gate, mem, sckt, gAddr, addrlen, host).copies, x) == mem(x)
  {
    if gate.Proceed? && addrlen <= SOCKADDR_IN_SIZE && host.ret >= 0 {
      WriteBackKeepsByte(mem, gAddr, x);
    }
  }

  /** Send only reads guest memory, and what it hands to the host is exactly
      the `length` guest bytes starting at g_buffer. */
  lemma SendKeepsGuestMemory(p: Proxy, gate: Gate, mem: Memory, maxBuf: nat, sckt: int, gBuffer: nat,
                             length: nat, flags: int, host: HostReply, x: nat)
    ensures ByteAfter(mem, HandleSend(p, gate, mem, maxBuf, sckt, gBuffer, length, flags, host).copies, x) == mem(x)
    ensures var s := HandleSend(p, gate, mem, maxBuf, sckt, gBuffer, length, flags, host);
      gate.Proceed? && length <= maxBuf ==>
        && |s.calls| == 1 && s.calls[0].Send? && |s.calls[0].data| == length
        && forall k :: 0 <= k < length ==> s.calls[0].data[k] == mem(gBuffer + k)
  {
  }

  /** After recv, the r bytes at g_buffer are the bytes received and every other
      guest byte is as it was; a failed or oversized recv changes nothing. */
  lemma RecvWritesOnlyReceivedBytes(p: Proxy, gate: Gate, mem: Memory, maxBuf: nat, sckt: int, gBuffer: nat,
                                    length: nat, flags: int, host: RecvReply, x: nat)
    requires |host.buffer| == maxBuf
    requires length <= maxBuf ==> host.ret <= length
    ensures var s := HandleRecv(p, gate, maxBuf, sckt, gBuffer, length, flags, host);
      && (s.copies != [] ==> gate.Proceed? && 0 < s.ret <= length <= maxBuf)
      && (s.copies != [] && gBuffer <= x < gBuffer + s.ret ==> ByteAfter(mem, s.copies, x) == host.buffer[x - gBuffer])
      && (s.copies == [] || !(gBuffer <= x < gBuffer + s.ret) ==> ByteAfter(mem, s.copies, x) == mem(x))
  {
  }

  /** Source defect: when the non-blocking setup of a new socket fails, the
      cleanup stores through fds[-1] and closes fds[-1], while the slot that
      was claimed keeps the host descriptor. */
  lemma SocketSetupFailureMissesSlot(p: Proxy, domain: int, kind: int, protocol: int, host: SocketReply)
    requires !NoFreeSlot(p.fds) && host.fd >= 0 && !(host.fcntl.getOk && host.fcntl.setOk)
    ensures var s := HandleSocket(p, domain, kind, protocol, host);
      && s.ret == -1
      && !AccessesInRange(s, |p.fds|)
      && s.proxy.fds[FirstFree(p.fds)] == host.fd != FREE
      && s.proxy.fds != p.fds
      && Close(-1) in s.calls
      && Close(FirstFree(p.fds)) !in s.calls
  {
  }

  /** The same defect in accept, where in addition the accepted descriptor is
      never closed. */
  lemma AcceptSetupFailureMissesSlot(p: Proxy, sckt: int, gAddr: nat, gAddrLen: nat, host: AcceptReply)
    requires !NoFreeSlot(p.fds) && host.fd >= 0 && !(host.fcntl.getOk && host.fcntl.setOk)
    ensures var s := HandleAccept(p, Proceed, sckt, gAddr, gAddrLen, host);
      && s.ret == -1
      && !AccessesInRange(s, |p.fds|)
      && s.proxy.fds[FirstFree(p.fds)] == host.fd != FREE
      && s.proxy.fds != p.fds
      && forall k :: 0 <= k < |s.calls| ==> !s.calls[k].Close?
  {
  }

  /** The corrected socket and accept leave the table exactly as it was on the
      same inputs. */
  lemma FixedSetupFailureReleasesSlot(p: Proxy, domain: int, kind: int, protocol: int, host: SocketReply,
                                      sckt: int, gAddr: nat, gAddrLen: nat, peer: SockAddr, peerLen: SockLen)
    requires !NoFreeSlot(p.fds) && host.fd >= 0 && !(host.fcntl.getOk && host.fcntl.setOk)
    requires 0 <= sckt < |p.fds|
    ensures var s := GuestSocketFixed.HandleSocketFixed(p, domain, kind, protocol, host);
      s.ret == -1 && s.proxy.fds == p.fds && AccessesInRange(s, |p.fds|)
    ensures var a := GuestSocketFixed.HandleAcceptFixed(p, Proceed, sckt, gAddr, gAddrLen,
                                                        AcceptReply(host.fd, peer, peerLen, host.fcntl, host.errno));
      a.ret == -1 && a.proxy.fds == p.fds && AccessesInRange(a, |p.fds|) && a.copies == []
  {
  }

  /** Source defect: an oversized addrlen makes bind and connect report success
      although the host call never ran. */
  lemma OversizedAddressReportsSuccess(p: Proxy, mem: Memory, sckt: int, gAddr: nat, addrlen: nat, host: HostReply)
    requires addrlen > SOCKADDR_IN_SIZE
    ensures var b := HandleBind(p, Proceed, mem, sckt, gAddr, addrlen, host);
      b.ret >= 0 && b.calls == [] && b.proxy.errno == ENOMEM
    ensures var c := HandleConnect(p, Proceed, mem, sckt, gAddr, addrlen, host);
      c.ret >= 0 && c.calls == [] && c.proxy.errno == ENOMEM
    ensures GuestSocketFixed.HandleBindFixed(p, Proceed, mem, sckt, gAddr, addrlen, host).ret < 0
    ensures GuestSocketFixed.HandleConnectFixed(p, Proceed, mem, sckt, gAddr, addrlen, host).ret < 0
  {
  }

  /** With a gate that admits only handles of the table, bind, connect,
      listen, send and recv never touch a slot outside it and never write one. */
  lemma GatedHandlersStayInTable(p: Proxy, gate: Gate, mem: Memory, maxBuf: nat, sckt: int, gAddr: nat,
                                 addrlen: nat, backlog: int, length: nat, flags: int,
                                 host: HostReply, rhost: RecvReply)
    requires GuestSocketFixed.GateInRange(gate, sckt, p)
    requires |rhost.buffer| == maxBuf
    requires length <= maxBuf ==> rhost.ret <= length
    ensures AccessesInRange(HandleBind(p, gate, mem, sckt, gAddr, addrlen, host), |p.fds|)
    ensures AccessesInRange(HandleConnect(p, gate, mem, sckt, gAddr, addrlen, host), |p.fds|)
    ensures AccessesInRange(HandleListen(p, gate, sckt, backlog, host), |p.fds|)
    ensures AccessesInRange(HandleSend(p, gate, mem, maxBuf, sckt, gAddr, length, flags, host), |p.fds|)
    ensures AccessesInRange(HandleRecv(p, gate, maxBuf, sckt, gAddr, length, flags, rhost), |p.fds|)
  {
  }
}
