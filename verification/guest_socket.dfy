/** The seven socket handlers of hw/arm/guest-socket.c, as the source writes
    them. Each takes the proxy state, the handle gate's verdict, the guest
    memory and the host primitives' answers, and returns the Step it takes.
    Two behaviours are kept although they are defects (see GuestSocketFixed):
    the cleanup after a failed non-blocking setup stores through fds[-1], and an
    oversized addrlen makes bind and connect return 0. */
module GuestSocket {
  import opened SocketTypes
  import opened GuestMemory
  import opened FdTable

  /** qc_handle_socket. */
  function HandleSocket(p: Proxy, domain: int, kind: int, protocol: int, host: SocketReply): (s: Step)
    ensures |s.proxy.fds| == |p.fds|
    // table exhausted: ENOTSOCK replaces the scan's ENOMEM, nothing else happens
    ensures NoFreeSlot(p.fds) ==>
      s.ret == -1 && s.proxy.fds == p.fds && s.proxy.errno == ENOTSOCK && Silent(s) && s.strays == []
    // success: the first free slot now holds the host descriptor, nothing else changed
    ensures s.ret >= 0 <==> !NoFreeSlot(p.fds) && host.fd >= 0 && host.fcntl.getOk && host.fcntl.setOk
    ensures s.ret >= 0 ==>
      IsFirstFree(p.fds, s.ret) && s.proxy.fds == p.fds[s.ret := host.fd] && s.proxy.errno == p.errno
      && s.calls == [Socket(domain, kind, protocol), GetFlags(s.ret), SetFlags(s.ret)] && s.strays == []
    ensures s.ret < 0 ==> s.ret == -1
    // host socket() failed: its value is stored in the claimed slot anyway
    ensures !NoFreeSlot(p.fds) && host.fd < 0 ==>
      s.proxy.fds == p.fds[FirstFree(p.fds) := host.fd] && s.proxy.errno == HostErrno(host.errno)
      && s.calls == [Socket(domain, kind, protocol)] && s.strays == []
    // non-blocking setup failed: the cleanup goes to slot -1, the claimed slot stays owned
    ensures !NoFreeSlot(p.fds) && host.fd >= 0 && !(host.fcntl.getOk && host.fcntl.setOk) ==>
      s.proxy.fds == p.fds[FirstFree(p.fds) := host.fd] && s.proxy.errno == HostErrno(host.errno)
      && s.strays == [-1]
      && s.calls == [Socket(domain, kind, protocol), GetFlags(FirstFree(p.fds))]
                    + (if host.fcntl.getOk then [SetFlags(FirstFree(p.fds))] else []) + [Close(-1)]
    ensures s.copies == []
    ensures WellFormed(p.fds) && host.fd >= FREE ==> WellFormed(s.proxy.fds)
  {
    var (i, p1) := FindFreeSocket(p);
    if i < 0 then
      Early(p1, ENOTSOCK, -1)
    else
      var fds1 := p1.fds[i := host.fd];
      var created := [Socket(domain, kind, protocol)];
      if host.fd < 0 then
        Step(Proxy(fds1, HostErrno(host.errno)), -1, created, [], [])
      else
        var (retval, setup) := SetSocketNonBlocking(i, host.fcntl);
        if retval < 0 then
          // retval has already been overwritten with -1 here
          var (fds2, strays) := StoreSlot(fds1, retval, FREE);
          Step(Proxy(fds2, HostErrno(host.errno)), retval, created + setup + [Close(retval)], [], strays)
        else
          Step(Proxy(fds1, p1.errno), retval, created + setup, [], [])
  }

  /** qc_handle_accept. */
  function HandleAccept(p: Proxy, gate: Gate, sckt: int, gAddr: nat, gAddrLen: nat, host: AcceptReply): (s: Step)
    ensures |s.proxy.fds| == |p.fds|
    // refused by the gate: the gate's value, its error code if it sets one, nothing else
    ensures gate.Reject? ==>
      Silent(s) && s.proxy.fds == p.fds && s.ret == gate.ret && s.strays == []
      && s.proxy.errno == (if gate.errno.Some? then gate.errno.value else p.errno)
    ensures gate.Proceed? && NoFreeSlot(p.fds) ==>
      s.ret == -1 && s.proxy.fds == p.fds && s.proxy.errno == ENOTSOCK && Silent(s) && s.strays == []
    ensures gate.Proceed? ==>
      (s.ret >= 0 <==> !NoFreeSlot(p.fds) && host.fd >= 0 && host.fcntl.getOk && host.fcntl.setOk)
    ensures gate.Proceed? && s.ret >= 0 ==>
      IsFirstFree(p.fds, s.ret) && s.proxy.fds == p.fds[s.ret := host.fd] && s.proxy.errno == p.errno
      && s.calls == [Accept(sckt), GetFlags(s.ret), SetFlags(s.ret)] && s.strays == []
      && s.copies == [CopyOut(gAddr, host.peer), CopyOut(gAddrLen, host.peerLen)]
    ensures gate.Proceed? && s.ret < 0 ==> s.ret == -1 && s.copies == []
    ensures gate.Proceed? && !NoFreeSlot(p.fds) && host.fd < 0 ==>
      s.proxy.fds == p.fds[FirstFree(p.fds) := host.fd] && s.proxy.errno == HostErrno(host.errno)
      && s.calls == [Accept(sckt)] && s.strays == []
    ensures gate.Proceed? && !NoFreeSlot(p.fds) && host.fd >= 0 && !(host.fcntl.getOk && host.fcntl.setOk) ==>
      s.proxy.fds == p.fds[FirstFree(p.fds) := host.fd] && s.proxy.errno == HostErrno(host.errno)
      && s.strays == [-1]
      && s.calls == [Accept(sckt), GetFlags(FirstFree(p.fds))]
                    + (if host.fcntl.getOk then [SetFlags(FirstFree(p.fds))] else [])
  {
    if gate.Reject? then Rejected(p, gate)
    else
      var (i, p1) := FindFreeSocket(p);
      if i < 0 then
        Early(p1, ENOTSOCK, -1)
      else
        var fds1 := p1.fds[i := host.fd];
        var accepted := [Accept(sckt)];
        if host.fd < 0 then
          Step(Proxy(fds1, HostErrno(host.errno)), -1, accepted, [], [])
        else
          var (retval, setup) := SetSocketNonBlocking(i, host.fcntl);
          if retval < 0 then
            var (fds2, strays) := StoreSlot(fds1, retval, FREE);
            Step(Proxy(fds2, HostErrno(host.errno)), retval, accepted + setup, [], strays)
          else
            Step(Proxy(fds1, p1.errno), retval, accepted + setup,
                 [CopyOut(gAddr, host.peer), CopyOut(gAddrLen, host.peerLen)], [])
  }

  /** qc_handle_bind. */
  function HandleBind(p: Proxy, gate: Gate, mem: Memory, sckt: int, gAddr: nat, addrlen: nat, host: HostReply): (s: Step)
    ensures s.proxy.fds == p.fds && s.strays == []
    ensures gate.Reject? ==>
      Silent(s) && s.ret == gate.ret
      && s.proxy.errno == (if gate.errno.Some? then gate.errno.value else p.errno)
    // oversized address: no copy, no host call, ENOMEM, and yet 0 is returned
    ensures gate.Proceed? && addrlen > SOCKADDR_IN_SIZE ==>
      Silent(s) && s.proxy.errno == ENOMEM && s.ret == 0
    ensures gate.Proceed? && addrlen <= SOCKADDR_IN_SIZE ==>
      s.ret == host.ret
      && s.calls == [Bind(sckt, Read(mem, gAddr, SOCKADDR_IN_SIZE), addrlen)]
      && |s.copies| == (if host.ret < 0 then 1 else 2)
      && s.copies[0] == CopyIn(gAddr, Read(mem, gAddr, SOCKADDR_IN_SIZE))
      && (host.ret < 0 ==> s.proxy.errno == HostErrno(host.errno))
      && (host.ret >= 0 ==> s.copies[1] == CopyOut(gAddr, s.copies[0].data) && s.proxy.errno == p.errno)
  {
    if gate.Reject? then Rejected(p, gate)
    else if addrlen > SOCKADDR_IN_SIZE then Early(p, ENOMEM, 0)
    else
      var addr := Read(mem, gAddr, SOCKADDR_IN_SIZE);
      var calls := [Bind(sckt, addr, addrlen)];
      if host.ret < 0 then
        Step(p.(errno := HostErrno(host.errno)), host.ret, calls, [CopyIn(gAddr, addr)], [])
      else
        Step(p, host.ret, calls, [CopyIn(gAddr, addr), CopyOut(gAddr, addr)], [])
  }

  /** qc_handle_connect. */
  function HandleConnect(p: Proxy, gate: Gate, mem: Memory, sckt: int, gAddr: nat, addrlen: nat, host: HostReply): (s: Step)
    ensures s.proxy.fds == p.fds && s.strays == []
    ensures gate.Reject? ==>
      Silent(s) && s.ret == gate.ret
      && s.proxy.errno == (if gate.errno.Some? then gate.errno.value else p.errno)
    ensures gate.Proceed? && addrlen > SOCKADDR_IN_SIZE ==>
      Silent(s) && s.proxy.errno == ENOMEM && s.ret == 0
    ensures gate.Proceed? && addrlen <= SOCKADDR_IN_SIZE ==>
      s.ret == host.ret
      && s.calls == [Connect(sckt, Read(mem, gAddr, SOCKADDR_IN_SIZE), addrlen)]
      && |s.copies| == (if host.ret < 0 then 1 else 2)
      && s.copies[0] == CopyIn(gAddr, Read(mem, gAddr, SOCKADDR_IN_SIZE))
      && (host.ret < 0 ==> s.proxy.errno == HostErrno(host.errno))
      && (host.ret >= 0 ==> s.copies[1] == CopyOut(gAddr, s.copies[0].data) && s.proxy.errno == p.errno)
  {
    if gate.Reject? then Rejected(p, gate)
    else if addrlen > SOCKADDR_IN_SIZE then Early(p, ENOMEM, 0)
    else
      var addr := Read(mem, gAddr, SOCKADDR_IN_SIZE);
      var calls := [Connect(sckt, addr, addrlen)];
      if host.ret < 0 then
        Step(p.(errno := HostErrno(host.errno)), host.ret, calls, [CopyIn(gAddr, addr)], [])
      else
        Step(p, host.ret, calls, [CopyIn(gAddr, addr), CopyOut(gAddr, addr)], [])
  }

  /** qc_handle_listen. */
  function HandleListen(p: Proxy, gate: Gate, sckt: int, backlog: int, host: HostReply): (s: Step)
    ensures s.proxy.fds == p.fds && s.strays == [] && s.copies == []
    ensures gate.Reject? ==>
      Silent(s) && s.ret == gate.ret
      && s.proxy.errno == (if gate.errno.Some? then gate.errno.value else p.errno)
    ensures gate.Proceed? ==> s.ret == host.ret && s.calls == [Listen(sckt, backlog)]
    ensures gate.Proceed? ==> (s.proxy.errno == if host.ret < 0 then HostErrno(host.errno) else p.errno)
  {
    if gate.Reject? then Rejected(p, gate)
    else if host.ret < 0 then
      Step(p.(errno := HostErrno(host.errno)), host.ret, [Listen(sckt, backlog)], [], [])
    else
      Step(p, host.ret, [Listen(sckt, backlog)], [], [])
  }

  /** qc_handle_recv. `maxBuf` is MAX_BUF_SIZE; the local buffer has that many
      bytes, and the host never reports more bytes than were asked for. */
  function HandleRecv(p: Proxy, gate: Gate, maxBuf: nat, sckt: int, gBuffer: nat, length: nat, flags: int,
                      host: RecvReply): (s: Step)
    requires |host.buffer| == maxBuf
    requires length <= maxBuf ==> host.ret <= length
    ensures s.proxy.fds == p.fds && s.strays == []
    ensures gate.Reject? ==>
      Silent(s) && s.ret == gate.ret
      && s.proxy.errno == (if gate.errno.Some? then gate.errno.value else p.errno)
    ensures gate.Proceed? && length > maxBuf ==> Silent(s) && s.ret == -1 && s.proxy.errno == ENOMEM
    ensures gate.Proceed? && length <= maxBuf ==>
      s.ret == host.ret && s.calls == [Recv(sckt, length, flags)]
    ensures gate.Proceed? && length <= maxBuf && host.ret <= 0 ==>
      s.copies == [] && s.proxy.errno == HostErrno(host.errno)
    // only the bytes actually received go back to the guest
    ensures gate.Proceed? && length <= maxBuf && host.ret > 0 ==>
      s.copies == [CopyOut(gBuffer, host.buffer[..host.ret])] && s.proxy.errno == p.errno
    ensures forall k :: 0 <= k < |s.copies| ==> s.copies[k].CopyOut? && 0 < |s.copies[k].data| == s.ret <= length
  {
    if gate.Reject? then Rejected(p, gate)
    else if length > maxBuf then Early(p, ENOMEM, -1)
    else
      var calls := [Recv(sckt, length, flags)];
      if host.ret <= 0 then
        Step(p.(errno := HostErrno(host.errno)), host.ret, calls, [], [])
      else
        Step(p, host.ret, calls, [CopyOut(gBuffer, host.buffer[..host.ret])], [])
  }

  /** qc_handle_send. `maxBuf` is MAX_BUF_SIZE. */
  function HandleSend(p: Proxy, gate: Gate, mem: Memory, maxBuf: nat, sckt: int, gBuffer: nat, length: nat,
                      flags: int, host: HostReply): (s: Step)
    ensures s.proxy.fds == p.fds && s.strays == []
    ensures gate.Reject? ==>
      Silent(s) && s.ret == gate.ret
      && s.proxy.errno == (if gate.errno.Some? then gate.errno.value else p.errno)
    ensures gate.Proceed? && length > maxBuf ==> Silent(s) && s.ret == -1 && s.proxy.errno == ENOMEM
    // exactly `length` guest bytes are read, and those are what the host sends
    ensures gate.Proceed? && length <= maxBuf ==>
      s.ret == host.ret
      && s.copies == [CopyIn(gBuffer, Read(mem, gBuffer, length))]
      && s.calls == [Send(sckt, Read(mem, gBuffer, length), flags)]
    ensures gate.Proceed? && length <= maxBuf ==>
      (s.proxy.errno == if host.ret < 0 then HostErrno(host.errno) else p.errno)
  {
    if gate.Reject? then Rejected(p, gate)
    else if length > maxBuf then Early(p, ENOMEM, -1)
    else
      var data := Read(mem, gBuffer, length);
      var calls := [Send(sckt, data, flags)];
      if host.ret < 0 then
        Step(p.(errno := HostErrno(host.errno)), host.ret, calls, [CopyIn(gBuffer, data)], [])
      else
        Step(p, host.ret, calls, [CopyIn(gBuffer, data)], [])
  }
}
