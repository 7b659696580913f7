/** Corrected handlers for the two defects GuestSocket keeps as written:
    - socket and accept release the slot they claimed (closing the new host
      descriptor) when the non-blocking setup fails, instead of storing
      through fds[-1]; both follow the same cleanup policy;
    - bind and connect report an oversized addrlen with a negative result, as
      every other failure is reported.
    Everything else is the behaviour of GuestSocket. */
module GuestSocketFixed {
  import opened SocketTypes
  import opened GuestMemory
  import opened FdTable
  import GuestSocket

  /** The gate lets a handle through only when it names a slot of the table. */
  predicate GateInRange(gate: Gate, sckt: int, p: Proxy)
  {
    gate.Proceed? ==> 0 <= sckt < |p.fds|
  }

  /** Claim the first free slot for the descriptor `fd` the host just produced
      with `produced`, force it non-blocking, and on any failure leave the
      table as it was (given a host that signals failure with -1). */
  function ClaimSlot(p: Proxy, produced: HostCall, fd: int, fcntl: FcntlReply, errno: int): (s: Step)
    ensures |s.proxy.fds| == |p.fds|
    ensures CallInRange(produced, |p.fds|) ==> AccessesInRange(s, |p.fds|)
    ensures s.copies == []
    ensures NoFreeSlot(p.fds) ==> s.ret == -1 && s.proxy.fds == p.fds && s.proxy.errno == ENOTSOCK && s.calls == []
    ensures s.ret >= 0 <==> !NoFreeSlot(p.fds) && fd >= 0 && fcntl.getOk && fcntl.setOk
    ensures s.ret >= 0 ==>
      IsFirstFree(p.fds, s.ret) && s.proxy.fds == p.fds[s.ret := fd] && s.proxy.errno == p.errno
      && s.calls == [produced, GetFlags(s.ret), SetFlags(s.ret)]
    ensures s.ret < 0 ==> s.ret == -1
    // fail closed: a failed claim leaves no slot half-owned
    ensures s.ret < 0 && fd >= FREE ==> s.proxy.fds == p.fds
    ensures !NoFreeSlot(p.fds) && fd >= 0 && !(fcntl.getOk && fcntl.setOk) ==>
      s.proxy.fds == p.fds && s.proxy.errno == HostErrno(errno) && Close(FirstFree(p.fds)) in s.calls
    ensures WellFormed(p.fds) && fd >= FREE ==> WellFormed(s.proxy.fds)
  {
    var (i, p1) := FindFreeSocket(p);
    if i < 0 then
      Early(p1, ENOTSOCK, -1)
    else
      var fds1 := p1.fds[i := fd];
      if fd < 0 then
        Step(Proxy(fds1, HostErrno(errno)), -1, [produced], [], [])
      else
        var (retval, setup) := SetSocketNonBlocking(i, fcntl);
        if retval < 0 then
          assert fds1[i := FREE] == p.fds;
          Step(Proxy(fds1[i := FREE], HostErrno(errno)), -1, [produced] + setup + [Close(i)], [], [])
        else
          Step(Proxy(fds1, p1.errno), i, [produced] + setup, [], [])
  }

  /** qc_handle_socket with the slot released on a failed setup. */
  function HandleSocketFixed(p: Proxy, domain: int, kind: int, protocol: int, host: SocketReply): (s: Step)
    ensures AccessesInRange(s, |p.fds|)
    ensures s.ret < 0 && host.fd >= FREE ==> s.proxy.fds == p.fds
    ensures s.ret >= 0 ==> IsFirstFree(p.fds, s.ret) && s.proxy.fds == p.fds[s.ret := host.fd]
    // agrees with the source whenever the setup does not fail
    ensures host.fd < 0 || (host.fcntl.getOk && host.fcntl.setOk) ==>
      s == GuestSocket.HandleSocket(p, domain, kind, protocol, host)
  {
    ClaimSlot(p, Socket(domain, kind, protocol), host.fd, host.fcntl, host.errno)
  }

  /** qc_handle_accept with the accepted descriptor closed and its slot
      released on a failed setup. */
  function HandleAcceptFixed(p: Proxy, gate: Gate, sckt: int, gAddr: nat, gAddrLen: nat, host: AcceptReply): (s: Step)
    ensures GateInRange(gate, sckt, p) ==> AccessesInRange(s, |p.fds|)
    ensures gate.Proceed? && s.ret < 0 && host.fd >= FREE ==> s.proxy.fds == p.fds && s.copies == []
    ensures gate.Proceed? && s.ret >= 0 ==>
      IsFirstFree(p.fds, s.ret) && s.proxy.fds == p.fds[s.ret := host.fd]
      && s.copies == [CopyOut(gAddr, host.peer), CopyOut(gAddrLen, host.peerLen)]
    ensures gate.Reject? || host.fd < 0 || (host.fcntl.getOk && host.fcntl.setOk) ==>
      s == GuestSocket.HandleAccept(p, gate, sckt, gAddr, gAddrLen, host)
  {
    if gate.Reject? then Rejected(p, gate)
    else
      var s := ClaimSlot(p, Accept(sckt), host.fd, host.fcntl, host.errno);
      if s.ret < 0 then s
      else s.(copies := [CopyOut(gAddr, host.peer), CopyOut(gAddrLen, host.peerLen)])
  }

  /** qc_handle_bind with an oversized addrlen reported as a failure. */
  function HandleBindFixed(p: Proxy, gate: Gate, mem: Memory, sckt: int, gAddr: nat, addrlen: nat, host: HostReply): (s: Step)
    ensures s.proxy.fds == p.fds
    // the return convention: non-negative exactly when the host bind ran and succeeded
    ensures gate.Proceed? ==>
      (s.ret >= 0 <==> addrlen <= SOCKADDR_IN_SIZE && host.ret >= 0)
    ensures gate.Proceed? && s.ret >= 0 ==> s.calls == [Bind(sckt, Read(mem, gAddr, SOCKADDR_IN_SIZE), addrlen)]
    ensures gate.Proceed? && addrlen > SOCKADDR_IN_SIZE ==> Silent(s) && s.proxy.errno == ENOMEM
    ensures addrlen <= SOCKADDR_IN_SIZE ==> s == GuestSocket.HandleBind(p, gate, mem, sckt, gAddr, addrlen, host)
  {
    if gate.Proceed? && addrlen > SOCKADDR_IN_SIZE then Early(p, ENOMEM, -1)
    else GuestSocket.HandleBind(p, gate, mem, sckt, gAddr, addrlen, host)
  }

  /** qc_handle_connect with an oversized addrlen reported as a failure. */
  function HandleConnectFixed(p: Proxy, gate: Gate, mem: Memory, sckt: int, gAddr: nat, addrlen: nat, host: HostReply): (s: Step)
    ensures s.proxy.fds == p.fds
    ensures gate.Proceed? ==>
      (s.ret >= 0 <==> addrlen <= SOCKADDR_IN_SIZE && host.ret >= 0)
    ensures gate.Proceed? && s.ret >= 0 ==> s.calls == [Connect(sckt, Read(mem, gAddr, SOCKADDR_IN_SIZE), addrlen)]
    ensures gate.Proceed? && addrlen > SOCKADDR_IN_SIZE ==> Silent(s) && s.proxy.errno == ENOMEM
    ensures addrlen <= SOCKADDR_IN_SIZE ==> s == GuestSocket.HandleConnect(p, gate, mem, sckt, gAddr, addrlen, host)
  {
    if gate.Proceed? && addrlen > SOCKADDR_IN_SIZE then Early(p, ENOMEM, -1)
    else GuestSocket.HandleConnect(p, gate, mem, sckt, gAddr, addrlen, host)
  }
}
