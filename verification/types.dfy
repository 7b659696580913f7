/** Entities of the guest-socket proxy: the descriptor table and error cell it
    owns, the host primitives it calls (whose answers are inputs of the model),
    and the record of what one handler invocation did. */
module SocketTypes {

  newtype byte = x: int | 0 <= x < 256

  datatype Option<T> = None | Some(value: T)

  /** Table entry meaning "no host descriptor here". */
  const FREE: int := -1

  /** sizeof(struct sockaddr_in): the fixed block copied for bind, connect and accept. */
  const SOCKADDR_IN_SIZE: nat := 16

  /** sizeof(socklen_t): the length word written back by accept. */
  const SOCKLEN_SIZE: nat := 4

  type SockAddr = s: seq<byte> | |s| == SOCKADDR_IN_SIZE witness seq(SOCKADDR_IN_SIZE, _ => 0)

  type SockLen = s: seq<byte> | |s| == SOCKLEN_SIZE witness seq(SOCKLEN_SIZE, _ => 0)

  /** Value of the shared error cell. The two codes the proxy picks itself are
      named; everything else is the host's errno passed through. */
  datatype ErrorCode = ENOMEM | ENOTSOCK | HostErrno(code: int)

  /** The proxy's whole mutable state: the table of MAX_FD_COUNT slots, indexed
      by guest handle, and the single error cell. */
  datatype Proxy = Proxy(fds: seq<int>, errno: ErrorCode)

  /** One call into the host OS. `slot` is the table index whose descriptor the
      call uses, i.e. the call reads fds[slot]. */
  datatype HostCall =
    | Socket(domain: int, kind: int, protocol: int)
    | Accept(slot: int)
    | Bind(slot: int, addr: seq<byte>, addrlen: nat)
    | Connect(slot: int, addr: seq<byte>, addrlen: nat)
    | Listen(slot: int, backlog: int)
    | Send(slot: int, data: seq<byte>, flags: int)
    | Recv(slot: int, length: nat, flags: int)
    | GetFlags(slot: int)
    | SetFlags(slot: int)
    | Close(slot: int)

  /** One use of the emulator's debug copy primitive: guest-to-host (CopyIn, with
      the bytes read) or host-to-guest (CopyOut, with the bytes written). */
  datatype Copy =
    | CopyIn(addr: nat, data: seq<byte>)
    | CopyOut(addr: nat, data: seq<byte>)

  /** Everything one handler invocation did: the state it leaves, the value it
      returns to the guest, the host calls and guest copies it made in order,
      and the indices of stores into the table that fell outside it. */
  datatype Step = Step(proxy: Proxy, ret: int, calls: seq<HostCall>, copies: seq<Copy>, strays: seq<int>)

  /** Verdict of the handle gate every handler but socket starts with: go on, or
      return `ret` at once, possibly after setting the error cell. */
  datatype Gate = Proceed | Reject(ret: int, errno: Option<ErrorCode>)

  /** Outcomes of the two fcntl calls (read flags, write flags with O_NONBLOCK). */
  datatype FcntlReply = FcntlReply(getOk: bool, setOk: bool)

  /** Host answers seen by the socket handler; `errno` is the host errno at the
      moment the handler reads it. */
  datatype SocketReply = SocketReply(fd: int, fcntl: FcntlReply, errno: int)

  /** Host answers seen by the accept handler, with the peer address and its
      length word as the host filled them in. */
  datatype AcceptReply = AcceptReply(fd: int, peer: SockAddr, peerLen: SockLen, fcntl: FcntlReply, errno: int)

  /** Return value and errno of bind, connect, listen or send. */
  datatype HostReply = HostReply(ret: int, errno: int)

  /** Return value of recv, the local buffer contents after it, and errno. */
  datatype RecvReply = RecvReply(ret: int, buffer: seq<byte>, errno: int)

  predicate IsFree(fds: seq<int>, i: int)
  {
    0 <= i < |fds| && fds[i] == FREE
  }

  /** Every slot is taken. */
  predicate NoFreeSlot(fds: seq<int>)
  {
    forall k :: 0 <= k < |fds| ==> fds[k] != FREE
  }

  /** i is the least free slot. */
  predicate IsFirstFree(fds: seq<int>, i: int)
  {
    IsFree(fds, i) && forall k :: 0 <= k < i ==> fds[k] != FREE
  }

  /** Every slot is free or holds a real (non-negative) host descriptor. */
  predicate WellFormed(fds: seq<int>)
  {
    forall k :: 0 <= k < |fds| ==> fds[k] == FREE || fds[k] >= 0
  }

  /** The call reads no table slot outside a table of n slots. */
  predicate CallInRange(c: HostCall, n: nat)
  {
    c.Socket? || 0 <= c.slot < n
  }

  /** Every table access of the step, read or write, lies inside a table of n slots. */
  predicate AccessesInRange(s: Step, n: nat)
  {
    s.strays == [] && forall k :: 0 <= k < |s.calls| ==> CallInRange(s.calls[k], n)
  }

  /** The step made no host call and touched no guest memory. */
  predicate Silent(s: Step)
  {
    s.calls == [] && s.copies == []
  }

  /** A step that leaves the table as it was and the error cell as given. */
  function Early(p: Proxy, errno: ErrorCode, ret: int): Step
  {
    Step(p.(errno := errno), ret, [], [], [])
  }

  /** The step taken when the handle gate refuses the call. */
  function Rejected(p: Proxy, gate: Gate): (s: Step)
    requires gate.Reject?
    ensures Silent(s) && s.strays == [] && s.proxy.fds == p.fds && s.ret == gate.ret
    // the error cell holds the gate's code when it sets one, and is untouched otherwise
    ensures s.proxy == if gate.errno.None? then p else p.(errno := gate.errno.value)
  {
    match gate.errno
    case None => Step(p, gate.ret, [], [], [])
    case Some(e) => Early(p, e, gate.ret)
  }
}
