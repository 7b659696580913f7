# Guest socket proxy (hw/arm/guest-socket.c), modelled in Dafny

The emulator lets code inside the guest open and use host sockets through
hypercalls. `hw/arm/guest-socket.c` holds the handlers that serve them. They
keep a table `fds` of `MAX_FD_COUNT` slots that maps a guest handle (the slot
index) to a host descriptor, with `-1` meaning "free". They also keep one error
cell, `qemu_errno`. Each handler:

- checks the guest-supplied lengths;
- claims the first free slot (socket and accept only);
- forces a new descriptor into non-blocking mode with two `fcntl` calls;
- copies a bounded block between guest memory and a host buffer;
- calls the host primitive and records its errno in the cell on failure.

The model is functional. The state is `Proxy(fds, errno)`. A handler is a pure
function from the state, the handle gate's verdict, the guest memory and the
host primitives' answers to a `Step`. A `Step` holds:

- the new state and the value returned to the guest;
- the host calls made, in order, each naming the table slot it reads;
- the guest copies made, in order, with the bytes moved;
- the indices of table stores that fell outside the table.

Host primitives are oracles:

- `socket`, `accept`, `bind`, `connect`, `listen`, `send` and `recv` results;
- success of each `fcntl`;
- errno.

Guest memory is a total map from address to byte. `ByteAfter` gives the guest
bytes once a handler's copies have been applied. `MAX_FD_COUNT` is the length
of the table, and `MAX_BUF_SIZE` is the parameter `maxBuf`. The handle gate
`VERIFY_FD` is an abstract verdict, `Gate`: either proceed, or return a given
value at once, possibly after setting the error cell. `sizeof(struct
sockaddr_in)` is 16 and `sizeof(socklen_t)` is 4.

Modules:

- `SocketTypes` (types.dfy): the entities.
- `GuestMemory` (guest_memory.dfy): the copy gateway.
- `FdTable` (fd_table.dfy): `find_free_socket`, `set_socket_non_blocking`, and
  the table store.
- `GuestSocket` (guest_socket.dfy): the seven handlers, as written.
- `GuestSocketFixed` (guest_socket_fixed.dfy): corrected socket, accept, bind
  and connect (see Findings).
- `SocketProperties` (properties.dfy): properties spanning several calls.

Three behaviours of the code are kept as written in `GuestSocket`; the
corrected versions of the last two are in `GuestSocketFixed` (see Findings):

- A failed host `socket`/`accept` stores its (negative) result in the claimed
  slot. With a POSIX host, that result is `-1`, which is the free marker again.
- A failed non-blocking setup leaves the claimed slot holding the descriptor.
- An oversized `addrlen` in bind or connect returns 0.

## Model

| member | source | states |
|---|---|---|
| SocketTypes.Rejected | hw/arm/guest-socket.c:88 | the handle gate's early return: no host call, no guest copy, no table write, the gate's value returned, and the error cell holding the gate's code when it sets one and untouched otherwise |
| GuestMemory.Read | hw/arm/guest-socket.c:215 | a guest-to-host copy of len bytes yields exactly len bytes, the guest bytes from the given address on |
| GuestMemory.ByteAfter | hw/arm/guest-socket.c:198 | after host-to-guest copies, an address no copy writes keeps its byte, and any other byte is the one written by the last copy that covers it |
| FdTable.FirstFreeFrom | hw/arm/guest-socket.c:33-37 | the scan from a start index yields the least free slot at or after it, or -1 when every slot from there on is taken |
| FdTable.FirstFree | hw/arm/guest-socket.c:32-41 | -1 exactly when no slot is free; otherwise the least index holding -1 |
| FdTable.FindFreeSocket | hw/arm/guest-socket.c:32-41 | returns the least free handle with the state untouched, or -1 exactly when the table is full, with ENOMEM in the error cell; the table is never written |
| FdTable.ScanForFree | hw/arm/guest-socket.c:32-41 | the source's loop: same least-free-or-(-1, ENOMEM) result, table unchanged |
| FdTable.SetSocketNonBlocking | hw/arm/guest-socket.c:43-57 | returns the index when both the flag read and the flag write succeed, -1 otherwise; the host calls are exactly the flag read, then the flag write only if the read succeeded, both on that slot's descriptor; it has no table output |
| FdTable.StoreSlot | hw/arm/guest-socket.c:75 | a store at an index inside the table replaces that slot only; at an index outside it the table is unchanged and the index is reported as a stray store |
| GuestSocket.HandleSocket | hw/arm/guest-socket.c:59-80 | full table: -1, table unchanged, cell ENOTSOCK, no host call. Success (iff a slot is free, socket() >= 0 and both fcntl succeed): the first free slot gets the descriptor, no other slot changes, cell untouched, and GetFlags/SetFlags ran on it. socket() < 0: -1, cell = host errno, the negative value stored in the slot. Setup failure: -1, slot keeps the descriptor, stray store at -1, and the calls are exactly socket, the flag read (and write), close(fds[-1]). Keeps "free or non-negative" slots if socket() >= -1 |
| GuestSocket.HandleAccept | hw/arm/guest-socket.c:82-115 | gate refusal returns the gate's value with the gate's error code (if any) and makes no call, copy or table access; then the same slot discipline as socket; on success the peer address (16 bytes) and its length word (4 bytes) are written back to g_addr and g_addrlen; every failure returns -1 and writes no guest memory; setup failure stores through -1 and the calls are exactly accept and the flag read (and write), with no close |
| GuestSocket.HandleBind | hw/arm/guest-socket.c:117-142 | table never changes; gate refusal returns the gate's value with its error code (if any) and makes no call or copy; addrlen > 16: no copy, no host call, cell ENOMEM, returns 0; otherwise reads exactly 16 bytes at g_addr, binds with them and addrlen, returns the host result, and writes the same 16 bytes back to g_addr only when that result is non-negative (cell = host errno otherwise) |
| GuestSocket.HandleConnect | hw/arm/guest-socket.c:144-169 | the same as bind, with the host connect call |
| GuestSocket.HandleListen | hw/arm/guest-socket.c:171-182 | table never changes; gate refusal returns the gate's value with its error code (if any) and makes no call or copy; otherwise no guest copy, and it returns the host listen result, setting the cell to host errno exactly when it is negative |
| GuestSocket.HandleRecv | hw/arm/guest-socket.c:184-202 | table never changes; gate refusal returns the gate's value with its error code (if any) and makes no call or copy; length > MAX_BUF_SIZE: -1, cell ENOMEM, no host call, no copy; result <= 0: cell = host errno, nothing written; result r > 0: exactly the r received bytes are written at g_buffer (r <= length <= MAX_BUF_SIZE) and r is returned |
| GuestSocket.HandleSend | hw/arm/guest-socket.c:204-223 | table never changes; gate refusal returns the gate's value with its error code (if any) and makes no call or copy; length > MAX_BUF_SIZE: -1, cell ENOMEM, no guest read, no host call; otherwise the only copy reads the length guest bytes at g_buffer, the only host call sends exactly those bytes, the host result is returned and the cell is set only if it is negative |
| GuestSocketFixed.ClaimSlot | hw/arm/guest-socket.c:62-77 | corrected slot claim shared by socket and accept: same success and exhaustion outcomes, every table access stays inside the table, and, for a host whose socket/accept fails with exactly -1, a failed claim leaves the table exactly as it was (closing the claimed slot's descriptor on setup failure) |
| GuestSocketFixed.HandleSocketFixed | hw/arm/guest-socket.c:59-80 | all accesses inside the table; for a host whose socket fails with exactly -1, failure leaves the table unchanged; equals HandleSocket whenever the setup does not fail |
| GuestSocketFixed.HandleAcceptFixed | hw/arm/guest-socket.c:82-115 | with a gate admitting only table handles, all accesses inside the table; for a host whose accept fails with exactly -1, failure leaves the table unchanged and writes no guest memory; equals HandleAccept whenever the setup does not fail |
| GuestSocketFixed.HandleBindFixed | hw/arm/guest-socket.c:117-142 | past the gate, the result is non-negative iff addrlen <= 16 and the host bind succeeded, and then the bind call was made; equals HandleBind for addrlen <= 16 |
| GuestSocketFixed.HandleConnectFixed | hw/arm/guest-socket.c:144-169 | the same for connect |
| SocketProperties.RunCreates | hw/arm/guest-socket.c:59-80 | a series of socket calls yields one handle per call and keeps the table size (the handles themselves are stated by CreatesFillTableInOrder) |
| SocketProperties.CreateTakesNextSlot | hw/arm/guest-socket.c:62-79 | on a table whose first k slots are taken and the rest free, a successful create returns k (or -1 when k = MAX_FD_COUNT), stores the new descriptor in slot k and changes no other slot |
| SocketProperties.CreatesFillTableInOrder | hw/arm/guest-socket.c:32-41 | successive successful creates from such a table return k, k+1, ... up to MAX_FD_COUNT-1 and -1 after that; slot k+j ends up holding the j-th new descriptor and the first k slots are unchanged |
| SocketProperties.EmptyTableFillsThenExhausts | hw/arm/guest-socket.c:59-80 | from an empty table, create j succeeds with handle j exactly when j < MAX_FD_COUNT |
| SocketProperties.BindKeepsGuestMemory | hw/arm/guest-socket.c:129-137 | after bind, every guest byte equals its value before (the address is written back unchanged) |
| SocketProperties.ConnectKeepsGuestMemory | hw/arm/guest-socket.c:156-164 | the same for connect |
| SocketProperties.SendKeepsGuestMemory | hw/arm/guest-socket.c:212-220 | send changes no guest byte, and past the checks the data sent is exactly the length guest bytes starting at g_buffer |
| SocketProperties.RecvWritesOnlyReceivedBytes | hw/arm/guest-socket.c:193-199 | after recv the r bytes at g_buffer are the received bytes, every other guest byte is unchanged, and nothing changes when recv failed or was refused |
| SocketProperties.SocketSetupFailureMissesSlot | hw/arm/guest-socket.c:70-75 | setup failure in socket: -1 is returned, the step accesses slot -1 (close(fds[-1])), the claimed slot still holds the descriptor, and that slot's descriptor is never closed |
| SocketProperties.AcceptSetupFailureMissesSlot | hw/arm/guest-socket.c:101-105 | the same in accept, where no close call is made at all, so the accepted descriptor stays open |
| SocketProperties.FixedSetupFailureReleasesSlot | hw/arm/guest-socket.c:70-75 | on those inputs the corrected socket and accept return -1, leave the table as it was and stay inside it |
| SocketProperties.OversizedAddressReportsSuccess | hw/arm/guest-socket.c:124-127 | with addrlen > 16, bind and connect return a non-negative value without calling the host, while the corrected versions return a negative one |
| SocketProperties.GatedHandlersStayInTable | hw/arm/guest-socket.c:117-223 | with a gate that admits only handles of the table, bind, connect, listen, send and recv access no slot outside it |

## Findings

| source | as written | input that shows it | evidently intended | confidence | as-written member | corrected member |
|---|---|---|---|---|---|---|
| hw/arm/guest-socket.c:70-75 | `retval` is overwritten with -1 before the cleanup, so it runs `close(fds[-1])` and `fds[-1] = -1`, outside the table; the claimed slot keeps the new descriptor and is never freed | a free slot, `socket()` returns 5, `F_GETFL` fails | close and free the slot just claimed | high, not executed | SocketProperties.SocketSetupFailureMissesSlot | GuestSocketFixed.HandleSocketFixed |
| hw/arm/guest-socket.c:101-105 | the same overwrite in accept: `fds[-1] = -1`; the accepted descriptor is also never closed | a free slot, `accept()` returns 5, `F_SETFL` fails | close and free the slot just claimed (same policy as socket) | high, not executed | SocketProperties.AcceptSetupFailureMissesSlot | GuestSocketFixed.HandleAcceptFixed |
| hw/arm/guest-socket.c:124-127 | `retval` starts at 0 and the oversize branch only sets the error cell, so bind reports success | `addrlen = 17` | return a negative result, like every other failure | high, not executed | SocketProperties.OversizedAddressReportsSuccess | GuestSocketFixed.HandleBindFixed |
| hw/arm/guest-socket.c:151-154 | the same in connect | `addrlen = 17` | return a negative result | high, not executed | SocketProperties.OversizedAddressReportsSuccess | GuestSocketFixed.HandleConnectFixed |

Also noted but not modelled: accept passes an uninitialised `addrlen` to the
host `accept` (hw/arm/guest-socket.c:86, 97). Depending on the garbage value,
the host may truncate the peer address, reject the call (a negative length
gives EINVAL on Linux), or, for a guest-chosen domain with a longer address
such as AF_INET6, write past the 16-byte `addr`. The model takes the address and length word that the host
returns as given.

## Left out

- The host primitives `socket`, `accept`, `bind`, `connect`, `listen`, `send`, `recv`, `fcntl` and `close`: they are host OS I/O. Their results and errno are inputs. Calls are recorded but have no effect.
- Numeric errno values: the cell holds `ENOMEM`, `ENOTSOCK` or a host errno passed through, as a datatype.
- `perror` diagnostics and the unused `SOCKET_TIMEOUT_USECS`: they have no observable effect on the state. The connect/accept/recv timeouts are unimplemented in the source.
- The bits of the file-status flags and `O_NONBLOCK`: non-blocking setup is two boolean outcomes.
- The layout of `struct sockaddr_in`: it is an opaque 16-byte block.
- The definitions of `VERIFY_FD`, `MAX_FD_COUNT`, `MAX_BUF_SIZE` and `fds`: they live in the guest-services headers, which are not part of this model. They are an abstract gate, the table length and a parameter.
- The internals of `cpu_memory_rw_debug`: it is a foreign emulator call. Guest memory is total, so a copy cannot fail; the source ignores its result anyway. Guest addresses do not wrap around at the top of the `target_ulong` range.
- Closing a guest handle: it belongs to the wider guest-services code, not to this file.
- Concurrency: the handlers run on the single emulation thread.
- GuestSocket.HandleRecv: assumes the host's `recv` never reports more bytes than requested, as POSIX guarantees. An over-reporting host would make the C copy read past the `MAX_BUF_SIZE` buffer; that case is not modelled.
- GuestSocket.HandleRecv and GuestSocket.HandleSend: the `ssize_t` host result is not truncated to the 32-bit `int` return value. This is exact whenever `MAX_BUF_SIZE` fits in 31 bits.
- GuestSocket.HandleSocket: the "free or non-negative" table invariant is promised only for a host whose `socket` fails with exactly -1. The source stores any negative result in the slot.
