# A P4-to-DPDK switch, modelled and proved in Dafny

The repository generates C code from P4 programs and runs it on DPDK, with a control
plane that talks to a controller over a socket. This project models the parts of it that
carry proof obligations and proves what they promise. `dafny verify dfyconfig.toml`
checks all of it.

* **Packet fields** (`FieldLayout`, `FieldAccess`). The generator computes bit offsets,
  masks and descriptors; the accessor macros shift, mask and byte-swap words of packet
  memory. `WriteBits` and `ReadBits` say which bit of a value each bit of the packet holds:
  a field of whole bytes is big-endian (`BigEndianInPacket`). `HeaderIsARecord` says that
  after any run of field writes each field reads as its own last write cut to its width, or
  as it was at the start. Packed bits behave as independent variables.
* **Control messages** (`Bytes`, `Messages`, `Builder`, `Handlers`, `HandlerBounds`,
  `Framing`, `Digests`). Commands are built record by record in a buffer, converted to
  network order, framed on a stream that arrives in arbitrary chunks, and walked back.
  Digests go the other way. The main results are the round trips `EntryRoundTrip`,
  `DefaultRoundTrip` and `StreamRoundTrip`, what `ReadField` says of digests, and
  `HandledExactly`, on which messages the handler stays in its buffer.
* **The backend** (`CellPool`, `Fifo`, `ControlPlane`, `EndToEnd`, `Progress`). Cells move between two
  lists with different invariants and through two ring buffers shared by threads. The
  lists and rings are classes proved against an abstract pool and queue; the threads are
  a transition system over those, one step for each locked region, that stops at a fault.
  Safety is `EveryRun`, `HandlerFaultsExactly`, `SafeExactlyWithinTheRing`, and for the two
  directions `CommandsArriveInOrder` and `DigestsArriveInOrder`; progress is
  `CommandsGetHandled` and `DigestsGetSent`, from every reachable state.
* **Table updates** (`ReplicaProtocol`, `Promote`, `ReplicatedTables`, `Instances`). An
  update writes the idle replica, repoints the lcores and then catches the others up.
  `LookupsSeeOldOrNew` is about every interleaving with lookups, `UpdatesComplete` about
  finishing an update from anywhere in it, `PromoteAll` about every run of updates on all
  sockets, `LcoreFindsLastWrite` about what a packet then finds, and `PromoteAfterStartUp`
  about the instances that must exist for it.
* **Transmission** (`Transmit`, `Multicast`). Burst buffers in front of a NIC that takes
  any prefix, and a multicast loop that shares packets by reference count.
* **Lookup** (`ExactTable`, `LpmTable`, `TernaryTable`, `TerminalLookup`). Table wrappers
  over a hash and an LPM known only by contract, the ternary scan, and the search for the
  longest terminal prefix of an NDN name. What it is to match is stated in numbers and bits
  by the two lemmas `MatchesExactly`.
* **Expressions** (`Expressions`, `ExpressionValues`). The text printed for P4 expressions
  and control graphs is read by a C parser with C's precedences, and means the same. P4's
  unbounded integers and C's `int` and `uint32_t` agree on it exactly where
  `ArithmeticExactly` and `ComparisonExactly` say.

## Assumptions

* The host is little-endian and 64-bit; structs are laid out as such a C compiler does.
* In `ReplicaProtocol`, `Promote` and `ReplicatedTables` all `NB_REPLICA` instances of a
  table exist; `Instances` is about start-up code that makes fewer. NUMA is on, and lookups
  in flight when an lcore is repointed end before the delay does.
* Each processor of the backend runs on its own thread, and mutexes exclude. The callback
  of the handler does not write through the pointers it is given.
* `rte_hash` gives each key a slot of its own below 256 and keeps it; `rte_lpm` finds the
  longest net, and gives 0 where there is none; the NIC takes some prefix of a burst.
* A field's descriptor is read with at least four bytes of the packet's memory left, as
  the 32-bit loads of the accessors want.

## Where the code departs from its purpose

Each of these is stated as the code has it, with the exact condition beside it.

* `fifo_add_msg` returns the queue even when it is full, so the error tests of its callers
  never fire. A run that loses a message exists exactly when the pool has more cells than
  a ring has slots (`LossBeyondTheRing`, `SafeExactlyWithinTheRing`); the generator asks
  for 1000 cells against 1024 slots.
* A message that is no longer than its header is taken for the end of the stream, and
  `backend_processor` then leaves its loop (`FrameRoundTrip`).
* The twelfth field added to a digest is written through a null pointer (`AddDigestField`,
  `ElevenFields`). A null digest from `create_digest` or `add_digest_field` is used
  unchecked by its callers; `ControlPlane` counts that as a fault.
* The handler compares its walk with neither the length of the message nor that of the cell
  (src/hardware_dep/shared/ctrl_plane/handlers.c:85-132), and cells are adjacent pieces of
  one buffer (src/hardware_dep/shared/ctrl_plane/ctrl_plane_backend.c:174). A message whose
  counts and type bytes lead the walk out of its cell is a fault of `ControlPlane`, and the
  results about runs are about what happens until then (`HandledExactly`,
  `HandlerFaultsExactly`, `MalformedOverruns`, `MalformedMessageOverruns`). Commands the
  controllers build never do that (`CommandsNeverFault`).
* On a message of unknown type the callback gets a structure nobody set
  (src/hardware_dep/shared/ctrl_plane/handlers.c:47-50), another fault
  (`UnknownTypeFaults`).
* Start-up makes one instance of each table where `NB_REPLICA` is 2
  (src/hardware_dep/dpdk/data_plane/dpdk_lib.c:507-508), so the first promotion follows a
  null pointer (`PromoteAfterStartUp`, `ActiveCodeFaults`).
* `dpdk_mcast_packet` with an empty mask and a short packet never ends (`EndsExactly`).
* `send_burst` returns the number of packets it was given, however many the NIC took.
* `exact_add` keeps the slot in an unsigned variable, so a refusal by a full hash
  overwrites place 228 instead (`AddIsRightExactly`, `FullTableLosesAnAdd`). Runs of
  updates have the wanted effect exactly up to 256 different keys (`Apply`,
  `LcoreFindsLastWrite`).
* `bulk_exact_lookup` compares with `EINVAL` where the hash gives `-EINVAL`, and then uses
  positions nobody wrote (`BulkIsRightExactly`, `BulkPastTheLimit`).
* `lpm_add` wraps its place counter after 256 rules (`KeepsPlaceExactly`,
  `LookupIsRightExactly`, `ManyRulesMisdirect`).
* `lpm_lookup` of a keyless table goes on past its defaults to a table that `create_table`
  did not make (`LpmLookup`).
* `naive_ternary_lookup` tests whether the last entry matched, not whether any did, and
  dereferences a null pointer on an empty table (`RightExactly`, `OlderEntryIsMissed`).
* Next to a field, numbers are compared as `uint32_t`, so -1 is not smaller than any field
  (`ComparisonExactly`, `NegativeLiteral`).
* The NDN key keeps the bytes past the clipped URL length (`TruncatedExactly`).

## Model

| member | source | states |
|---|---|---|
| FieldLayout.FieldOffsets | src/utils/hlir.py:96-102 | Each offset is the total width of all earlier fields. |
| FieldLayout.StartsAreOrdered | src/utils/hlir.py:96-102 | No field starts before an earlier one ends. |
| FieldLayout.OffsetsTile | src/hardware_indep/parser.h.py:69-75 | Every bit of the header belongs to exactly one field. |
| FieldLayout.FieldMask | src/utils/hlir.py:104-111 | Setting bit after bit gives one solid run of `bitwidth` ones at `bitoffset`, or 0 past bit 31. |
| FieldAccess.FieldDesc | src/hardware_dep/shared/includes/dataplane.h:72-82 | For every layout and every field ending within 32 bits of its byte, the descriptor is well shaped and its byte and bit offsets recompose to the field's start. |
| FieldAccess.ModifyInt32Bits | src/hardware_dep/dpdk/includes/dpdk_primitives.h:48-51 | The field's own bits take the encoded value and every other bit of the buffer stays. |
| FieldAccess.ModifyInt32Hton | src/hardware_dep/dpdk/includes/dpdk_primitives.h:55-61 | The field's bits take the encoded value in network order, whichever width of load the other bits came from, and every other bit stays. |
| FieldAccess.ModifyInt32Auto | src/hardware_dep/dpdk/includes/dpdk_primitives.h:65-67 | The same for any supported field. |
| FieldAccess.ExtractInt32Bits | src/hardware_dep/dpdk/includes/dpdk_primitives.h:75-82 | The narrow loads give what GET_INT32_AUTO gives. |
| FieldAccess.ExtractInt32Ntoh | src/hardware_dep/dpdk/includes/dpdk_primitives.h:85-94 | The same in all four cases of byte width and byte count. |
| FieldAccess.ExtractInt32Auto | src/hardware_dep/dpdk/includes/dpdk_primitives.h:97-99 | EXTRACT_INT32_AUTO agrees with GET_INT32_AUTO. |
| FieldAccess.WriteBits | src/hardware_dep/dpdk/includes/dpdk_primitives.h:28-67 | For every field, bit `b` of byte `k` of the packet holds the bit of the value that its place stands for: the bytes of a value most significant first, metadata in its own order. |
| FieldAccess.ReadBits | src/hardware_dep/dpdk/includes/dpdk_primitives.h:23-99 | A read takes each bit of the value from the same place. |
| FieldAccess.ReadFits | src/hardware_dep/dpdk/includes/dpdk_primitives.h:70-72 | A value read has no bits past the width of its field. |
| FieldAccess.PlaceInMemory | src/hardware_dep/shared/includes/dataplane.h:72-82 | Every bit of a field has such a place, within four bytes of its first. |
| FieldAccess.BigEndianInPacket | src/hardware_dep/dpdk/includes/dpdk_primitives.h:55-67 | Byte `k` of a field of whole bytes holds byte `k` of the value, counted from the most significant. |
| FieldAccess.EtherType | src/hardware_dep/dpdk/includes/dpdk_primitives.h:55-67 | 0x0800 written to a field of 16 bits goes out as 08 00, and the bytes after it stay. |
| FieldAccess.HtonBits | src/hardware_dep/dpdk/includes/dpdk_primitives.h:28-31 | Where HTON_FIELD puts each bit of a value, at every bit offset and width over a byte. |
| FieldAccess.NtohBits | src/hardware_dep/dpdk/includes/dpdk_primitives.h:23-26 | Where NTOH_FIELD takes each bit of a value from. |
| FieldAccess.EncodedInMask | src/hardware_dep/dpdk/includes/dpdk_primitives.h:28-31 | HTON_FIELD output lies inside the field's mask. |
| FieldAccess.NtohOfHton | src/hardware_dep/dpdk/includes/dpdk_primitives.h:23-31 | NTOH_FIELD undoes HTON_FIELD on every value the field can hold, at every bit offset and width over a byte. |
| FieldAccess.NarrowLoads | src/hardware_dep/dpdk/includes/dpdk_primitives.h:75-94 | A load of `bytecount` bytes sees every bit of the field. |
| FieldAccess.WordOfWrite | src/hardware_dep/dpdk/includes/dpdk_primitives.h:48-61 | Copying `bytecount` bytes of the merged word writes the field and nothing else. |
| FieldAccess.TruncatedIsRemainder | src/hardware_dep/dpdk/includes/dpdk_primitives.h:48-61 | What a field keeps of a value is its remainder by 2 to the field's width. |
| FieldAccess.ReadBack | src/hardware_dep/dpdk/includes/dpdk_primitives.h:48-99 | A field reads back what was written to it, mod 2 to its width, in metadata and in network order. |
| FieldAccess.FieldsApart | src/hardware_indep/parser.h.py:65-81 | Two fields of a layout have no bit in common in any byte. |
| FieldAccess.NonInterference | src/hardware_dep/dpdk/includes/dpdk_primitives.h:28-61 | Writing one field of a layout changes the value of no other. |
| FieldAccess.HeaderIsARecord | src/hardware_dep/dpdk/includes/dpdk_primitives.h:48-99 | After any run of writes each field holds its own last write, or its first value. |
| Messages.NetconvHeader | src/hardware_dep/shared/ctrl_plane/messages.c:33-38 | Length and transaction number are byte-swapped in place, nothing else. |
| Messages.NetconvFieldMatchComplex | src/hardware_dep/shared/ctrl_plane/messages.c:102-130 | The integer of a match of any of the five kinds is swapped; the size is that of its kind, or 0 for an unknown one. |
| Messages.NetconvActionParameter | src/hardware_dep/shared/ctrl_plane/messages.c:141-144 | The length of a parameter is swapped in place. |
| Bytes.Swap16Reverses | src/hardware_dep/shared/ctrl_plane/messages.c:33-38 | Converting a 16-bit integer reverses its bytes. |
| Bytes.Swap32Reverses | src/hardware_dep/shared/ctrl_plane/messages.c:141-144 | Converting a 32-bit integer reverses its bytes. |
| Messages.BigEndianHeader | src/hardware_dep/shared/ctrl_plane/messages.c:33-38 | On the wire the length and transaction number of a message are most significant byte first. |
| Messages.BigEndianMatch | src/hardware_dep/shared/ctrl_plane/messages.c:77-100 | So is the integer of a field match. |
| Messages.MatchLayout | src/hardware_dep/shared/ctrl_plane/messages.h:168-208 | Where each of the five structs of a match has its name, type, flag, value and mask or upper bound. |
| Messages.BigEndianParam | src/hardware_dep/shared/ctrl_plane/messages.c:141-144 | So is the length of a parameter. |
| Messages.HeaderConverted | src/hardware_dep/shared/ctrl_plane/messages.c:33-38 | Converting a header changes its order and keeps its meaning. |
| Messages.MatchConverted | src/hardware_dep/shared/ctrl_plane/messages.c:77-130 | Converting a field match changes its order, keeps its meaning and touches nothing else. |
| Messages.ParamConverted | src/hardware_dep/shared/ctrl_plane/messages.c:141-144 | The same for an action parameter. |
| Builder.CreateP4Header | src/hardware_dep/shared/ctrl_plane/messages.c:22-31 | An empty header, or null when it does not fit. |
| Builder.CreateP4AddTableEntry | src/hardware_dep/shared/ctrl_plane/messages.c:51-60 | An entry without matches, or null unless a byte is to spare. |
| Builder.AddFieldMatch | src/hardware_dep/shared/ctrl_plane/messages.c:163-220 | A record of the kind is reserved at the end, counted and added to the length; a full buffer is left as it was. |
| Builder.PutMatch | src/hardware_dep/shared/ctrl_plane/messages.c:66-75 | An entry with matches `ms` becomes one with the new match at their end. |
| Builder.AddP4Action | src/hardware_dep/shared/ctrl_plane/messages.c:226-235 | An action record is reserved at the end. |
| Builder.AddP4ActionParameter | src/hardware_dep/shared/ctrl_plane/messages.c:241-250 | A parameter record is reserved at the end and counted in its action. |
| Builder.PutEntryParam | src/hardware_dep/shared/ctrl_plane/messages.c:241-250 | A message for an entry becomes one for the entry with one more parameter, exactly if it fits. |
| Builder.BuildEntry | src/hardware_dep/shared/ctrl_plane/dpdk_l3_controller.c:23-68 | A whole build gives the network-order message of the entry, exactly when its length fits the buffer. |
| Builder.CreateP4SetDefaultAction | src/hardware_dep/shared/ctrl_plane/messages.c:256-267 | A command without parameters, or null unless a byte is to spare. |
| Builder.BuildDefault | src/hardware_dep/shared/ctrl_plane/messages.c:241-267 | The same for set-default-action commands, with the byte to spare. |
| Handlers.HandleSetDefaultAction | src/hardware_dep/shared/ctrl_plane/handlers.c:56-83 | The buffer and the callback structure are those of the walk specified. |
| Handlers.HandleAddTableEntry | src/hardware_dep/shared/ctrl_plane/handlers.c:85-132 | The same, with results -1 and -2 for too many matches or parameters. |
| Handlers.HandleP4Msg | src/hardware_dep/shared/ctrl_plane/handlers.c:19-54 | The dispatch, with its results for short, overlong and unknown messages. |
| HandlerBounds.HandledExactly | src/hardware_dep/shared/ctrl_plane/handlers.c:19-54 | The handler stays in its buffer exactly when the counts and type bytes of the message keep it there, and sets the structure it calls back with exactly when it knows the type. |
| HandlerBounds.WalkMatchesInBounds | src/hardware_dep/shared/ctrl_plane/handlers.c:107-111 | The walk over the matches gets through exactly when each header that the type bytes lead to is in the buffer, and ends after the last. |
| HandlerBounds.WalkParamsInBounds | src/hardware_dep/shared/ctrl_plane/handlers.c:125-129 | The same for the parameters, by their number. |
| HandlerBounds.MalformedOverruns | src/hardware_dep/shared/ctrl_plane/handlers.c:85-132 | A message of 270 bytes that claims ten matches leads the handler out of a zeroed cell. |
| Handlers.WalkConvertsMatches | src/hardware_dep/shared/ctrl_plane/handlers.c:107-111 | The walk finds each record where it starts, converts it, ends after the last and touches nothing else. |
| Handlers.WalkConvertsParams | src/hardware_dep/shared/ctrl_plane/handlers.c:125-129 | The same for parameters. |
| Handlers.AfterParams | src/hardware_dep/shared/ctrl_plane/handlers.c:113-131 | The parser's last offset is the builder's length, and the message is in host order. |
| Handlers.EntryRoundTrip | src/hardware_dep/shared/ctrl_plane/handlers.c:19-132 | Handling a built entry gives 0 and the callback for it in host order exactly with at most 10 matches and 10 parameters, and -1 or -2 otherwise. |
| Handlers.PointerReachesMatch | src/hardware_dep/shared/ctrl_plane/handlers.c:107-111 | Pointer `i` of the callback points to the record of match `i`. |
| Handlers.PointerReachesParam | src/hardware_dep/shared/ctrl_plane/handlers.c:125-129 | Pointer `i` of the callback points to the record of parameter `i`. |
| Handlers.CallbackReadsMessage | src/hardware_dep/shared/ctrl_plane/handlers.c:94-118 | The name pointers lead to the names of the table and of the action, and the numbers are those of the message. |
| Handlers.DefaultRoundTrip | src/hardware_dep/shared/ctrl_plane/handlers.c:19-83 | Handling a built set-default-action gives 0 and its callback exactly with at most 10 parameters. |
| Handlers.DefaultCallbackReadsMessage | src/hardware_dep/shared/ctrl_plane/handlers.c:63-67 | The same for a set-default-action. |
| Framing.ReadFix | src/hardware_dep/shared/ctrl_plane/sock_helpers.c:20-32 | Exactly `nbytes` bytes of the stream however it is chunked, or 0 only at its end; the loop ends. |
| Framing.WriteFix | src/hardware_dep/shared/ctrl_plane/sock_helpers.c:34-46 | All the bytes are written in order, or a prefix of them and an error. |
| Framing.ReadP4Msg | src/hardware_dep/shared/ctrl_plane/sock_helpers.c:48-65 | Every chunking of a stream gives the frame at its front, and leaves the rest. |
| Framing.WriteP4Msg | src/hardware_dep/shared/ctrl_plane/sock_helpers.c:67-77 | As many bytes go out as the header says. |
| Framing.FrameRoundTrip | src/hardware_dep/shared/ctrl_plane/sock_helpers.c:48-65 | A message is read back whole exactly if it is longer than a header and fits the reader. |
| Framing.StreamRoundTrip | src/hardware_dep/shared/ctrl_plane/sock_helpers.c:48-77 | Reading undoes writing for any run of such messages. |
| Fifo.Queue.constructor | src/hardware_dep/shared/ctrl_plane/fifo.c:17-37 | The ring is empty. |
| Fifo.Queue.AddMsg | src/hardware_dep/shared/ctrl_plane/fifo.c:46-59 | The element goes to the end unless the ring is full, wherever the ring wraps; the queue is returned either way. |
| Fifo.Queue.RemoveMsg | src/hardware_dep/shared/ctrl_plane/fifo.c:61-76 | The oldest element leaves, or null from an empty ring. |
| CellPool.Backend.CreateBackend | src/hardware_dep/shared/ctrl_plane/ctrl_plane_backend.c:142-179 | All cells on the unused list, each with its own piece of memory, inner `prev` links not set. |
| CellPool.Backend.TouchMemCell | src/hardware_dep/shared/ctrl_plane/ctrl_plane_backend.c:287-308 | The first unused cell moves to the front of the used list; both lists stay well formed in their two ways. |
| CellPool.Backend.DetouchMemCell | src/hardware_dep/shared/ctrl_plane/ctrl_plane_backend.c:310-327 | A used cell moves to the front of the unused list, from any position; the lists stay well formed. |
| CellPool.PoolConserves | src/hardware_dep/shared/ctrl_plane/ctrl_plane_backend.c:287-327 | Neither operation gains or loses a cell. |
| CellPool.PoolRunConserves | src/hardware_dep/shared/ctrl_plane/ctrl_plane_backend.c:287-327 | No run of the two operations does. |
| CellPool.TouchesTake | src/hardware_dep/shared/ctrl_plane/ctrl_plane_backend.c:287-306 | Any number of touches hands out that many of the unused cells in turn. |
| CellPool.ReturnsUndoTouches | src/hardware_dep/shared/ctrl_plane/ctrl_plane_backend.c:287-327 | Returning them, the last one first, leaves the pool as it was. |
| ControlPlane.RingsHaveRoom | src/hardware_dep/shared/ctrl_plane/fifo.c:46-59 | With each cell in one place and no more cells than slots, a ring is never full when a cell is added. |
| ControlPlane.StepOwned | src/hardware_dep/shared/ctrl_plane/ctrl_plane_backend.c:68-140 | Every step of every thread keeps each cell in exactly one place. |
| ControlPlane.StepInOrder | src/hardware_dep/shared/ctrl_plane/ctrl_plane_backend.c:68-140 | Every step up to a fault keeps received messages, handled ones and the cells between them in one order, and likewise digests. |
| ControlPlane.EveryRun | src/hardware_dep/shared/ctrl_plane/ctrl_plane_backend.c:68-140 | In every interleaving, until a fault stops it, each cell is in exactly one place, nothing is stranded but by failed reads and the end of the stream, and the bytes read and written are accounted for. |
| ControlPlane.HandledInOrder | src/hardware_dep/shared/ctrl_plane/ctrl_plane_backend.c:68-121 | Messages are handled once each, in arrival order; those handled without a fault are cells that start with the bytes received. |
| ControlPlane.NeverRefused | src/hardware_dep/shared/ctrl_plane/fifo.c:46-59 | In every run, what is added to a ring goes in. |
| ControlPlane.HandlerFaultsExactly | src/hardware_dep/shared/ctrl_plane/ctrl_plane_backend.c:102-121 | In every run the handler starts on the message received in its turn, and faults exactly when its counts and type bytes lead out of the cell or its type is unknown. |
| ControlPlane.MalformedMessageOverruns | src/hardware_dep/shared/ctrl_plane/handlers.c:85-132 | A message on the wire for which a run ends with the handler outside its cell. |
| ControlPlane.UnknownTypeFaults | src/hardware_dep/shared/ctrl_plane/handlers.c:47-50 | A message on the wire for which a run ends in a callback on an unset structure. |
| ControlPlane.StepKeepsOutgoing | src/hardware_dep/shared/ctrl_plane/ctrl_plane_backend.c:123-140 | Without a failed write, what went out is the messages of the cells sent, one after the other. |
| ControlPlane.LossBeyondTheRing | src/hardware_dep/shared/ctrl_plane/fifo.c:46-59 | With more cells than slots some run loses a message. |
| ControlPlane.SafeExactlyWithinTheRing | src/hardware_indep/controlplane.c.py:155 | No run loses a cell exactly when the pool is no larger than a ring; 1000 against 1024 is safe. |
| EndToEnd.CellHandled | src/hardware_dep/shared/ctrl_plane/ctrl_plane_backend.c:102-121 | A cell that starts with a message is handled like the message, whatever an earlier one left behind it. |
| EndToEnd.SendCommand | src/hardware_dep/shared/ctrl_plane/dpdk_l3_controller.c:23-68 | Building and sending a command puts exactly its message on the wire. |
| EndToEnd.SendCommands | src/hardware_dep/shared/ctrl_plane/sock_helpers.c:67-77 | A run of commands goes out as the concatenation of their messages. |
| EndToEnd.CommandsArriveInOrder | src/hardware_dep/shared/ctrl_plane/ctrl_plane_backend.c:68-121 | In every interleaving the commands handled are the first ones sent, in order, each with the outcome and callback its contents call for. |
| EndToEnd.CommandsNeverFault | src/hardware_dep/shared/ctrl_plane/ctrl_plane_backend.c:102-121 | Built commands never lead the handler out of its cell or to an unset structure, in any interleaving without a failed read. |
| Progress.HandlerMovesOn | src/hardware_dep/shared/ctrl_plane/ctrl_plane_backend.c:102-121 | In every run the handler can take the oldest message, handle it or fault, and put its cell back on the unused list. |
| Progress.WriterMovesOn | src/hardware_dep/shared/ctrl_plane/ctrl_plane_backend.c:123-140 | In every run the writer can take the oldest digest, send it, and put its cell back. |
| Progress.ReaderMovesOn | src/hardware_dep/shared/ctrl_plane/ctrl_plane_backend.c:68-100 | In every run the reader can take a cell, read a message into it and queue it. |
| Progress.ProducersMoveOn | src/hardware_dep/shared/ctrl_plane/ctrl_plane_backend.c:329-374 | In every run a producer can take a cell, fill it and submit what it filled it with. |
| Progress.CommandsGetHandled | src/hardware_dep/shared/ctrl_plane/ctrl_plane_backend.c:68-140 | From every reachable state without a fault or failed read, some continuation handles every command sent, sends every digest and keeps no cell. |
| Progress.AllCommandsHandled | src/hardware_dep/shared/ctrl_plane/ctrl_plane_backend.c:68-121 | A backend with a single cell or more can handle all of any list of commands, each with its outcome, and have all cells back. |
| Progress.DigestsGetSent | src/hardware_dep/shared/ctrl_plane/ctrl_plane_backend.c:123-140 | From every reachable state without a fault, the writer can send all digests submitted, whatever is on the wire. |
| Progress.AllDigestsSent | src/hardware_dep/shared/ctrl_plane/ctrl_plane_backend.c:123-140 | A backend with a single cell or more can send any list of digests, each whole and in turn, and have all cells back. |
| Progress.FailedReadsRunDry | src/hardware_dep/shared/ctrl_plane/ctrl_plane_backend.c:90-97 | A failed read costs a cell for good: as many as there are cells, and the reader follows a null pointer. |
| Progress.DigestsRunDry | src/hardware_dep/shared/ctrl_plane/ctrl_plane_backend.c:342-374 | More digests at once than cells, or one refused, and a producer follows a null pointer. |
| Digests.CreateDigest | src/hardware_dep/shared/ctrl_plane/ctrl_plane_backend.c:342-374 | A named digest without fields, or failure exactly on a name over 127 characters. |
| Digests.AddDigestField | src/hardware_dep/shared/ctrl_plane/ctrl_plane_backend.c:377-404 | The digest with one more field, its length already in network order; a value is refused exactly if it is not of 1 to 256 bytes; when the write goes through a null pointer. |
| Digests.BigEndianField | src/hardware_dep/shared/ctrl_plane/messages.c:132-135 | The length of a field is most significant byte first on the wire. |
| Digests.ElevenFields | src/hardware_dep/shared/ctrl_plane/messages.c:288-297 | A cell has room for eleven fields and no more. |
| Digests.SendDigest | src/hardware_dep/shared/ctrl_plane/ctrl_plane_backend.c:329-340 | The header goes to network order and the digest stays what it is. |
| Digests.DigestIsFramed | src/hardware_dep/shared/ctrl_plane/ctrl_plane_backend.c:123-140 | What a sent digest puts on the stream is one framed message, longer than a header and no longer than a cell. |
| Digests.ReadHeader | src/hardware_dep/shared/ctrl_plane/dpdk_controller.c:160-166 | The controller recognises it and has it in host order. |
| Digests.ReadField | src/hardware_dep/shared/ctrl_plane/dpdk_controller.c:88-98 | A field unpacked at its offset has the length and value that were added; no other field changes. |
| EndToEnd.DigestOnWire | src/hardware_dep/shared/ctrl_plane/ctrl_plane_backend.c:123-140 | Of a digest in a cell exactly the digest goes out. |
| EndToEnd.DigestsArriveInOrder | src/hardware_dep/shared/ctrl_plane/ctrl_plane_backend.c:123-140 | In every interleaving without a failed write, what a controller reads are the first digests submitted, in order, each whole. |
| ReplicaProtocol.EveryRun | src/hardware_dep/dpdk/data_plane/dpdk_lib.c:628-652 | In every interleaving of updates and lookups the replicas and pointers are what the place in the protocol calls for. |
| ReplicaProtocol.LookupsSeeOldOrNew | src/hardware_dep/dpdk/data_plane/dpdk_lib.c:628-652 | All that one lookup reads is one whole table, old or new, and no lcore goes from new back to old. |
| ReplicaProtocol.QuietMeansEqual | src/hardware_dep/dpdk/data_plane/dpdk_lib.c:643-652 | Between updates all replicas hold all updates and all lcores use the active one. |
| ReplicaProtocol.UpdatesComplete | src/hardware_dep/dpdk/data_plane/dpdk_lib.c:643-652 | From every reachable state some steps complete one more update: every replica then holds it, and an update that began there has moved the lcores to the next replica. |
| ReplicaProtocol.OneReplicaTears | src/hardware_dep/dpdk/data_plane/dpdk_lib.c:643-652 | Were NB_REPLICA 1, a run would exist whose lookup reads a half-written table. |
| ReplicaProtocol.SafeExactlyWithTwo | src/hardware_dep/dpdk/data_plane/dpdk_lib.c:643-652 | No run tears a lookup exactly when NB_REPLICA is at least two. |
| Promote.Switch.constructor | src/hardware_dep/dpdk/data_plane/dpdk_lib.c:583-626 | Tables exist on exactly the sockets with an enabled lcore, and every lcore uses its socket's active replica. |
| Promote.Switch.ChangeReplica | src/hardware_dep/dpdk/data_plane/dpdk_lib.c:628-641 | The lcores of the socket, and no others, move to the replica, for the one table. |
| Promote.Switch.Update | src/hardware_dep/dpdk/data_plane/dpdk_lib.c:647 | One replica is written, which must be one that no enabled lcore reads. |
| Promote.Switch.UpdateOthers | src/hardware_dep/dpdk/data_plane/dpdk_lib.c:650-651 | The other replicas are written once, after the lcores left them. |
| Promote.Switch.ChangeTable | src/hardware_dep/dpdk/data_plane/dpdk_lib.c:643-652 | The replica after the active one is written first, while no lcore reads it, and is the active one then; every replica of the table on the socket gets the update once, and nothing else changes but its users. |
| Promote.Switch.PromoteUpdate | src/hardware_dep/dpdk/data_plane/dpdk_lib.c:654-674 | All replicas on all sockets stay equal to the fold of the updates promoted, enabled lcores on active replicas, and the active replica of the table alternates on every socket. |
| Promote.Switch.PromoteAll | src/hardware_dep/dpdk/data_plane/dpdk_lib.c:654-674 | The same after any run of updates to any tables. |
| Instances.CreateInstances | src/hardware_dep/dpdk/data_plane/dpdk_lib.c:506-513 | The instances below the bound of the loop exist, and the others stay null. |
| Instances.ChangeTable | src/hardware_dep/dpdk/data_plane/dpdk_lib.c:643-652 | A promotion faults exactly when some instance of the table is missing, and otherwise updates each of them once. |
| Instances.PromoteAfterStartUp | src/hardware_dep/dpdk/data_plane/dpdk_lib.c:506-674 | Start-up and a run of promotions fault exactly when start-up makes fewer than NB_REPLICA instances. |
| Instances.ActiveCodeFaults | src/hardware_dep/dpdk/data_plane/dpdk_lib.c:507-508 | With the one instance that the active code makes, the first promotion faults. |
| ReplicatedTables.CallDoes | src/hardware_dep/dpdk/data_plane/dpdk_tables.c:282-310 | One call of exact_add or table_setdefault, on a full table too, changes a table as the folded function is taken to. |
| ReplicatedTables.FoldIsLastWrites | src/hardware_dep/dpdk/data_plane/dpdk_lib.c:659-674 | Folding updates of at most 256 different keys leaves the last value of each key and the last default. |
| ReplicatedTables.FoldStaysWithinTheTable | src/hardware_dep/dpdk/data_plane/dpdk_lib.c:659-674 | Folding any updates leaves at most 256 keys, and the last default. |
| ReplicatedTables.LcoreFindsLastWrite | src/hardware_dep/dpdk/data_plane/dpdk_lib.c:628-674 | After any promotions, the table an enabled lcore uses holds the last promoted value of each key and the last promoted default exactly when at most 256 different keys were promoted; a lookup then gives them. |
| Transmit.TxPort.SendBurst | src/hardware_dep/dpdk/main_loop.c:113-130 | Some prefix is accepted, the rest is freed, and the result is the whole number. |
| Transmit.TxPort.SendPacket | src/hardware_dep/dpdk/main_loop.c:207-222 | The packet is enqueued once; a full buffer goes out, and the buffer is never full between calls. |
| Transmit.TxPort.Drain | src/hardware_dep/dpdk/main_loop.c:443-450 | A buffer that is not empty goes out, in order. |
| Transmit.DrainPorts | src/hardware_dep/dpdk/main_loop.c:133-151 | After the drain step every port's buffer is empty, and nothing was enqueued. |
| Transmit.PacketsConserved | src/hardware_dep/dpdk/main_loop.c:113-151 | Every enqueued packet is accepted, freed or buffered, exactly once. |
| Transmit.AcceptedInOrder | src/hardware_dep/dpdk/main_loop.c:113-151 | The accepted packets are a subsequence of those enqueued. |
| Transmit.RunPort | src/hardware_dep/dpdk/main_loop.c:207-222 | Both, for any run of enqueue and drain steps with any NIC. |
| Multicast.BitCnt | src/hardware_dep/dpdk/main_loop.c:195-205 | Clearing the lowest bit until none is left counts the bits. |
| Multicast.BitsExactly | src/hardware_dep/dpdk/main_loop.c:286-296 | The ports of a mask are its bits. |
| Multicast.McastOutPkt | src/hardware_dep/dpdk/main_loop.c:224-265 | A copy, or null on a failed allocation; a clone adds one reference. |
| Multicast.SendTo | src/hardware_dep/dpdk/main_loop.c:207-222 | Enqueuing on one port; a reference is dropped for each copy of the packet that a burst sent by it frees. |
| Multicast.LiveOrReleased | src/hardware_dep/dpdk/main_loop.c:113-130 | The copies of a packet enqueued are those freed and those still held by the NIC or a buffer. |
| Multicast.DpdkMcastPacket | src/hardware_dep/dpdk/main_loop.c:267-307 | Each set bit's port gets exactly one copy if it can be made and no other port gets anything; the references added are those of the copies, less the caller's, less those that bursts sent meanwhile gave back; references and packets still held differ by one less than before. |
| Multicast.EndsExactly | src/hardware_dep/dpdk/main_loop.c:286-296 | The loop ends exactly when the mask is not empty or the packet is too long to be cloned. |
| ExactTable.LookupTable.SetDefault | src/hardware_dep/dpdk/data_plane/dpdk_tables.c:282-287 | The default is replaced, the entries stay. |
| ExactTable.LookupTable.ExactAdd | src/hardware_dep/dpdk/data_plane/dpdk_tables.c:300-310 | The entries with the key set, if it found a slot; if not, what place 228 held is lost; and, on a table as it is before the call, exactly when every key then has its right result. |
| ExactTable.LookupTable.OneExactLookup | src/hardware_dep/dpdk/data_plane/dpdk_tables.c:361-372 | The stored value, or the default. |
| ExactTable.LookupTable.ExactLookup | src/hardware_dep/dpdk/data_plane/dpdk_tables.c:400-434 | The same for each key of a batch. |
| ExactTable.LookupTable.BulkExactLookup | src/hardware_dep/dpdk/data_plane/dpdk_tables.c:374-398 | The same for as many keys as the hash takes at once; past that, what some positions give that the hash may leave there. |
| ExactTable.AddIsRightExactly | src/hardware_dep/dpdk/data_plane/dpdk_tables.c:300-310 | On a hash that refuses only when full, an addition is right for every key exactly when the key is known, or there is room, or the value is both the default and what place 228 holds. |
| ExactTable.FullTableLosesAnAdd | src/hardware_dep/dpdk/data_plane/dpdk_tables.c:300-310 | 256 additions and one more: its key is not found, and the key of place 228 gives its value. |
| ExactTable.Apply | src/hardware_dep/dpdk/data_plane/dpdk_tables.c:282-310 | After any run of updates on a new table the last writes are what it holds exactly when there are at most 256 different keys. |
| ExactTable.BulkIsRightExactly | src/hardware_dep/dpdk/data_plane/dpdk_tables.c:374-398 | Every position the hash may leave gives the right value exactly when it takes that many keys or every place holds the default. |
| ExactTable.BulkPastTheLimit | src/hardware_dep/dpdk/data_plane/dpdk_tables.c:374-398 | 65 keys where the hash takes 64, and positions it may leave that give a wrong value. |
| LpmTable.BestRule | src/hardware_dep/dpdk/data_plane/dpdk_tables.c:436-449 | Of the rules matching an address exactly one is longest and latest. |
| LpmTable.MatchesExactly | src/hardware_dep/dpdk/data_plane/dpdk_tables.c:325-338 | A rule matches an address exactly when its depth is 1 to 32 and the two agree after division by 2 to the 32 - depth. |
| LpmTable.ShorterPrefixMatches | src/hardware_dep/dpdk/data_plane/dpdk_tables.c:325-338 | A shorter prefix of the key of a matching rule matches too. |
| LpmTable.TenSlashEight | src/hardware_dep/dpdk/data_plane/dpdk_tables.c:325-338 | 10.0.0.0/8 matches exactly the addresses from 10.0.0.0 to 10.255.255.255. |
| LpmTable.LookupTable.LpmAdd | src/hardware_dep/dpdk/data_plane/dpdk_tables.c:325-338 | The rule is added, each net leads to its latest rule's place, and each place holds the last value put there; a bad depth ends the process. |
| LpmTable.LookupTable.LpmLookup | src/hardware_dep/dpdk/data_plane/dpdk_tables.c:436-449 | Each address gets what the place of its best rule holds, or the default; on a keyless table, and there alone, it faults. |
| LpmTable.LookupTable.LongestPrefixWins | src/hardware_dep/dpdk/data_plane/dpdk_tables.c:436-449 | Where fewer than 256 rules were added after the best one, its value is given: that of the longest matching prefix, the latest of equals. |
| LpmTable.LookupTable.LookupIsRightExactly | src/hardware_dep/dpdk/data_plane/dpdk_tables.c:436-449 | The best rule's value is given exactly when it still has its place or the rule there now has the same value. |
| LpmTable.ManyRulesMisdirect | src/hardware_dep/dpdk/data_plane/dpdk_tables.c:325-338 | 257 rules and an address that gets the value of a rule that does not match it. |
| LpmTable.KeepsPlaceExactly | src/hardware_dep/dpdk/data_plane/dpdk_tables.c:325-338 | A rule keeps its place exactly until 256 more were added. |
| TernaryTable.NaiveTable.Add | src/hardware_dep/shared/data_plane/ternary_naive.c:34-44 | The entry is appended; entry 256 empties the table. |
| TernaryTable.MatchesExactly | src/hardware_dep/shared/data_plane/ternary_naive.c:56-62 | An entry matches exactly when each bit of its key is that of the key looked up where the mask has a 1, and 0 where it has a 0. |
| TernaryTable.NaiveTable.Scan | src/hardware_dep/shared/data_plane/ternary_naive.c:46-65 | The scan ends with the most recently added match, and a flag about the last entry alone. |
| TernaryTable.NaiveTable.Lookup | src/hardware_dep/shared/data_plane/ternary_naive.c:46-66 | The value returned, null, or a fault on an empty table. |
| TernaryTable.LatestIsTheLastMatch | src/hardware_dep/shared/data_plane/ternary_naive.c:51-64 | What "most recently added match" means, position by position. |
| TernaryTable.RightExactly | src/hardware_dep/shared/data_plane/ternary_naive.c:65 | The value is the wanted one exactly on a table with entries whose last one matches or none does. |
| TernaryTable.OlderEntryIsMissed | src/hardware_dep/shared/data_plane/ternary_naive.c:65 | Two entries and a key for which it is not. |
| TernaryTable.NaiveTable.TernaryLookup | src/hardware_dep/dpdk/data_plane/dpdk_tables.c:468-474 | The default for null and for keyless tables. |
| TerminalLookup.Truncate | src/hardware_indep/dataplane.c.py:80-93 | The URL is cut after its last '/'. |
| TerminalLookup.PrefixExactly | src/hardware_indep/dataplane.c.py:37-58 | The key looked up for a prefix is the one with its bytes and zeros after them. |
| TerminalLookup.TruncatedExactly | src/hardware_indep/dataplane.c.py:80-93 | The key is a zero-padded prefix exactly when the URL is zero past its clipped length. |
| TerminalLookup.SearchPrefixes | src/hardware_indep/dataplane.c.py:37-58 | From `length - 2` down no prefix is skipped: the longest terminal one wins, and without one the last tried. |
| TerminalLookup.TerminalLookup | src/hardware_indep/dataplane.c.py:35-60 | The same for each packet of a batch. |
| TerminalLookup.ApplyTable | src/hardware_indep/dataplane.c.py:112-121 | The same for the key builder, the full-key lookup and the search together. |
| TerminalLookup.LongestTerminalPrefixWins | src/hardware_indep/dataplane.c.py:35-60 | With a default that is not terminal, the result is the entry stored under the longest terminal prefix, and is terminal. |
| TerminalLookup.TerminalPrefixFound | src/hardware_indep/dataplane.c.py:35-60 | Whenever some prefix ended by a slash has a terminal entry, the result is the one of the longest of them. |
| Expressions.PrintedTextParses | src/utils/hlir.py:30-58 | The printed text reads under C precedence as the tree meant, exactly for the well-formed expressions; for the others it does not parse. |
| Expressions.MeantHasTheValue | src/utils/hlir.py:40-58 | That tree has the value of the expression. |
| Expressions.PrintedTextMeansTheSame | src/utils/hlir.py:30-58 | The printed text has the value of the expression in every packet state. |
| Expressions.NodeParsesBack | src/utils/hlir.py:22-28 | The text of a control graph parses to its statements, whatever follows. |
| Expressions.PrintedGraphCallsTheSameTable | src/utils/hlir.py:22-28 | Running the text calls the table, or none, that walking the graph reaches. |
| ExpressionValues.WordIsResidue | src/utils/hlir.py:30-58 | In C an arithmetic expression that reads a field has its value modulo 2 to the 32, and one that reads none its value, as long as `int` does not overflow. |
| ExpressionValues.NoValueExactly | src/utils/hlir.py:30-58 | An arithmetic expression has no value in C exactly when a literal or a result without a field leaves `int`. |
| ExpressionValues.ArithmeticExactly | src/utils/hlir.py:30-58 | The printed text of an arithmetic expression has its value in C exactly when it reads no field or the value fits 32 bits, whatever happens on the way. |
| ExpressionValues.ComparisonExactly | src/utils/hlir.py:30-58 | A printed comparison has its truth value in C exactly when it compares ints or comes out the same on the residues of its operands. |
| ExpressionValues.WordsCompareAlike | src/utils/hlir.py:30-58 | Operands whose values fit 32 bits always do. |
| ExpressionValues.NegativeLiteral | src/utils/hlir.py:30-58 | -1 < f is true in P4 and false in C, for every field. |
| ExpressionValues.GraphInWords | src/utils/hlir.py:22-28 | Where every comparison comes out alike, the printed graph run in C calls the table that the program means. |
| ExpressionValues.PlainGraphRuns | src/utils/hlir.py:22-28 | A control graph that compares fields with fields and with non-negative numbers within `int` runs in C as the program means, whatever the packet. |

## Left out

* DPDK itself, start-up, port and queue configuration, link polling and argument parsing: foreign code and I/O.
* Sockets, `select`, host names, the controllers' accept loop and their scripted contents: I/O.
* `threadpool.c`: it waits on a condition after unlocking, so its steps have no defined meaning.
* Shutdown and destruction of the backend.
* Failed allocation of memory other than mbufs and cells, and of locks.
* Fields that end past 32 bits of their first byte, whose mask is 0, and layouts with virtual header instances.
* `MODIFY_INT32_BYTEBUF` and the byte-buffer accessors: plain copies.
* `push` and `pop` in `dpdk_primitives.c`, counters, `vector.c`, the table fillers of `main_loop.c`: nothing promised, or easy.
* Keys of several fields and the emission of parse states: key advancement is commented out there.
* Keys of one to three bytes and of five to sixteen bytes in LPM tables: the former overlap when read in bulk, the latter all share place 1.
* The lengths of delays; a delay is over when the lookups it waits for are.
* The index that `add_index` writes past the end of a caller's value: it is not in the stored copy.
* When a NIC gives back the references of the packets it accepted: it does so after sending them, on its own.
* ExpressionValues.ArithmeticExactly: shifts, the bitwise operators of two operands and literals too wide for `int`, which C takes as `long`, are not covered.
* Spelling: names, numbers and operators are tokens, so how text is split into them is not modelled.
* Fairness: progress is that a continuation exists, not that the scheduler takes it.
* Mutexes and condition variables of the rings: a locked region is one step, and waiting is a step not taken.
* Builder.BuildEntry: messages start at offset 0 of their buffer, as every caller has it.
* Framing.Socket.Write: a `write` that returns 0 is not among its outcomes, since the loop that calls it would not end.
* ExactTable.RteHash.AddKey: a new key goes to any free slot, not the one a cuckoo hash would choose.
* LpmTable.RteLpm.Add: the limits on rules and on second-level tables, which 256 rules do not reach, are not modelled.
* Multicast.DpdkMcastPacket: the length, VLAN and offload fields copied to a new header are not kept.
* Transmit.DrainPorts: time, which decides when the step is taken, is not modelled.
