# A verified model of ruby-oci8's core

ruby-oci8 is a Ruby driver for Oracle. This project models, in Dafny, the parts of it that hold its own logic, and
proves what they promise. The calls into Oracle's client library appear as contracts or as parameters that say what
the library answers.

- **Oracle NUMBER** (`OraNumber`, `NumberText`, `NumberParser`, `NumberPrinter`, with `Decimal` underneath). A NUMBER
  is a sign, an exponent and up to twenty base-100 digits. `OraNumber` says which numbers are canonical, how they are
  laid out in bytes and what they denote; byte order is numeric order. `NumberText` is the grammar of the accepted
  texts. `NumberParser.FromStr` is the reader with its 41-digit buffer, its alignment, rounding and carries; its
  contract is arithmetic only: what the text denotes, rounded to twenty base-100 digits. `NumberPrinter.ToStr` is the
  printer. Reading what was printed gives the bytes back.
- **LONG buffers** (`ChunkBuffer`) and **bind arrays** (`BindArray`). A linked list of chunks with two
  pointers to pointers, filled and emptied by Ruby as a whole and by OCI in pieces.
- **The handle forest** (`HandleTree` for what the forest is, `HandleForest` for the pointers). Rings of children,
  links and unlinks, and the recursive free.
- **A connection under several threads** (`CallGuard`). The guard on OCI calls, and the queue of temporary LOB locators
  that calls free on their way in, as a state machine whose steps lie between two points where another thread can run.
- **A session from allocation to logoff** (`Session`). The OCI calls are logged and judged by an observer that knows
  only what OCI allows.
- **Batched reading** (`LobRead`, `ArrayFetch`). The piecewise LOB read and the array fetch of a cursor.
- **Object types** (`ObjectLayout`). Offsets, sizes and alignments of attributes, and the indicator structure.
- **Hooks** (`Hooks`, `SocketRing`). All-or-nothing installation of hook functions in ELF import slots, and the ring of
  sockets whose reads are in progress.
- **Mach-O bind opcodes** (`MachOBind`, `MachOFormat`). The interpreter that runs twice, to count and to fill, and the
  table that the format means.

`dafny verify dfyconfig.toml` checks the whole project.

## How to read it

Code that changes things step by step is a method or a class here; its contract says what it computes in terms of
functions and predicates, and lemmas say what those mean. Where Oracle, the interpreter or the operating system decides
something, a parameter says how it decided, so a theorem over all parameters is a theorem over all their answers; a
contract of a library call is the method `Call`, `StmtFetch` or `Receive` of its module.

Where the code does not do what its purpose suggests, the model follows the code:

- A call that enters with temporary LOBs pending, in non-blocking mode, opens the guard too early
  (`ext/oci8/oci8lib.c:399` and `:477`). `CallGuard.EntryIsSafeIffClean` says exactly when an entry is safe.
- An interrupt between setting the guard and freeing a temporary LOB leaves the guard set
  (`CallGuard.InterruptLeavesGuardSet`), and from then on every entry is refused (`CallGuard.RefusedForGood`).
  `CallGuard.GuardAfterExit` says for every exit in any state whether the guard is still set.
- `bind_long_set` keeps the length in 32 bits, and a chunk of 2^31 bytes is followed by empty chunks, with which its
  loop does not end. `ChunkBuffer.EndsIffRoom` says when it ends; `UsableSettingsEnd`, `DoublingEnds` and
  `HalfRangeNeverEnds` say for which settings and lengths.
- An in-bind transfer starts where the last one stopped. If that one was abandoned, it sends the end of the value, or a
  spare chunk, or runs off the list: `ChunkBuffer.DeliversIff` says when it sends the value,
  `ChunkBuffer.SendsStale` and `ChunkBuffer.RunsOff` reach the other cases.
- `oci8_bind_set` clears the null indicator before the conversion can raise (`ext/oci8/bind.c:681`), so an element that
  was nil is not nil after a set that failed; `BindArray.FailedSet` says which elements change, `BindArray.NilIsLost`
  is an input.
- After a failed allocation, attach, begin and logoff make calls on a handle that is NULL. In `Session` these are events
  that OCI refuses; `Session.Lifetime` says exactly when there are none, and `Session.LogoffOnNull` makes two.
- A server that was attached, or a session that was begun, is left as it is at logoff if the `OCIAttrSet` that follows
  never succeeds (`ext/oci8/oci8.c:562-566` and `:600-608`): `Session.Lifetime` says exactly when, and
  `Session.StaysBehind` is a run.
- Linking a handle under itself or under a descendant of its own is not refused: `HandleForest.Runtime.Link` says what
  the pointers are then, and that they are no forest exactly in that case.
- `prefetch_rows=` takes zero, which becomes the batch size if a column is a LOB. Then a fetch gives no row at all:
  `ArrayFetch.Cursor.FetchAll` and `ArrayFetch.NoRows`.
- An interrupt between freeing a temporary LOB and freeing its descriptor queues the locator again, so that the LOB is
  freed a second time: `CallGuard.FreedAgain`.
- A LOB read that is left by an exception of the call wrapper in mid-stream leaves `suppress_free_temp_lobs` set;
  `LobRead.Lob.Read` says, from the answers to the calls, exactly when, and `LobRead.LeavesFlagSet` is such a run.
- A column defined in the middle of a batch is missing in the rows already fetched; `ArrayFetch.Cursor.FetchRow` says in
  which rows and columns exactly.
- The comment of `__fetch` promises true or false (`ext/oci8/stmt.c:278`); the code returns a number of rows or nil.
- The interpreter of the bind opcodes does not move past a pointer it has bound, records no entry for
  `BIND_OPCODE_DO_BIND_ADD_ADDR_ULEB`, and passes offsets, counts and skips through a C `int`. At
  `BIND_OPCODE_SET_DYLIB_SPECIAL_IMM` it falls through and takes what follows, up to a zero byte, for a symbol.
  `MachOFormat.CompleteIffKept` says for whole programs exactly when no bind is lost by that, and
  `MachOFormat.TableIsRightIff` when the table is the one the format means. `MachOFormat.SpecialSpoilsSymbol` says that
  a symbol directly behind a special ordinal is always spoiled.

## Model

| member | source | states |
|---|---|---|
| NumberText.ParseRender | ext/oci8/oranumber_util.c:141-265 | reading a rendered literal gives the literal back: the grammar of accepted texts is unambiguous |
| NumberText.RenderParse | ext/oci8/oranumber_util.c:141-265 | whatever the reader accepts is a well-formed literal, and rendering it gives the very text |
| NumberText.AcceptedIffGrammatical | ext/oci8/oranumber_util.c:141-265 | a text is accepted if and only if it is the rendering of some well-formed literal |
| NumberText.ExponentShifts | ext/oci8/oranumber_util.c:232-257 | a written exponent multiplies what the numeral denotes by that power of ten, and with a minus sign divides it |
| NumberText.ExponentMovesPoint | ext/oci8/oranumber_util.c:232-257 | writing an exponent and moving the point by as many places denote the same |
| OraNumber.ByteOrderIsNumericOrder | ext/oci8/oranumber_util.c:309-333 | canonical encodings compare byte by byte exactly as the numbers they denote, with zero, both infinities and negatives with and without the terminator |
| OraNumber.EncodingIsUnique | ext/oci8/oranumber_util.c:317-333 | two canonical numbers of the same value have the same bytes |
| OraNumber.BytesWeighValue | ext/oci8/oranumber_util.c:62-78 | read byte by byte, each worth its digit times a power of one hundred, the bytes of every canonical number denote its value |
| OraNumber.MantissaOrder | ext/oci8/oranumber_util.c:309-316 | positive numbers compare first by exponent and then by digits |
| NumberParser.FromStr | ext/oci8/oranumber_util.c:125-335 | for every text: rejected exactly if it is not in the grammar; otherwise its value rounded half away from zero to twenty base-100 digits is stored canonically, zero below 10^-130, overflow from 10^126 on; all accesses to the 41 digits are in bounds |
| NumberParser.OutcomeUnique | ext/oci8/oranumber_util.c:266-333 | the contract of the reader leaves exactly one outcome for each text |
| NumberParser.EqualValuesEqualOutcomes | ext/oci8/oranumber_util.c:273-333 | texts of the same sign whose values round to the same number give identical bytes or fail alike |
| NumberParser.ExponentOrPoint | ext/oci8/oranumber_util.c:232-333 | a text with an exponent and the text with the point moved instead have the same outcome |
| NumberParser.RoundsToNearest | ext/oci8/oranumber_util.c:273-294 | the rounded value is a multiple of the last place and nearer than half of it, or as near and above |
| NumberParser.OverflowIff | ext/oci8/oranumber_util.c:299-308 | a numeral overflows exactly if its rounded value is 10^126 or more, and is stored as zero exactly if it is below 10^-130 |
| NumberParser.MinusIsBelowZero | ext/oci8/oranumber_util.c:141-174 | whatever is behind a minus sign stores zero or bytes below those of zero |
| NumberParser.NoMinusIsFromZero | ext/oci8/oranumber_util.c:141-174 | and without one zero or bytes that are not below |
| NumberParser.TildeBytes | ext/oci8/oranumber_util.c:150-174 | the bytes of the two infinities |
| NumberParser.OutcomeIsCanonical | ext/oci8/oranumber_util.c:164-174 | every successful result is the encoding of a canonical number |
| NumberParser.ReadWhole | ext/oci8/oranumber_util.c:181-203 | the integer loop keeps the significant digits, at most 41 of them, and counts all of them |
| NumberParser.ReadDecimals | ext/oci8/oranumber_util.c:204-230 | the fraction loop continues the significant digits, and zeros before the first one move the decimal point |
| NumberParser.ReadNumeral | ext/oci8/oranumber_util.c:181-265 | integer, fraction, exponent and end of the text, with what they denote together |
| NumberParser.Round | ext/oci8/oranumber_util.c:273-294 | the carry loop rounds the aligned digits to forty, nines propagate, and a carry out of the first digit raises the exponent |
| NumberParser.RoundCut | ext/oci8/oranumber_util.c:273-294 | looking at the 41st digit alone is rounding the whole value, digits that were dropped included |
| NumberParser.CarryAddsOne | ext/oci8/oranumber_util.c:276-288 | turning trailing nines to zeros and raising the digit before them adds one |
| NumberParser.ToBase100 | ext/oci8/oranumber_util.c:309-316 | the in-place compaction pairs the decimal digits |
| NumberParser.Construct | ext/oci8/oranumber_util.c:317-333 | the bytes built are the encoding of the number, complemented and terminated if it is negative |
| NumberPrinter.ToStr | ext/oci8/oranumber_util.c:6-123 | for every 22 bytes and every buffer length: the text and its NUL, or too short exactly if they do not fit, or an invalid format exactly if the length byte is zero or above 21, or one before a byte that is neither 0 nor 0x80; never a write past the length |
| NumberPrinter.Decode | ext/oci8/oranumber_util.c:62-78 | the digits and the exponent of the bytes, with the end marker |
| NumberPrinter.PutWhole | ext/oci8/oranumber_util.c:79-104 | the integer part is written digit pair by digit pair, zeros after the last stored digit |
| NumberPrinter.PutFraction | ext/oci8/oranumber_util.c:105-117 | the fraction is written digit pair by digit pair |
| NumberPrinter.TextIsPlain | ext/oci8/oranumber_util.c:6-123 | the text printed for the bytes of a canonical number is the rendering of its plain literal, whatever bytes follow them |
| NumberPrinter.PrintedForm | ext/oci8/oranumber_util.c:79-123 | for every canonical number that literal is well-formed and plain: no exponent, no superfluous zero in front of the integer part or at the end of the fraction |
| NumberPrinter.PlainDenotes | ext/oci8/oranumber_util.c:79-123 | the plain notation denotes the number, exactly |
| NumberPrinter.PrintedLength | ext/oci8/oranumber_util.c:14-27 | no canonical number needs more than 171 characters |
| NumberPrinter.RoundTrip | ext/oci8/oranumber_util.c:6-335 | reading the printed text of a canonical number gives its bytes, whatever a conforming reader does |
| NumberPrinter.PrintAndRead | ext/oci8/oranumber_util.c:6-335 | the two methods in a row restore the bytes with a buffer of 172 |
| ChunkBuffer.SizeCollapse | ext/oci8/bind.c:336-359 | half of the 32-bit range is the one chunk size whose successor is empty, and an empty chunk is followed by empty ones |
| ChunkBuffer.SizesDouble | ext/oci8/bind.c:336-359 | with usable settings every new chunk is twice as large as the one before, up to the cap |
| ChunkBuffer.EndsIffRoom | ext/oci8/bind.c:476-502 | the loop of a set ends if and only if some number of chunks, present or still to be linked, has room for the length |
| ChunkBuffer.UsableSettingsEnd | ext/oci8/bind.c:476-502 | it ends for every length if the initial size is not 2^31, the cap is below 2^31 and so are the chunks present |
| ChunkBuffer.DoublingEnds | ext/oci8/bind.c:336-359 | with a cap of 2^31 or more, from a chunk to be linked whose size is a power of two: it ends if and only if the length still to store is at most 2^32 less that size |
| ChunkBuffer.HalfRangeNeverEnds | ext/oci8/bind.c:336-359 | with an initial size of 2^31 and an empty list: it ends if and only if the length is at most 2^31 |
| ChunkBuffer.ChunkBuf.TakeChunk | ext/oci8/bind.c:336-359 | the next chunk is the spare one behind the tail, or a new one at the end of the list; no chunk is lost |
| ChunkBuffer.ChunkBuf.LongSet | ext/oci8/bind.c:476-502 | whenever its loop ends: the buffer holds the value, its length taken modulo 2^32, whatever chunks it had before; how many chunks are in use and linked, of which sizes, and that spare chunks keep their bytes |
| ChunkBuffer.ChunkBuf.LongGet | ext/oci8/bind.c:447-474 | the bytes of the used chunks, and nothing of the spare ones |
| ChunkBuffer.ChunkBuf.DefineCallback | ext/oci8/bind.c:361-377 | the first piece starts over, later ones keep what was received |
| ChunkBuffer.ChunkBuf.OutCallback | ext/oci8/bind.c:410-427 | the same for out binds, answering FIRST to ONE |
| ChunkBuffer.ChunkBuf.Receive | ext/oci8/bind.c:361-427 | a completed define or out transfer leaves exactly the transferred value, whatever the pieces are |
| ChunkBuffer.ChunkBuf.InCallback | ext/oci8/bind.c:379-408 | from every position: it follows a NULL pointer exactly at the end of the list with chunks in use; otherwise the bytes of the chunk at the position, the kind of the piece, and where the next call continues |
| ChunkBuffer.ChunkBuf.Send | ext/oci8/bind.c:379-408 | what a transfer from any position delivers, in which pieces, and where it stops; from the head, the pieces join to the value and the position is back at the head |
| ChunkBuffer.KindsShape | ext/oci8/bind.c:379-408 | the shape of the answers for every number of chunks |
| ChunkBuffer.TransferEnds | ext/oci8/bind.c:379-408 | a transfer comes to an end without running off the list if and only if nothing is in use, or the position is before the tail, or one chunk is in use and the position is in the list |
| ChunkBuffer.DeliveredIs | ext/oci8/bind.c:379-408 | what it delivers then: with one chunk in use the chunk at the position, be it a spare one, with several those from the position to the tail |
| ChunkBuffer.DeliversIff | ext/oci8/bind.c:379-408 | it delivers the value, whatever the chunks hold, if and only if nothing is in use or it starts at the head |
| ChunkBuffer.SendsStale | ext/oci8/bind.c:379-502 | a set of two chunks, one call, a set of one chunk: the transfer that follows sends a byte of the first value |
| ChunkBuffer.RunsOff | ext/oci8/bind.c:379-502 | a set of three chunks, two calls, a set of two chunks: the transfer that follows runs off the list |
| ChunkBuffer.ChunkBuf.Free | ext/oci8/bind.c:429-445 | every chunk, used or spare, is freed once |
| ChunkBuffer.Replay | ext/oci8/bind.c:336-537 | over any history of sets and completed transfers, with usable settings changing in between, the value is that of the last set or transfer |
| BindArray.Bind.SetData | ext/oci8/bind.c:664-714 | all of the data is stored or the array keeps its size; data of the wrong shape changes no element; if an element does not convert, those before it are stored, it shows the bytes that lay under its indicator, and those behind it are as they were |
| BindArray.FailedSet | ext/oci8/bind.c:677-714 | an array set fails at the first value that does not convert, and that element changes if and only if it was nil |
| BindArray.NilIsLost | ext/oci8/bind.c:677-686 | a new bind is nil; after a set that raises it is the zero bytes |
| BindArray.Bind.GetData | ext/oci8/bind.c:622-662 | the whole contents, or one element, or an error exactly if the index is not below the array size |
| BindArray.SetAndGet | ext/oci8/bind.c:636-714 | what was set is what is got back, unless setting it failed |
| HandleTree.CycleIffAncestor | ext/oci8/oci8lib.c:341-360 | linking a handle, wherever it was before, closes a cycle of parents if and only if it is the new parent or an ancestor of it |
| HandleTree.BelowIffRemoved | ext/oci8/oci8lib.c:341-348 | being below the handle is the same before and after it is taken from its old ring |
| HandleTree.PostOrderExact | ext/oci8/oci8lib.c:40-60 | the order of freeing contains exactly the members of the subtree, each once, children before parents |
| HandleTree.PrevNext | ext/oci8/oci8lib.c:341-379 | in every ring, previous and next undo each other |
| HandleTree.RemoveNext | ext/oci8/oci8lib.c:362-379 | which next pointers an unlink changes, for every handle |
| HandleTree.InsertLinks | ext/oci8/oci8lib.c:341-360 | which neighbours a link changes, for every handle |
| HandleForest.Runtime.Allocate | ext/oci8/ocihandle.c:103-119 | a new handle is its own ring and changes nothing else |
| HandleForest.Runtime.Link | ext/oci8/oci8lib.c:341-360 | for every handle and every parent: the pointers describe the tree with the handle taken from its old ring and put last in the new one, and it is a forest if and only if the parent was not below the handle |
| HandleForest.Runtime.Unlink | ext/oci8/oci8lib.c:362-379 | the pointers describe the forest without that edge; an unlinked handle points to itself |
| HandleForest.Runtime.BaseFree | ext/oci8/oci8lib.c:40-60 | terminates; the callbacks run in post-order; every member gives back, once and unless its callback took over, a handle of a type from 1 on but 5 and 6, or a descriptor of a type from 50 on, with its old pointer, and otherwise nothing; every member is closed, empty and detached, every other handle is as it was except for the ring it shared |
| CallGuard.StepConserves | ext/oci8/oci8lib.c:441-470 | each step keeps every locator in exactly one place, through raises, push-backs and frees by the collector |
| CallGuard.LocatorsAreFreedOnce | ext/oci8/lob.c:60-79 | over every run a locator is in one of handle, queue, a draining thread, or freed, and freed at most once; after the connection's own free callback all were freed once and none is queued |
| CallGuard.OnlyTemporariesAreQueued | ext/oci8/lob.c:60-79 | over every run until the connection is destroyed: what is queued, in a thread's hand or was passed to OCILobFreeTemporary is temporary; the descriptor of a temporary LOB is freed only after that call came back for it; a permanent locator is in its handle or its descriptor is freed |
| CallGuard.DroppedWhenDestroyed | ext/oci8/oci8.c:182-195 | a temporary LOB whose descriptor was freed without that call was queued, or its handle still there, when the connection was destroyed |
| CallGuard.RaiseQueuesAgain | ext/oci8/oci8lib.c:456-462 | a thread that leaves with a locator in its hand puts it back in front of the queue and frees nothing |
| CallGuard.FreedAgain | ext/oci8/oci8lib.c:456-462 | an interrupt after the free queues the locator again, and OCILobFreeTemporary comes back for it a second time |
| CallGuard.ReleaseAllKeeps | ext/oci8/oci8.c:182-195 | freeing the children before the connection moves every locator on and loses none |
| CallGuard.ReleaseAllSorts | ext/oci8/lob.c:60-79 | and it queues exactly the temporary ones among theirs and frees the descriptors of exactly the others |
| CallGuard.ThreadKeepsGuarded | ext/oci8/oci8lib.c:409-485 | a step of one thread keeps the guard right for every thread |
| CallGuard.CleanRunsAreExclusive | ext/oci8/oci8lib.c:409-485 | in every run whose entries are clean at most one thread is in an OCI call, for any mix of blocking and non-blocking callers |
| CallGuard.ExclusiveFromTheStart | ext/oci8/oci8lib.c:409-485 | and so it is in every such run of a new connection |
| CallGuard.GuardIsFreeAfterExit | ext/oci8/oci8lib.c:472-484 | after every normal or raising exit of a call that was let in, executing_thread is nil, in the states of clean runs |
| CallGuard.GuardAfterExit | ext/oci8/oci8lib.c:394-485 | in any state, the guard is still set after an exit if and only if the thread found it set, or was interrupted, while it was freeing a locator, or it was set behind its back |
| CallGuard.RefusedForGood | ext/oci8/oci8lib.c:472-484 | if the guard is set while no thread is inside, every later entry is refused, over every run |
| CallGuard.InterruptLeavesGuardSet | ext/oci8/oci8lib.c:394-402 | from every idle state with a locator queued, a run of three steps ends there |
| CallGuard.DrainOpensGuard | ext/oci8/oci8lib.c:394-402 | from any pending queue there is a run that ends with two threads in OCI calls |
| CallGuard.EntryIsSafeIffClean | ext/oci8/oci8lib.c:438-484 | an entry is safe over all continuations with clean entries if and only if nothing is queued, or the drain is suppressed, or the connection is blocking |
| Session.FreedOnce | ext/oci8/oci8.c:475-483 | in a safe log a handle is allocated at most once and freed at most as often |
| Session.NotUsedAfterFree | ext/oci8/oci8.c:451-484 | in a safe log no handle is used after it was freed |
| Session.EndBeforeDetach | ext/oci8/oci8.c:465-472 | in a safe log the session ends before the server is detached |
| Session.FinishedMeans | ext/oci8/oci8.c:451-484 | a safe log is finished if and only if the session was ended once exactly if it was set up, likewise the server, and every handle allocated was freed |
| Session.LegalIff | ext/oci8/oci8.c:438-484 | a safe log is legal if and only if it has no call on a NULL handle |
| Session.Connection.AllocateHandles | ext/oci8/oci8.c:499-528 | keeps the log safe with a failure at any of the three allocations, and refuses a second use |
| Session.Connection.ServerAttach | ext/oci8/oci8.c:539-571 | raises exactly on misuse, a wrapper that raises, a server handle that is NULL, or a failing call; the state bit is set exactly if both OCI calls succeeded |
| Session.Connection.SessionBegin | ext/oci8/oci8.c:582-618 | the state bit is set exactly if both OCI calls succeeded, even if the version query then fails |
| Session.Connection.EndTransaction | ext/oci8/oci8.c:451-463 | a new client asks OCI once if it has a session handle; one rollback on the service handle unless the answer was that nothing is open; how many of its calls are on a NULL handle, for every set of handles |
| Session.RollbackComesFirst | ext/oci8/oci8.c:451-472 | in a safe log no rollback comes after an end or a detach |
| Session.Connection.Execute | ext/oci8/oci8.c:451-484 | turns any log its arguments fit into a finished one in which what is open is rolled back, and makes exactly the calls on NULL handles that the missing handles cause |
| Session.Connection.Logoff | ext/oci8/oci8.c:628-644 | the execution runs once, unless the call wrapper raises first, and never again |
| Session.Lifetime | ext/oci8/oci8.c:182-644 | over every sequence of operations with failures at any step: the calls are safe, and legal if and only if no attach or begin came without its handle and the execution, if it ran, had a service handle and, with a new client, a session handle; the execution runs at most once, and exactly once if the connection was allocated and closed and the execution was not lost; then every handle is freed, what was set in the service handle is ended and detached, and a server stays attached, or a session begun, if and only if it was entered and setting it never succeeded; there is exactly one rollback if there was a service handle and OCI did not say that nothing is open, and otherwise none, and OCI was asked exactly if a new client had a session handle |
| Session.LeftBehind | ext/oci8/oci8.c:451-484 | the same of every finished log in which nothing is entered after it was left |
| Session.StaysBehind | ext/oci8/oci8.c:539-618 | attach and begin succeed, setting them fails: after the logoff, whose calls are legal, both are still there |
| Session.LogoffOnNull | ext/oci8/oci8.c:499-528 | the first allocation fails: the logoff asks NULL for its transaction and rolls NULL back |
| Session.Connection.BaseFree | ext/oci8/oci8.c:182-216 | the same for the collector and a native thread, and the service handle is not freed a second time |
| LobRead.ReadsAgree | ext/oci8/lob.c:638-730 | reads of any sizes, one after the other, give what one read of their total gives |
| LobRead.Lob.ReadRequest | ext/oci8/lob.c:670-699 | the inner loop reads one request completely, and comes out, after as many calls, as the answers to them decide; the flag is clear when it ends |
| LobRead.Lob.Read | ext/oci8/lob.c:638-730 | exactly the content from the position to the requested end, nil or the empty string as documented, the position advanced by as much, for contents of any length; no temporary LOB is freed between a piece and the next one; from the answers to the calls: when it raises, which exception, and that the flag is left set if and only if the wrapper raised while OCI waited for the next piece |
| LobRead.LeavesFlagSet | ext/oci8/lob.c:670-699 | one piece comes and the wrapper raises before the next: the read raises and the flag is set |
| LobRead.Service.Call | ext/oci8/oci8lib.c:441-470 | the contract of one piece together with the drain of the queue in front of it, which is left out exactly if the flag is set |
| ArrayFetch.Cursor.DefineColumn | lib/oci8/cursor.rb:44-52 | at any time, keeps every buffer as large as a batch; rows in the buffers lose that column |
| ArrayFetch.Cursor.DefineColumns | lib/oci8/cursor.rb:525-553 | all columns are defined with one batch size, chosen only if none was defined before, zero included |
| ArrayFetch.Cursor.Exec | lib/oci8/cursor.rb:127-140 | starts the result from its first row, or leaves the cursor as it was |
| ArrayFetch.Cursor.StmtFetch | ext/oci8/stmt.c:282-319 | the next batch in the buffers, nil at the end of the result and from then on; the size check never fails |
| ArrayFetch.Cursor.FetchRow | lib/oci8/cursor.rb:565-583 | each row of the result once and in order, then nil until the next exec, for every batch size but zero, with which it is nil at once; a column is missing exactly if it was defined since the row was fetched; the row index is in range for every handle |
| ArrayFetch.Cursor.FetchAll | lib/oci8/cursor.rb:155-164 | a fetch with a block after exec yields the whole result in order, or no row at all if the batch size is zero |
| ArrayFetch.NoRows | lib/oci8/cursor.rb:391-394 | nothing to prefetch and a LOB column: of a result of one row none is fetched |
| ObjectLayout.MaskRoundsUp | lib/oci8/object.rb:407-408 | the mask formula on two's complement integers is the next multiple, for every power of two |
| ObjectLayout.MultipleMeans | lib/oci8/object.rb:407-408 | being a multiple is having no remainder |
| ObjectLayout.Initialize | lib/oci8/object.rb:395-408 | the accumulating loop computes the description of the type, nested types included |
| ObjectLayout.DescribeIsAligned | lib/oci8/object.rb:407-408 | the size of every type is a multiple of its alignment, a power of two |
| ObjectLayout.OffsetsAt | lib/oci8/object.rb:542-552 | the offsets of an attribute depend only on the attributes before it |
| ObjectLayout.LeavesAreSound | lib/oci8/object.rb:395-408 | in any nesting, every value, of the size of its C type, is aligned as that type demands, no two overlap, all lie inside the object |
| ObjectLayout.DescribeIsExact | lib/oci8/object.rb:395-408 | in any nesting, the alignment of a type is that of its coarsest value, and its size is the least multiple of it that holds the last value |
| ObjectLayout.AttributesAreTight | lib/oci8/object.rb:542-552 | the gap in front of an attribute is smaller than its alignment |
| ObjectLayout.TwoAlike | lib/oci8/object.rb:469-512 | two attributes of one C type, for each of the five: the sizes, alignments and offsets |
| ObjectLayout.SlotsTile | lib/oci8/object.rb:451-552 | in any nesting, the two-byte indicators fill the indicator structure exactly, the object's own one first |
| Hooks.Table.Enumerate | ext/oci8/plthook_elf.c:832-861 | the next import slot of the two tables, skipping the others |
| Hooks.MatchesIff | ext/oci8/plthook_elf.c:876-877 | a slot is for a function if it has its name, or its name, an at sign and a version |
| Hooks.OneFunction | ext/oci8/plthook_elf.c:876-877 | no slot is for two functions |
| Hooks.Table.FindMeans | ext/oci8/plthook_elf.c:863-907 | the slot found is the first import slot for the function, if no slot with a broken name comes before it |
| Hooks.Table.Replace | ext/oci8/plthook_elf.c:863-907 | overwrites the slot found and nothing else, or fails and changes nothing, and which error it is |
| Hooks.Table.ReplaceFunctions | ext/oci8/hook_funcs.c:103-132 | succeeds exactly if every replacement can be made; if it fails the memory is as it was, even if names repeat |
| Hooks.Table.LastHookStays | ext/oci8/hook_funcs.c:115-117 | after success each slot holds the last hook meant for it |
| Hooks.Table.OthersStay | ext/oci8/hook_funcs.c:115-117 | and every other slot its own content |
| Hooks.Table.SavedIsPrevious | ext/oci8/hook_funcs.c:117-117 | the saved address is the original one, or the hook that was put into the same slot before |
| SocketRing.Ring.Set | ext/oci8/hook_funcs.c:84-93 | the entry comes first in a well-formed ring |
| SocketRing.Ring.Clear | ext/oci8/hook_funcs.c:95-101 | the entry is taken out of a well-formed ring, from any place |
| SocketRing.Ring.Shutdown | ext/oci8/hook_funcs.c:413-428 | visits the sockets of the ring, each entry once |
| SocketRing.RunKeepsExact | ext/oci8/hook_funcs.c:295-309 | in every interleaving the registered reads are those in progress that saw the flag set when they began, each once |
| SocketRing.Interleave | ext/oci8/hook_funcs.c:295-428 | after any interleaving the pointer ring holds exactly those, and a shutdown visits exactly their sockets |
| MachOBind.UlebRoundTrip | ext/oci8/plthook_osx.c:191-200 | the value of an encoded number is the number |
| MachOBind.Uleb128 | ext/oci8/plthook_osx.c:191-200 | the value of the bytes consumed, in 64 bits |
| MachOBind.Instruction | ext/oci8/plthook_osx.c:543-615 | one opcode with its operands: what it consumes, what it changes and what it enters into the table |
| MachOBind.BindTimes | ext/oci8/plthook_osx.c:606-613 | the repeated bind enters as many entries as it counts, each a step further |
| MachOBind.SetBindAddrs | ext/oci8/plthook_osx.c:531-618 | both passes count the entries of the program, and the second one makes the table equal to them |
| MachOBind.OpenReal | ext/oci8/plthook_osx.c:515-523 | the table sized by the first pass is filled completely by the second |
| MachOFormat.ReadBytes | ext/oci8/plthook_osx.c:556-566 | which instructions the interpreter runs on the bytes of a program with special ordinals: up to the first zero what follows one is its symbol |
| MachOFormat.CompleteIffKept | ext/oci8/plthook_osx.c:556-613 | the table has as many entries as the format has binds if and only if no bind is taken for a part of a symbol, and none adds an address or repeats 2^31 times or more |
| MachOFormat.TableIsRightIff | ext/oci8/plthook_osx.c:531-628 | for whole programs, special ordinals included: if each bind is the only one since its segment was set, at an offset that fits a C int, none adds an address, none is taken for a part of a symbol, and behind what is taken the symbol, and the segment if it was moved there, is set before the next bind, the table equals the one the format means, with unsigned counts and skips and a pointer's advance after every bind; and only if, unless the segment was moved in what is taken |
| MachOFormat.OpenProgram | ext/oci8/plthook_osx.c:515-618 | the same of the table that the two passes make from the bytes |
| MachOFormat.SpecialSpoilsSymbol | ext/oci8/plthook_osx.c:556-566 | whatever follows and whatever came before, a symbol directly behind a special ordinal gets its own opcode in front of its name, and no bind is right before the next symbol |
| MachOFormat.SpoiledSymbol | ext/oci8/plthook_osx.c:556-566 | such a program |
| MachOFormat.SkipIsRun | ext/oci8/plthook_osx.c:556-613 | a zero within an instruction: the interpreter goes on in the middle of it and binds a pointer where the format binds none |
| MachOFormat.TwoBindsShareAddress | ext/oci8/plthook_osx.c:593-595 | two binds in a row: the entries of both have the address of the first |
| MachOFormat.AddressIsExactIff | ext/oci8/plthook_osx.c:620-628 | the offset in force reaches the address of an entry if and only if, as a signed word, it fits a C int |

## Left out

- NumberParser.FromStr: the exponent is unbounded, where C keeps it in a long that can overflow on an exponent of more digits than a long has; the character behind the text reads as NUL, as it does in a Ruby string.
- NumberPrinter.ToStr: `buflen` may be anything up to the size of the buffer; a buffer shorter than claimed is the caller's error.
- ChunkBuffer.ChunkBuf.LongSet: asks that the loop of the code ends, which ChunkBuffer.EndsIffRoom puts as an if-and-only-if; a loop that does not end has no result to state.
- ChunkBuffer.ChunkBuf.InCallback: where the code follows a NULL pointer, the model answers that it does and changes nothing.
- ChunkBuffer.ChunkBuf.Receive: stands for OCI, which moves at least one byte in a call unless the value is empty; it asks for chunks with room and settings that keep it, since OCI is not known to finish without. ChunkBuffer.Replay asks the same. The bytes of a chunk are a sequence in a field, since they are part of the chunk in C.
- BindArray.Bind.SetData: the conversion of a value to its C form is a parameter that says whether it succeeds, and raises before it writes; the null structures of object types, which take the place of the indicators, are not modelled.
- HandleForest.Runtime.BaseFree: callbacks either leave the handle to oci8_base_free or take it over; on a cycle of parents the code does not end, and the model asks for a forest.
- CallGuard.CleanRunsAreExclusive: leaves `OCIBreak` and thread wake-up out, and a connection is shared by Ruby threads only.
- CallGuard.OnlyTemporariesAreQueued: a LOB is temporary if OCILobIsTemporary, asked when its handle is freed, succeeds and says so; a question that fails counts as no, as in the code.
- Session.Connection.Logoff: whole operations follow each other; a logoff by another thread in the middle of an attach is not modelled. Connection pools, the transaction attribute of old clients and the content of errors are left out.
- LobRead.Lob.Read: the LOB is open, sizes are in range, pieces hold whole characters, and the result is bytes without an encoding.
- LobRead.Service.Call: stands for OCI, which sends at least one character unless the request is exhausted, and for a queue that may fill at any time; what it decides is a function of the number of the call.
- ArrayFetch.Cursor.DefineColumn: positions are those of the select list, and OCIDefineByPos succeeds. Define handles are values of the cursor; their ring under the statement, freed predecessors included, is the handle forest's subject.
- ArrayFetch.Cursor.StmtFetch: stands for OCI, which fetches as many rows as there are and answers NO_DATA if it meets the end, and perhaps if it just reaches it or is asked for no row.
- ObjectLayout.Initialize: unsupported typecodes raise in the code and are not types here; typecodes are grouped by their C type. Getters, setters and methods of object types are left out.
- Hooks.Table.ReplaceFunctions: restoring is assumed not to meet an mprotect error, and relocations point to mapped memory. Opening the file, other platforms and the protection after a write are left out.
- SocketRing.Interleave: the lock makes each ring operation one step; the read itself and the closing of the socket are left out.
- MachOBind.SetBindAddrs: the code is a well-formed program with numbers of at most ten bytes, fewer than 2^32 entries and known segments; the addend is read and ignored, as in the code. In MachOBind.Uleb128 the bits or-ed in lie above those already there, so the model adds them.
- MachOFormat.TableIsRightIff: is one direction only for programs that move the segment or the offset in what is taken for a symbol. It and MachOFormat.CompleteIffKept say nothing of programs in which the first zero behind a special ordinal lies within an instruction, of which MachOFormat.SkipIsRun is one, or in which there is none, where the code reads past the program; nor of the opcodes from 0xd on, which the interpreter skips and to which the format gives other meanings or none.
- Calls to Oracle as such, metadata, connection strings, dates, intervals, versions, OCINumber arithmetic, the DBI driver and the build scripts: wrappers and formats without state of their own.
- `open_bfile`, `eof?`, chained fixups and the Windows hooks.
