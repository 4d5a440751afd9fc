# goxdr: codec, calls and transport

A Dafny model of what goxdr does at run time, in three layers and one theorem that joins them.

* **The codec.** Types as the compiler represents them (`Schema`), `XdrOut` and `XdrIn` as
  functions between Go values and octets (`Codec`), the unmarshaling that reuses old variables
  (`InPlace`), marshaling from variables (`MarshalOut`), slice growth on a real array (`Vectors`)
  and the switches that a union declaration turns into (`Unions`); how unmarshaling ends on an
  encoding that is cut off (`Cuts`), and what is on the wire, octet by octet (`Layouts`).
* **The pending-call protocol.** XID allocation (`Xids`), `CallSet` method by method (`CallSets`),
  and the state machine of any number of `SendCall`s, replies, cancellations and shutdown, one
  step for each section under a lock or channel operation (`Calls`); what `SendCall` returns
  (`Outcomes`), and what more calls than allowed for would do (`Wraps`).
* **The transport.** Record marking (`Records`, RFC 5531 section 11), `StreamTransport`
  (`Transport`), its failure latch (`Latch`), the message arena and who owns each message
  (`Arenas`, `Ownership`), and serial dispatch (`Dispatch`).
* **Together.** The message header (`RpcMsg`, `Stats`), `RpcSrv` (`Server`), a call from
  `SendCall` to the procedure and back among any other traffic (`EndToEnd`), and one call carried
  out on the objects themselves, from the caller's argument variable to its result variable
  (`RemoteCalls`).

## Reading guide

`Codec.Decode` and `Codec.Encode` are the reference: `InPlace.Unmarshal` and `MarshalOut.Marshal`
are the code that works on variables, proved to compute them. A variable is a tree of `Slot`
objects that may hold anything (stale elements past a slice's length, old pointees, another arm's
body, no body); `Tree` says that nothing in it is shared and `Holds` what a reader of it sees,
which for a union without a body of the selected arm's type is the zero value (`ZeroValue`) that
the accessor is going to make.

A state machine comes as `Enabled`, `Next`, `Legal` and `After`: `Legal` is any sequence of enabled
steps, so a theorem about `After` is about every interleaving. The methods of `CallSet` are tied
to the steps of `Calls` by `Shows` (the table) and by `Effect` (the callbacks run and the records
recycled).

Where the obvious claim is not what the code does, the model follows the code:

* Strings and opaque data are not checked against their bounds on output
  (cmd/goxdr/header.go.in:650-659); vectors are (cmd/goxdr/goxdr.go:331-332). The round trip
  therefore holds exactly for values in bounds, which `Codec.RoundTripExactly` states as an
  equivalence.
* An enum accepts every 32-bit value (cmd/goxdr/goxdr.go:627).
* A fragment header is read with a single `Read` (rpc/transport.go:173), so a header split over
  two reads fails the transport on a good stream. `Records.ReceiveStep` says exactly when a turn
  of the loop succeeds.
* `Delete` is by XID (rpc/driver.go:381). That it deletes the caller's own entry rests on
  `Calls.Modest`: while a call is in flight, fewer calls begin than lastXid needs to come around.
  `Xids.XidDistance` is the theorem behind that figure and `Wraps.DeletesAnothers` a run that
  exceeds it.
* A send error cancels the XID of whatever message failed, replies included
  (rpc/driver.go:144-148), so `Calls.Cancel` is enabled for any XID and reason.
* `SendCall` panics with its entry in the table in two cases: if its argument cannot be marshaled,
  in `Message.Serialize` (rpc/msg.go:47-54, rpc/driver.go:364), and if it was given a nil context,
  at the select after the message was sent (rpc/driver.go:383; `GetPeer` and `safeSend` accept
  nil). Nothing deletes the entry then. `Calls.LeftOver` says exactly what is in the table when no
  call is in flight, `Calls.NothingLeft` that it is empty if every argument marshals and no
  context is nil; `RemoteCalls.UnmarshalableLeaks` and `Calls.NilContextLeaks` are the cases.
* `safeMarshal` recovers only an XdrError (rpc/util.go:38-51). A read that gets some of the octets
  of a word but not all dereferences a nil error (cmd/goxdr/header.go.in:691-695), and fixed opaque
  data that is not all there panics with a plain error (cmd/goxdr/header.go.in:728-731); either
  ends the program. `Codec.Decode` has `Bad` for an XdrError and `Crash` for the rest;
  `Codec.LeafEnds` and `Cuts.CutEnds` say exactly which inputs do which, `Codec.NeverCrashes`
  which types never crash on a whole number of words, and the messages that end a server are
  `EndToEnd.Kills`.
* A message still queued when its reader has stopped is never recycled, so `Ownership.AlwaysLinear`
  says that a message is recycled at most once between two uses, not exactly once.

## Model

| member | source | states |
|---|---|---|
| Schema.EveryCycleConsumes | cmd/goxdr/goxdr.go:242-245 | Following containment by value through any chain of declarations never comes back, so every cycle passes a present flag, a length or a tag: the measure on which `Decode` terminates |
| Codec.RoundTrip | cmd/goxdr/header.go.in:644-736 | For every schema, recursive types included, every value in bounds marshals, and its octets followed by anything unmarshal to the value and exactly what followed |
| Codec.RoundTripExactly | cmd/goxdr/header.go.in:650-659 | A Go value survives marshaling and unmarshaling if and only if it is in bounds and its tags select arms |
| Codec.Canonical | cmd/goxdr/header.go.in:667-736 | Whatever is accepted is in bounds, and marshaling it gives exactly the octets consumed |
| Codec.PrefixFree | cmd/goxdr/header.go.in:644-665 | Two values of one type whose octets, each followed by anything, coincide are equal |
| Codec.FourAligned | cmd/goxdr/header.go.in:613-632 | An encoding is a multiple of four octets long, for values in bounds or not |
| Codec.NeverCrashes | cmd/goxdr/header.go.in:667-736 | A type without 64-bit numbers and non-empty fixed opaque data, whatever declarations it goes through, unmarshals any whole number of words or fails with an XdrError, and what it leaves is a whole number of words |
| Codec.LeafEnds | cmd/goxdr/header.go.in:667-736 | For every input of a value without parts, exactly when it crashes, raises an XdrError or is accepted, by the octets each read finds |
| Cuts.CutEnds | cmd/goxdr/header.go.in:667-736 | The encoding of any value in bounds is as long as the reads that are listed for it, and cut off after any number of octets it raises an XdrError between two reads or within counted octets, and crashes within any other read or before fixed opaque data |
| Cuts.CutBetween | cmd/goxdr/header.go.in:691-707 | Cut between two reads an encoding raises an XdrError, whatever the type, 64-bit numbers included, unless fixed opaque data comes next |
| Codec.MarshalsExactly | cmd/goxdr/goxdr.go:331-347 | A Go value marshals if and only if every tag met selects an arm and every vector counts no more elements than its bound |
| Bytes.Put32Order | cmd/goxdr/header.go.in:622-626 | Words are in the lexicographic order of their numbers, which among codes by four octets only big-endian is |
| Bytes.Put64Order | cmd/goxdr/header.go.in:628-632 | The same for eight octets |
| Layouts.LeafLayout | cmd/goxdr/header.go.in:613-665 | The octets of every value without parts, and the word in front of pointers, slices and unions, as RFC 4506 has them; bounds of strings and opaque data do not matter |
| Layouts.ZeroIsZeros | cmd/goxdr/header.go.in:644-665 | A zero value marshals as zeros |
| InPlace.Unmarshal | cmd/goxdr/header.go.in:718-736 | Into any unshared variable, whatever it held: how it ends (success, XdrError or crash), the value then observed and the input left over are those of `Decode` |
| InPlace.UnmarshalLeaf | cmd/goxdr/header.go.in:718-733 | The same for words, booleans, strings and opaque data |
| InPlace.UnmarshalPtr | cmd/goxdr/goxdr.go:211-245 | The same for a pointer, which keeps its old pointee if the present flag is one and drops it if it is zero |
| InPlace.UnmarshalVec | cmd/goxdr/goxdr.go:343-347 | The same for a slice, stale elements past its length included |
| InPlace.MarshalN | cmd/goxdr/goxdr.go:331-342 | n elements go into old, stale or new storage, the slice ends up n long and holds just those n values |
| InPlace.NewZero | cmd/goxdr/goxdr.go:816-824 | A new variable is a tree of its own and shows the zero value of its type |
| InPlace.SetVecLen | cmd/goxdr/goxdr.go:310-330 | Fails exactly past the bound; within capacity the backing array stays as it is, stale elements included; past it the elements in the slice and what they hold are kept, all others are new zero elements, and the new capacity is as computed |
| InPlace.UnmarshalFields | cmd/goxdr/goxdr.go:685-695 | Fields in order; a later field leaves what earlier ones hold alone |
| InPlace.UnmarshalArr | cmd/goxdr/goxdr.go:376-380 | Fixed arrays, element by element |
| InPlace.GoTypesAgree | cmd/goxdr/goxdr.go:816-818 | Two declarations are of one Go type if and only if they differ at most in the bounds of strings, opaque data and slices |
| InPlace.Accessor | cmd/goxdr/goxdr.go:816-826 | A body of the selected arm's Go type is kept, as is all that belongs to it, and any other is replaced by a new zero body |
| InPlace.UnmarshalUnion | cmd/goxdr/goxdr.go:936-963 | A union with any old body ends up observably as `Decode` has it, in the old body if that is of the selected arm's type; a void arm leaves a stale body in place and a tag without an arm fails |
| InPlace.HoldsOne | cmd/goxdr/goxdr.go:310-347 | A variable shows one value, so what is observed after unmarshaling depends on the octets alone |
| MarshalOut.Marshal | cmd/goxdr/header.go.in:644-665 | Marshaling a variable appends the encoding of the value it shows, and fails exactly if some tag selects no arm or some vector counts more than its bound; a value in bounds still shows afterwards |
| MarshalOut.MarshalUnion | cmd/goxdr/goxdr.go:936-963 | The same for a union, whose body the accessor makes if there is none of the selected arm's type and whose tag is rejected if it selects no arm |
| MarshalOut.MarshalVec | cmd/goxdr/goxdr.go:331-347 | The same for a slice, which is cut to its length modulo 2^32 |
| MarshalOut.MarshalAll | cmd/goxdr/goxdr.go:331-342 | On output XdrMarshalN appends the elements' encodings in order |
| MarshalOut.Transfer | cmd/goxdr/header.go.in:644-736 | Marshaled from one variable and unmarshaled into any other of the type, a value in bounds arrives, and the source still holds it |
| Vectors.CapAfterIs | cmd/goxdr/goxdr.go:319-326 | A slice that must grow has room for the length, and doubles as far as its bound admits |
| Vectors.Slice.SetVecLen | cmd/goxdr/goxdr.go:310-330 | Contents, length and capacity after every branch; fails exactly past the bound |
| Vectors.Slice.MarshalN | cmd/goxdr/goxdr.go:331-342 | On success capacity stays within the larger of what it was and 2n; when the input ends early, within twice the elements reached, however large the announced length; never above the bound; and growing copies fewer than twice the elements reached |
| Unions.ValidSelects | cmd/goxdr/goxdr.go:862-879 | XdrValid is true exactly when some arm is selected |
| Unions.Coherent | cmd/goxdr/goxdr.go:807-963 | For every tag, the accessor of an arm returns exactly when XdrUnionBody, XdrUnionBodyName and XdrRecurse take that arm, and XdrRecurse rejects exactly when XdrValid is false |
| Unions.InitialValid | cmd/goxdr/goxdr.go:965-993 | A zero union is valid after XdrInitialize, and already valid where that is not emitted; a tag already valid at zero stays zero, and any other becomes the first case |
| Unions.CodecFollows | cmd/goxdr/goxdr.go:943-963 | The codec's arm for a tag is the arm that all the emitted switches select |
| Xids.SomeFree | rpc/util.go:105-108 | While fewer than M calls are pending the search in NewCall ends within one lap |
| Xids.NewXid | rpc/util.go:105-108 | The identifier is in range and not in use |
| Xids.NewXidFirst | rpc/util.go:105-108 | It is the first one free counting up from lastXid, modulo M |
| Xids.LapGoesOn | rpc/util.go:105-108 | Until as many calls have begun as the lap has room for, a new identifier differs from x and from all issued since |
| Xids.XidDistance | rpc/util.go:98-123 | If NewCall returns x while k calls are pending, then whatever begins and ends afterwards the next M-1-k NewCalls return, pairwise distinct and different from x |
| CallSets.SuccessReads | rpc/util.go:61-66 | Of all valid headers just that of an accepted SUCCESS reply counts as a success |
| CallSets.AnswerReads | rpc/util.go:61-66 | Every other reply header reads as its tags on the wire say: the status of an accepted one, a denial otherwise |
| CallSets.CallSet.FreeXid | rpc/util.go:105-108 | The loop ends with lastXid the first free identifier after the old one, wrapping at 2^32 |
| CallSets.CallSet.NewCall | rpc/util.go:98-123 | The new entry is under an identifier that was free, the header carries it, and the table is that of the protocol's next state |
| CallSets.CallSet.Delete | rpc/util.go:126-138 | The entry goes, its record is recycled and its callback is not run |
| CallSets.CallSet.Cancel | rpc/util.go:144-158 | The callback gets CANCELED or the reason (SUCCESS counts as none), then the record is recycled, in that order and nothing else; this is the protocol's Cancel step |
| CallSets.CallSet.CancelAll | rpc/util.go:160-171 | In whatever order the map yields them, every callback and record ends up as the protocol's one CancelAll step has it |
| CallSets.CallSet.GetReply | rpc/util.go:175-199 | A reply matches only by identifier and peer; the entry goes, a success is unmarshaled into the caller's variable, turns into GARBAGE_RET on an XdrError or ends the program, and the callback is left to run; the answer is a success if and only if the header is an accepted SUCCESS and the result unmarshals |
| Calls.InvNext | rpc/driver.go:355-387 | Every step keeps the invariant: no two calls in flight share an identifier, an entry under a call's identifier is its own, channels and records are accounted for |
| Calls.DeletesOwn | rpc/driver.go:375-386 | Though Delete goes by identifier, over every interleaving a SendCall that deletes changes no other call and no other entry, and its own record ends up recycled once |
| Calls.Conservation | rpc/util.go:126-199 | Over every interleaving a callback runs at most once and a record is recycled at most once, and exactly once when SendCall has returned |
| Calls.PendingExactly | rpc/util.go:98-199 | Over every interleaving a call is in the table exactly from its begin until its SendCall returns or a reply from its peer or a cancellation takes it |
| Calls.LeftOver | rpc/driver.go:355-387 | With no call in flight the table holds exactly the calls whose argument does not marshal, or that were given a nil context and have enqueued their message, and that no reply or cancellation has taken since |
| Calls.NothingLeft | rpc/driver.go:355-387 | If every argument marshals and no context is nil, the table is empty once no call is in flight |
| Calls.PanicLeaks | rpc/driver.go:355-364 | One call whose argument does not marshal leaves the table not empty with no call in flight |
| Calls.NilContextLeaks | rpc/driver.go:369-386 | So does one call with a nil context, although its argument marshals and is sent |
| Calls.CallbackNeverBlocks | rpc/driver.go:356-361 | A callback always finds its one-slot channel empty and not closed |
| Calls.Drains | rpc/driver.go:327-387 | After any run and whatever follows, once the driver's context is done a SendCall in flight has a step of its own enabled, and it takes at most three in all before it has returned |
| Calls.ClosedExactly | rpc/driver.go:309-313 | The driver's context is done exactly if the run closed it |
| Outcomes.StoppedExactly | rpc/driver.go:375-385 | Over every run SendCall returns ErrTransportClosed, or its own context's error, exactly if it stopped with that: the first only once the driver's context is done, the second only if it was given a context |
| Outcomes.CancelReaches | rpc/driver.go:301-303 | A cancellation's reason, SEND_ERR included, is the status that SendCall returns, unless a context ends first |
| Outcomes.NilMeansSuccess | rpc/driver.go:368-372 | If SendCall returned nil, some earlier step of the run matched an accepted SUCCESS reply with its identifier, from its peer, whose result unmarshals, while the call was pending |
| Outcomes.AnswerWasGiven | rpc/driver.go:355-387 | Over every run, whatever answer SendCall returns was given to the call while it was pending, by a reply with its identifier from its peer or by a cancellation with that status |
| Outcomes.GivenIsReturned | rpc/driver.go:355-387 | Over every run, once an answer has been given to a call its SendCall returns that answer, nil for a success, unless it gives up because a context is done |
| Wraps.DeletesAnothers | rpc/driver.go:381 | For any number of identifiers, a run beyond `Modest` in which lastXid comes around and a SendCall deletes the entry of another call in flight |
| Records.SplitIs | rpc/transport.go:140-155 | Send cuts a message into max(1, ceil(n/maxSegment)) fragments that make it up again, all but the last full and none empty unless the message is |
| Records.LastBit | rpc/transport.go:144-149 | The top bit of a fragment header's first octet is set exactly on the last fragment |
| Records.ReceiveStep | rpc/transport.go:172-197 | One turn of the loop takes exactly one fragment if its header comes in one read, it fits and it is all there, and otherwise fails |
| Records.Reassembles | rpc/transport.go:165-200 | For any legal fragmentation, empty fragments included, and any read chunking: the concatenation and what follows it, or failure; of a record that is all there, success if and only if it fits in MaxMsgSize and no header is split |
| Records.DeliversPrefix | rpc/transport.go:165-200 | Of any front part of a stream of records, in any chunks, the messages delivered are a prefix of those sent |
| Records.DeliversAll | rpc/transport.go:165-200 | Of a complete stream all messages are delivered if and only if no header is split and every message fits |
| Records.SentThenReceived | rpc/transport.go:133-200 | The prefix property for what Send itself emits |
| Transport.Frame | rpc/transport.go:139-155 | The gathered buffers are the record, with the last-fragment bit only on the final fragment |
| Transport.StreamTransport.Send | rpc/transport.go:133-163 | Writes the whole record, or a front part of it and then fails for good; nothing once failed |
| Transport.StreamTransport.Receive | rpc/transport.go:165-200 | Delivers exactly what the reassembly specification delivers, never holds more than MaxMsgSize octets, and fails for good otherwise |
| Latch.InvNext | rpc/transport.go:102-121 | Every atomic operation of any goroutine keeps the latch invariant |
| Latch.OneWay | rpc/transport.go:102-121 | The state only moves from 1 to -1 to 0, the error is written once and the connection closed once, both before anyone sees the failure |
| Latch.FirstFailWins | rpc/transport.go:102-108 | The error written is the one that the first fail of the run was given |
| Latch.OneError | rpc/transport.go:102-129 | What a goroutine reads after failed() is the error that every other one reads, at that time or later |
| Arenas.LastInFirstOut | xdr/arena.go:47-62 | The object recycled last is handed out next, and then the pool is as before |
| Arenas.Arena.Get | xdr/arena.go:32-52 | Pops the free list, or makes an object on a miss; one counter goes up |
| Arenas.Arena.Recycle | xdr/arena.go:54-63 | Appends one of the arena's own objects to the free list and ignores any other |
| Ownership.Balance | rpc/driver.go:430-496 | No step of receiver, handlers, callers or sender duplicates a message, nor loses one of the arena's |
| Ownership.LinearNext | rpc/driver.go:99-155 | Every step keeps each arena object in exactly one place |
| Ownership.AlwaysLinear | xdr/arena.go:32-63 | Over every interleaving the free list has no duplicates, is disjoint from messages in use, and Get never hands out one in use |
| Dispatch.Serial | rpc/driver.go:463-495 | Over every interleaving of Detach, returns and panics at most one undetached handler is between lock and unlock, and each unlocks at most once, exactly once by the time it has finished |
| Dispatch.Frees | rpc/driver.go:390-397 | A handler that detaches or finishes no longer holds the lock; if it held it the lock is free and any waiting handler can take it, and otherwise nothing happens to the lock |
| Dispatch.UnlocksOwn | rpc/driver.go:390-397 | A step that unlocks is taken by the handler that holds the lock |
| RpcMsg.MsgInBounds | rpc/rpc_msg.x:76-138 | Every header is a value in bounds of the declared type |
| RpcMsg.ToValueInjective | rpc/rpc_msg.x:130-138 | Different headers are different values |
| RpcMsg.HeaderRoundTrip | rpc/util.go:68-76 | GetMsg on a marshaled header followed by anything finds that header and leaves exactly what followed |
| RpcMsg.HeaderNeverCrashes | rpc/util.go:68-76 | GetMsg does not crash on a whole number of words |
| RpcMsg.HeaderCanonical | rpc/util.go:68-76 | Whatever GetMsg accepts is the encoding of a header and then exactly what remains |
| Layouts.HeaderLayout | rpc/rpc_msg.x:76-138 | Every header is on the wire, word by word, as RFC 5531 section 9 lays it out |
| Layouts.CallOctets | rpc/util.go:116-122 | The octets of a call, word by word, with RPC version 2 and no authentication |
| Layouts.ReplyOctets | rpc/util.go:226-266 | The octets of the server's reply to every call: the versions 2 and 2, the statuses 1 to 5 and 0, the least and greatest version and the result |
| Server.FindsLatest | rpc/util.go:208-218 | After any sequence of registrations a lookup finds the service registered last for the program and version, with its implementations, and nothing when none was |
| Server.ListsVersions | rpc/util.go:208-218 | A program's versions are exactly those registered for it |
| Server.MismatchExact | rpc/util.go:242-252 | A PROG_MISMATCH reply carries exactly the least and the greatest registered version |
| Server.RpcSrv.Register | rpc/util.go:208-218 | The nested maps afterwards, a program's first registration included |
| Server.RpcSrv.Versions | rpc/util.go:245-252 | Least and greatest for every order in which the map may be iterated |
| Server.RpcSrv.GetProc | rpc/util.go:226-266 | The decision is the one `Decides` requires on every branch, a refusal for an argument that fails with an XdrError and the end of the program for one that crashes among them; the procedure is the registered one of that number, and its argument is in a new variable |
| EndToEnd.Arrives | rpc/util.go:68-76 | The header received is the header sent, and the value after it is the value sent if and only if that was in bounds |
| EndToEnd.Served | rpc/driver.go:430-496 | Whatever reply the server sends to a call, it decided to run the registered procedure of that program, version and number on this argument, or to refuse as the registrations have it |
| EndToEnd.HearsResult | rpc/util.go:175-199 | From a SUCCESS reply the caller has the procedure's result if and only if that was in bounds |
| EndToEnd.HearsReply | rpc/util.go:175-199 | Identifier, status and result of any reply are as expected from the registrations and the procedure registered |
| EndToEnd.CallKills | rpc/driver.go:430-496 | A call with an argument in bounds, between agreeing sides, ends the server's program only if the procedure's result does not marshal |
| EndToEnd.CallCompletes | rpc/driver.go:355-496 | The whole trip over two faithful connections cut anywhere and read in any chunks, among any other messages: same XID, the registered procedure run on this argument, its result heard; over every run SendCall then returns, unless a context ends first, nil exactly for a success that unmarshals; and nothing at all happens if the reply's peer is not the call's |
| EndToEnd.NilMeansOctets | rpc/driver.go:368-372 | SendCall returned nil only if, while the call was pending, its peer sent the octets of an accepted SUCCESS header with its identifier, followed by a result that unmarshals |
| EndToEnd.AllArrive | rpc/transport.go:133-200 | Of a stream read to its end every message is received if and only if no header is split and no message is too long |
| RemoteCalls.Transit | rpc/transport.go:133-200 | On one direction of a connection Send and Receive pass a message on if and only if the connection takes its record, no header is split and it is not too long |
| RemoteCalls.GetMsg | rpc/util.go:68-76 | Reads exactly the header in front of the octets, fails exactly when there is none, and crashes exactly when `Decode` does |
| RemoteCalls.Request | rpc/driver.go:355-364 | The octets of a call are its header and its marshaled argument, with the entry registered; without octets, exactly if the argument does not marshal, the entry is registered all the same |
| RemoteCalls.Answer | rpc/driver.go:430-496 | doMsg at the server, procedure included, replies what the specification of the server allows, is silent only if that allows no reply, and ends the program exactly for the messages of `Kills` |
| RemoteCalls.Accept | rpc/driver.go:439-448 | doMsg at the client: a reply from the call's peer is matched, its result put in the caller's variable, and the table is that of the protocol's next state, or the program ends if the result crashes; from another peer it is dropped |
| RemoteCalls.Call | rpc/driver.go:355-496 | The caller's own objects, two transports, the server and the procedure in one: if the reply gets back, the caller's variable holds what the registered procedure made of the argument; otherwise a connection, the argument or the peer is at fault and the entry is still registered, or a program has ended, which does not happen between agreeing sides with everything in bounds |
| RemoteCalls.ShortArgumentKills | rpc/util.go:258-260 | Calls of a procedure on opaque[8] without octets and of one on a hyper with one word end the server's program |
| RemoteCalls.NoArgumentRefused | rpc/util.go:258-260 | The procedure on a hyper called without any octets answers GARBAGE_ARGS |
| RemoteCalls.UnmarshalableLeaks | rpc/driver.go:364 | A concrete argument that does not marshal, and the entry it leaves in the table with no call in flight |

## Left out

- The text the compiler emits, gofmt, flags and files; lexing and parsing. Emitted methods are modelled by what they do.
- `rpc/decode.go`, `cmd/gorpc`, `stat`, printing and scanning of values, logging, latencies and reports.
- `sync.Pool`, and the address arithmetic by which an arena recognises its objects: an object is its index.
- Sockets, goroutine scheduling and the context tree: streams of octets, steps in any order and a done flag.
- Floating-point meaning: float and double are bit patterns.
- What a crash of a program leaves behind for its other calls and goroutines: no step of Calls, Dispatch or Ownership is a crash, and neither is a panic of PanicHandle.
- That GetMsg's error closes the driver: doMsg at the server is silent then, and closing is a step of Calls of its own.
- Platforms on which int has 32 bits: int(length) is never negative here.
- Typedefs are written out, and an inline declaration is identified with its structure.
- What a failed unmarshaling leaves in its destination: only that it is still a tree of the type.
- Destinations that share variables. The source gives no promise for them.
- How much xdrReadN allocates before it finds the input too short or the bound exceeded.
- Readers that return less than was asked for: unmarshaling reads a bytes.Buffer, as the transport's messages are.
- InPlace.SetVecLen: moves element variables to the new backing array rather than copying their contents, because a Slot is a variable; Vectors has the copying.
- MarshalOut.Marshal: requires that the variable shows a value, which fails only for a union whose arm for zero leads back to the union and that has no body yet; marshaling that does not end in the source either.
- RpcMsg.HeaderRoundTrip: takes headers as values; that SetStat leaves the empty body of a SUCCESS header to be made on output does not show.
- Reads of the connection that return octets together with an error, and the size of io.CopyN's own buffer: a chunk is what one read can return at most.
- CallSets.CallSet.NewCall: requires fewer than 2^32 pending calls, because the source's loop does not end otherwise.
- Calls.Conservation: like every theorem over runs of Calls, rests on Calls.Modest, a bound on how many calls begin while one is in flight.
- Calls.Drains: gives an enabled step and a bound on their number, not that the scheduler takes them.
- Ownership.AlwaysLinear: lets a goroutine abandon a message at any time, not only when a context is done, which covers more runs than the source has.
- EndToEnd.CallCompletes: a procedure is a function of its argument; what else it does is not modelled.
- RemoteCalls.Call: carries out one call on two fresh connections; other traffic is in EndToEnd and other callers are in Calls. Its procedure reads its argument variable by marshaling it.
- Authentication: credentials and verifiers are carried and not interpreted, as in the source.
