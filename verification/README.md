# CDR, GIOP and the select loop, verified

This project models the marshalling and messaging engine of an IIOP implementation and proves what it
promises. `iiop/libgiop.cc` is the bulk of it: a coder that writes aligned data through a growing list of
small buffers and reads it back from one buffer in either byte order (CDR, section 12.3 of CORBA 2.0), an
engine that opens a message, lets the caller code a body, patches size, flags and response flag into what is
already coded and sends (GIOP, section 12.4 of CORBA 2.0), and automatic fragmentation (section 13.4 of
CORBA 2.2), in which the coder re-enters the engine in the middle of an item. Around it are the transport
loops, the server's reading of request headers, stringified object references (section 10.6.5 of CORBA 2.0)
and the descriptor set and select loop of the agent.

How it is built:

- `bytes.dfy`, `cdr.dfy`, `fragment.dfy` are the specification: pure functions for what a sequence of coding
  calls means as a stream, as messages sent and a message open. An octet of a stream is either data or
  padding, because the coder skips padding and never writes it.
- `reassembly.dfy` and `chain.dfy` prove what that specification is for: a receiver gets back exactly the
  items, and the messages follow the fragment protocol and the size limit.
- `giop.dfy` has the classes, in the source's own form: `Buffer`, `Coder` and `Engine`, whose methods
  change their fields and are proved to do what the specification says. `Coder.cells` and `Coder.starts` are
  ghost: the stream coded so far and where in it each buffer starts.
- `segments.dfy` is the octet loop on lengths alone: when its segments stay inside the buffers, and under which
  limits it ends.
- `session.dfy` puts calls together: a body of any length, any sequence of decoding calls, and `Run`, any
  sequence of engine, coding and decoding calls that are `Proper`: coding only while a message is open, octets only
  if that is safe, decoding only what has been received, and fragmentation only with a limit. `BufferRun` does the
  same for the buffer list. `endtoend.dfy` follows messages from engine to engine: any that one hands over is taken
  by the other, and a request is read as it was made.
- `transport.dfy`, `reader.dfy`, `ior.dfy`, `fdset.dfy`, `selecter.dfy` are the other parts.

`dafny verify dfyconfig.toml` checks the whole project.

What is assumed: `long` has four octets and `GIOP_NO_AUTOFRAG` is undefined. Every memory block starts at a
multiple of eight and is as long as was asked for, or longer by a multiple of eight that depends on what was
asked for only (`tcpagent/iiopagent.cc:51-80` guarantees both), so a position is its offset in the block. The
machine's byte order is a parameter: the encoder always writes in it (`iiop/libgiop.cc:3909`), and only the
decoder looks at `cdr_bytesex`. Positions are unbounded: a truncated string of two gigabytes or more moves the
source's 32-bit pointer by a negative `long`, which is the same modulo 2^32. Floats and doubles are bit
patterns. A `Reliable` allocator never refuses; the engine's contracts need one, because `giop_hdr_cr` ignores
every coding status. The transport's outcomes are parameters: `up` and its like of single calls, and `Engine.sends`,
which if true says that it takes every message; if not, any send may fail.

What the proofs found in the code, all stated as lemmas or in contracts:

- `iiop/libgiop.cc:4615` takes the whole buffer for free after `cdr_align` has just sent a fragment and left a
  header in it, and the next segment may run over the buffer's end: `OverrunRun` is such a run. `NoOverrun` proves
  exactly which calls stay inside, by lengths a caller can look up; the contracts ask octet sequences for that
  (`Coder.OctetsSafe`, `Session.BodySafe`) and nothing else for anything.
- `GIOPAutoFrag` with a size of zero leaves the coder's limit at zero (`iiop/libgiop.cc:717-728`). Then no header is
  ever complete, for one of two reasons (`NoHeaderAtZero`): the coder sends fragments from within headers without
  end (`HeaderNested`) or, before the first message, codes segments of no octets without end
  (`IdleLoopEnds`). Limits from 16 to 23 are accepted and overshot by every double (`DoubleFits`).
- `giop_auto_frag` leaves the state idle if the revision has no fragments (`iiop/libgiop.cc:1514-1522`).
- Once a request has been cut, the response flag given to `GIOPRequestSend` is lost (`iiop/libgiop.cc:1457-1460` says
  so): `SendRequest` proves exactly when it is the one the receiver finds.
- `iiop_send` does not notice a write that returns -1 (`iiop/libgiop.cc:5546`), and its total is unsigned
  (`iiop/libgiop.cc:5501`): it may report success without sending anything (`FailureUnseen`) and send buffers of
  earlier messages instead (`StaleSent`). `WholeExactly` says when the message goes out, `ReportExactly` when success
  is reported, and `FalseSuccess` when the one comes without the other.
- A reply of revision 1.0 that an engine of revision 1.1 cuts, or sends with the bit for more fragments, has flags
  that `iiop/libgiop.cc:1050` takes for a byte order: `Accepted` says exactly when its size is still read right, and
  `MisreadReply` is one for which it is not.
- A zero-length octet sequence at the end of a message fails to decode: `Cdr.RoundTrip` is an if-and-only-if.
- `ior_length` means to count seven octets more than it does (`iiop/libgiop.cc:3171`): `SizeBound` for what is
  meant, `AsWrittenBound` and `AsWrittenTooShort` for what is written. `Ior.ToString` takes either.
- `GIOPStopListen` is refused on an idle connection, the states being compared by number
  (`iiop/include/giop.h:137-145`).
- `interrupt()` is commented as resuming the loop; the `break` at `tcpagent/selecter.cc:98` leaves it.
- The kept copy of an object key has its last octet overwritten by a NUL (`iiop/reader.cc:529`); for an
  empty key the source writes before the copy, and the model keeps it empty.

## Model

| member | source | states |
|---|---|---|
| `Bytes.AnyOrderRoundTrip` | iiop/libgiop.cc:3899-3931 | an integer stored by a machine of one byte order and loaded by the decoder on a machine of any order, told the sender's order, is the same integer |
| `Bytes.DecodedIsOrderOfStream` | iiop/libgiop.cc:3911-3926 | what the decoder loads depends on the stream's byte order alone, not on the machine's own |
| `Bytes.SwapMacroReverses` | iiop/include/cdrP.h:30-50 | the swab-based swap macros reverse 2, 4 and 8 octets, as the element-wise loops do |
| `Bytes.BitTellsOrder` | iiop/include/cdr.h:38-43 | the byte order bit is 1 for least and 0 for most significant octet first: a stored 1 is 1, 0 on the one machine and 0, 1 on the other |
| `Bytes.StoredDigits` | iiop/libgiop.cc:3909-3931 | octet k of a stored integer, from the end its byte order starts with, is its digit k in base 256 |
| `Bytes.StoredWord` | iiop/libgiop.cc:1262-1279 | the four octets of a stored word, weighted 1, 256, 2^16 and 2^24 from the end the order names, make it up modulo 2^32 |
| `Bytes.WordDecoded` | iiop/libgiop.cc:3911-3926 | a decoder told 1 takes a word least significant octet first, told 0 the other way round, and told anything else in the order that is not the machine's |
| `Cdr.AlignDeltaAligns` | iiop/include/cdrP.h:55-56 | the alignment macro gives the one distance below the size that reaches a multiple of it, for any position |
| `Cdr.DecodeItem` | iiop/libgiop.cc:4414-4545 | at any offset and in any pair of byte orders one decoding call returns the item encoded there and stops right behind it |
| `Cdr.ItemSpelt` | iiop/libgiop.cc:4414-4545 | the encoding of an item octet by octet: padding up to its boundary, the digits of a datum, a string's length before its octets |
| `Cdr.CutIsRest` | iiop/libgiop.cc:4156-4197 | a string or octet sequence comes short exactly if fewer octets are there than announced, and then what is given is all the octets to the buffer's end |
| `Cdr.RoundTrip` | iiop/libgiop.cc:3781-4203 | any list of items encoded from any offset decodes to itself in all four pairs of byte orders exactly if the list does not close with a zero-length octet sequence |
| `Cdr.TrailingEmptyFails` | iiop/libgiop.cc:4500-4513 | a zero-length octet sequence at the very end of the buffer fails to decode |
| `Cdr.UsedUpStaysUsedUp` | iiop/libgiop.cc:4164-4197 | once the buffer is used up, as a truncated string leaves it, every later decoding call fails and changes nothing |
| `Cdr.InStepUnlessCut` | iiop/libgiop.cc:4500-4526 | for any buffer contents position and use agree after any run of decoding calls that met no truncated item |
| `Cdr.Realigned` | iiop/libgiop.cc:1109-1128 | a message body behind four dummy octets decodes, call by call and whatever its contents, as it does behind its twelve-octet header |
| `Cdr.EncAllShift` | iiop/include/cdrP.h:55-56 | an encoding depends on its offset modulo eight only |
| `Fragment.BackPatch` | iiop/libgiop.cc:1372-1400 | patching size or more-fragments bit into a coded message gives the one-pass encoding with the final values; the body is untouched |
| `Fragment.SealedHeader` | iiop/libgiop.cc:1503-1505 | the same for both patches together, as a fragment is sealed |
| `Fragment.HeaderSpelt` | iiop/libgiop.cc:1238-1279 | the twelve octets of a header: GIOP, version, flags, type, and the size modulo 2^32 as a word of the order given |
| `Fragment.SealSpelt` | iiop/libgiop.cc:1500-1505 | sealing sets the size to what follows the twelve octets and the bit of value two in the flags, and leaves every other octet and bit |
| `Fragment.MoreFragsSpelt` | iiop/include/giopP.h:26-30 | the more-fragments bit is the one of value two; setting it leaves the others |
| `Fragment.MessageTypes` | iiop/include/giop.h:151-162 | the eight types are numbered 0 to 7 |
| `Fragment.StaysExactly` | iiop/libgiop.cc:4454-4475 | an item is coded in the open message if and only if it fits there with its padding, a string with its length alone, octets all of them and at least one |
| `Fragment.CutFull` | iiop/libgiop.cc:4626-4668 | octets are cut if and only if they do not fit; then every message they leave is as long as the limit, and the last of them are in the one left open |
| `Fragment.PutAllFlat` | iiop/libgiop.cc:4414-4545 | with fragmentation off any sequence of coding calls appends exactly the flat encoding |
| `Fragment.PutBytesSegment` | iiop/libgiop.cc:4603-4680 | how octets are chunked into segments makes no difference as long as no chunk crosses the limit |
| `Fragment.PutBytesCut` | iiop/libgiop.cc:4626-4668 | a segment that fills the message with more to come is a cut: sealed message, new Fragment, the rest behind its header |
| `Reassembly.Conservation` | iiop/libgiop.cc:1472-1532 | for any items, any open message and any legal fragment size, reading the messages in order, each behind its own header and continuing cut octets in the next, gives back exactly those items, on a machine of either order |
| `Reassembly.ReadBytes` | iiop/libgiop.cc:4603-4680 | octets cut over any number of messages are read back whole |
| `Reassembly.PutAllContinues` | iiop/libgiop.cc:1500-1529 | whatever is coded on, messages already sent and the body already coded are kept |
| `Reassembly.PutAllUncut` | iiop/libgiop.cc:4454-4475 | items that caused no fragment lie behind the open message as the flat encoding has them, and only lengths decide that |
| `Chain.WellFormedCarried` | iiop/libgiop.cc:1262-1279 | octets that carry a well-formed message start with GIOP, carry its version, flags and type, and name their own length, modulo 2^32, by the weights of the sender's order |
| `Chain.SealedIsWellFormed` | iiop/libgiop.cc:1500-1505 | a sealed message is well formed, promises more and keeps its type |
| `Chain.CompletedSpelt` | iiop/libgiop.cc:847-857 | a message completed, octet by octet: the bit for more fragments as asked, the size of what follows, and all else as coded |
| `Chain.FragmentChain` | iiop/libgiop.cc:1472-1532 | for any items behind any open message every message sent on the way is well formed and promises more, every later one is a Fragment, and so is the one left open |
| `Chain.DoubleFits` | iiop/libgiop.cc:730-742 | with the smallest sizes allowed a double overshoots the limit: it keeps to it exactly if the limit is at least 24 |
| `Chain.SizeLimit` | iiop/libgiop.cc:4587-4598 | given room for a double only a string takes a message over the limit, and then only by the string's own octets, its length prefix staying in the same message |
| `Chain.SizeLimitAll` | iiop/libgiop.cc:4454-4475 | over any sequence of items and given room for a double, every message sent and the one left open is within the limit or closes with the octets of a string that took it over, and is within the limit without them; only a message over the limit from before stays as it was |
| `Segments.NoOverrun` | iiop/libgiop.cc:4603-4680 | for every open message, number of octets, lengths of buffers and limit, all segments of a coding call stay inside their buffers if and only if the first buffer takes a whole message, or no buffer ends at the limit, or what the open message cannot take fits behind the header of the next |
| `Segments.FitsExactly` | iiop/libgiop.cc:4603-4680 | the same in the middle of the loop |
| `Segments.OverrunRun` | iiop/libgiop.cc:4615 | the run that goes wrong, step by step: buffers of 512, a limit of 1024, 1612 octets behind a fresh header; 1512 octets stay inside, and so do 4000 under a limit of 1000 |
| `Segments.SafeAlways` | iiop/libgiop.cc:4610-4615 | where no buffer ends at the limit, or the first takes a whole message, every call is safe |
| `Segments.HeaderEnters` | iiop/libgiop.cc:1220-1291 | coding a header sends a fragment, and so codes another header, if and only if the limit is below the size of a header |
| `Segments.HeaderItemsEncode` | iiop/libgiop.cc:1238-1279 | the six coding calls meant there code exactly the header |
| `Segments.CodedItems` | iiop/libgiop.cc:4454-4475 | coding items up to the first that has a fragment sent leaves the flat encoding of all of them, or what is coded within the limit |
| `Segments.HeaderNested` | iiop/libgiop.cc:1472-1532 | a fragment header coded in an emptied coder, each fragment sent from within starting another: complete at once and nothing sent, if the limit is not below its size; else never, with one message shorter than a header sent for every start |
| `Segments.LoopEnds` | iiop/libgiop.cc:4603-4680 | behind a fragment header the segment loop codes all octets in some number of rounds if and only if the limit is beyond the size of the header |
| `Segments.IdleLoopEnds` | iiop/libgiop.cc:1489-1496 | while no type of message is known, when a fragment asked for is none and counts as sent, the loop ends if and only if all octets fit the message |
| `Segments.NoHeaderAtZero` | iiop/libgiop.cc:717-728 | with the limit left at zero neither a first header, coded by an idle engine, nor a later one is ever complete |
| `Giop.SpillFills` | iiop/libgiop.cc:4497-4519 | where aligned data does not fit a buffer of a multiple of eight octets its padding reaches exactly to the buffer's end |
| `Giop.BaseAligns` | iiop/libgiop.cc:4433-4436 | offsets in a buffer that starts at a multiple of eight align as offsets in the whole stream |
| `Giop.FlatPatched` | iiop/libgiop.cc:1372-1400 | overwriting octets in one buffer overwrites them at the corresponding place of the stream and nowhere else |
| `Giop.OctsMatch` | iiop/libgiop.cc:4305-4322 | the used octets of the buffers, one after the other, carry the stream in them |
| `Giop.CodeSegment` | iiop/libgiop.cc:4617-4668 | coding one segment, with or without a fragment behind it, leaves what is still to come of the octets the same |
| `Giop.Coder.constructor` | iiop/libgiop.cc:3327-3357 | a new coder has no buffers and an empty stream, and asks for buffers of at least eight octets |
| `Giop.Coder.Reset` | iiop/libgiop.cc:3445-3463 | the current buffer is empty, the length reduced by its use only if it was counted; fails without a buffer |
| `Giop.Coder.Rewind` | iiop/libgiop.cc:3480-3497 | coding starts over in the first buffer; the length is kept or cleared as asked |
| `Giop.Coder.AddBuffer` | iiop/libgiop.cc:3613-3709 | the new buffer, an allocated one or one given, is linked in behind the current one, between it and those that follow, and empty; one given to an encoder loses its length modulo eight and is refused below eight octets; the stream goes on in it; the ledger of buffers stays exact; failure changes nothing |
| `Giop.Coder.NeedBuffer` | iiop/libgiop.cc:3536-3608 | exactly the leading buffers that are too short are given back, the first long enough becomes the list's head and is empty, or a new one of the length asked for; without a way to give back it fails if and only if the first is too short, and the list is cut and the rest lost |
| `Giop.Coder.Free` | iiop/libgiop.cc:3373-3402 | with a callback every buffer ever granted has been returned, each exactly once; without one nothing changes |
| `Giop.Coder.MakeRoom` | iiop/libgiop.cc:4477-4539 | padding is skipped, the old buffer is padded to its end on a spill, the datum's place is set aside in one buffer, and the stream grows by padding and place only |
| `Giop.Coder.AlignEncode` | iiop/libgiop.cc:4414-4545 | a fragment is sent first exactly if padding and datum would pass the limit; then the stream is the specification's; recursion through the engine happens at most once |
| `Giop.Coder.EncodeScalar` | iiop/libgiop.cc:3855-4034 | octet, short, long, float and double encode as the specification says, over any number of buffers; a fitting datum needs no new buffer |
| `Giop.Coder.EncodeStr` | iiop/libgiop.cc:4037-4135 | length prefix and octets go in one message whatever their size; null strings are a zero length |
| `Giop.Coder.EncodeOctets` | iiop/libgiop.cc:3781-3846 | N octets encode as the specification cuts them over messages, for every call that is safe |
| `Giop.Coder.WriteAll` | iiop/libgiop.cc:4603-4680 | the segment loop codes all octets and ends, on the measure of what remains and whether the message is full |
| `Giop.Coder.EncodeNBytes` | iiop/libgiop.cc:4550-4690 | a string's octets are never cut, the engine being forgotten and restored around them; others are cut at the limit |
| `Giop.Coder.ActiveMatches` | iiop/libgiop.cc:3651-3701 | the used octets from the first to the current buffer carry exactly the stream coded and sum to the coder's length |
| `Giop.Coder.SafeExactly` | iiop/libgiop.cc:4610-4615 | of the coder as it is, the segments of a call stay inside its buffers if and only if the call is safe by the length coded, the length of the first buffer, that of a new one, and the limit |
| `Giop.Coder.Poke` | iiop/libgiop.cc:1372-1400 | overwriting through a pointer overwrites the stream where the pointer leads, whichever buffer that is, and nothing else |
| `Giop.Coder.DecodeScalar` | iiop/libgiop.cc:3855-4034 | refines the pure decoder: reply, position and use, for any contents |
| `Giop.Coder.DecodeStr` | iiop/libgiop.cc:4117-4203 | the same for strings, including zero and truncated lengths; of a truncated one exactly the octets to the buffer's end |
| `Giop.Coder.DecodeOctets` | iiop/libgiop.cc:3788-3824 | the same for N octets |
| `Giop.Coder.EncapCreate` | iiop/libgiop.cc:4225-4247 | an encapsulation starts with the octet naming its byte order, also in a coder an engine uses |
| `Giop.Coder.EncapEnd` | iiop/libgiop.cc:4263-4325 | the copy is exactly the active buffers' octets, whatever lies in buffers behind them |
| `Giop.Coder.EncapInit` | iiop/libgiop.cc:4344-4390 | status for each argument; encoding starts with an empty stream, decoding behind the octet that names the byte order |
| `Giop.Engine.constructor` | iiop/libgiop.cc:536-587 | an initialised engine keeps every invariant and has sent nothing |
| `Giop.Engine.HdrCr` | iiop/libgiop.cc:1220-1291 | the open stream is the twelve octets of a header: GIOP, the version asked for, 1 or 0 for the machine's byte order, the type, size zero; the saved pointers lead to its flags and its size even when the header lies in two buffers |
| `Giop.Engine.SetMsgSz` | iiop/libgiop.cc:1372-1379 | exactly the four size octets of the stream change |
| `Giop.Engine.SetFrags` | iiop/libgiop.cc:1384-1400 | exactly the flags octet changes, by its more-fragments bit (the bit of value two, by MoreFragsSpelt and NoMoreFragsSpelt) |
| `Giop.NoMoreFragsSpelt` | iiop/include/giopP.h:26-30 | clearing the more-fragments bit clears the one of value two and leaves the others |
| `Giop.FragmentableTypes` | iiop/libgiop.cc:1487-1494 | all types are cut but cancel requests, closing and error messages and, before there is a message, none |
| `Giop.Engine.SetNoResp` | iiop/libgiop.cc:1357-1367 | exactly the response flag changes: to 0 for no response and to 1 for a response |
| `Giop.Engine.SizeOpen` | iiop/libgiop.cc:847-848 | the size patched is the length behind the header |
| `Giop.Engine.AutoFrag` | iiop/libgiop.cc:1472-1532 | the open message is sent sealed and coding goes on in a Fragment with every setting and the interrupted state as they were; a send that failed, which only a transport that may fail does, leaves the sealed message and the state; refused exactly for a revision before 1.1, which leaves the state idle |
| `Giop.Engine.FragCreate` | iiop/libgiop.cc:777-802 | status for each revision and state; a Fragment header is open |
| `Giop.Engine.FragSend` | iiop/libgiop.cc:819-857 | only out of its state; the message handed over is the open one with its final flags and size; it succeeds unless the transport fails |
| `Giop.Engine.ServCxt` | iiop/libgiop.cc:1304-1343 | the items coded are the number of service contexts and of each, in order, its id, its length and its data |
| `Giop.RequestAt` | iiop/libgiop.cc:2097-2163 | the items of a request header by their places: contexts, id, flag 0 or 1, reserved octets if any, key length, key, operation, principal length, principal |
| `Giop.Engine.RequestCreate` | iiop/libgiop.cc:2022-2177 | status for each agent and state; the whole request header is coded uncut whatever the limit, and a Fragment opened at once if it passed it; the pointer leads to the response flag; fragmentation settings restored |
| `Giop.Engine.RequestSend` | iiop/libgiop.cc:2180-2261 | the message handed over has its final response flag, 0 for no response and 1 for one, its final bit and size, or is the last fragment if the request has gone out already; it succeeds unless the transport fails |
| `Giop.Engine.ReplyCreate` | iiop/libgiop.cc:1831-1926 | the same for replies, of the version the caller names |
| `Giop.Engine.ReplySend` | iiop/libgiop.cc:1929-1987 | the message handed over has its final bit and size; it succeeds unless the transport fails |
| `Giop.Engine.LocateReplyCreate` | iiop/libgiop.cc:1563-1608 | the header is coded as the specification cuts it, unless a fragment failed, which takes a transport that fails or a revision without; the state moves on in any case |
| `Giop.Engine.LocateReplySend` | iiop/libgiop.cc:1611-1651 | the open message goes out with its final size |
| `Giop.Engine.LocateRequestSend` | iiop/libgiop.cc:1686-1746 | request id counted on modulo 2^32; id and key go out as the specification cuts them, unless a fragment failed, which takes a transport that fails or a revision without; the key has to be safe behind twenty octets |
| `Giop.Engine.CancelRequestSend` | iiop/libgiop.cc:2264-2305 | the message is a header of size four and the id, never cut |
| `Giop.Engine.MessageErrorSend` | iiop/libgiop.cc:1145-1175 | the message is a bare header of size zero |
| `Giop.Engine.CloseConnectionSend` | iiop/libgiop.cc:361-405 | a server sends a bare header first; the state goes back if and only if the transport takes it and closes |
| `Giop.Engine.SetAutoFrag` | iiop/libgiop.cc:698-743 | status for each revision and size; the engine is fit to code on if and only if fragmentation ends up off or the limit is at least 16; what happens otherwise is Segments.NoHeaderAtZero |
| `Giop.Engine.Code` | iiop/libgiop.cc:4414-4690 | one coding call of the application in an open message: specification, header and state kept; a call that needs no fragment does not fail, and one that fails does so because the fragment was not sent or the revision has none; octets have to be safe |
| `Giop.Engine.Connect` | iiop/libgiop.cc:39-117 | out of the initial state or after a transport failure; idle, with the key of the profile and the revision settled, exactly if the transport connects |
| `Giop.Engine.Listen` | iiop/libgiop.cc:134-206 | for a server in the initial state only, open exactly if the transport listens; refused otherwise with nothing changed |
| `Giop.Engine.Accept` | iiop/libgiop.cc:263-303 | the same for a server that listens |
| `Giop.Engine.StopListen` | iiop/libgiop.cc:217-245 | refused in the idle state, since the states are compared by number; else the state goes idle if the transport stops |
| `Giop.Engine.PcSend` | iiop/libgiop.cc:1164-1170 | what is handed over is the active buffers' octets, and only a well-formed message of a type allowed, with nothing behind the header of a closing or an error message; it fails only if the transport may |
| `Giop.Engine.PcRecv` | iiop/libgiop.cc:5573-5683 | on success the next n octets stand behind those received before; it fails only if the transport does, the buffer has no room for them or the peer has not sent them |
| `Giop.Engine.ReadFields` | iiop/libgiop.cc:1009-1088 | version, byte order, type and size are what the eight octets say, each rejection in its order; a client takes on revision 1.0 from its server |
| `Giop.Engine.HeaderSaid` | iiop/libgiop.cc:990-1088 | what is refused for its header, and type and size of what is not, in terms of the twelve octets: GIOP, 1, at most 1, flags, at most 7 and 7 only where the revision in use has it, the size in the order the flags name |
| `Giop.Engine.GetNextMsg` | iiop/libgiop.cc:922-1132 | unless the transport fails the octets the peer has sent settle the status, type and size, by the predicate Answers on single octets; lack of a buffer has its exact condition on the length of the first one; on success header and body are the next octets of the peer's stream, the body in the coder behind four dummies in the byte order the header names, and nothing beyond the message is consumed |
| `Session.CodeAll` | iiop/libgiop.cc:4414-4690 | any sequence of coding calls that all succeed leaves messages sent and message open as the specification has them; they succeed if no item has a fragment sent, and fail only for a fragment not sent, by a transport that may fail, or a revision without |
| `Session.EntersExactly` | iiop/libgiop.cc:4454-4475 | an item is cut or moved to the next message if and only if coding it has a fragment sent, which lengths decide; else it lies behind the message as encoded |
| `Session.FirstMessage` | iiop/libgiop.cc:1472-1532 | the message a body was begun in is whole with all of the body if no item has a fragment sent, and is sealed behind the first of it otherwise |
| `Session.BodySafeAlways` | iiop/libgiop.cc:4610-4615 | a body without octets to be cut is always safe, and any body is where no buffer ends at the limit or the first takes a whole message |
| `Session.FinishRequest` | iiop/libgiop.cc:2180-2261 | a body of any items coded after a request was created, and sent, is read back by the receiver item by item from the messages handed over; all but the last promise more and all but the first are Fragments; given room for a double only a string takes one over the limit, and closes it; also if the response flag is patched late; it fails only for a fragment not sent or a revision without |
| `Session.FinishReply` | iiop/libgiop.cc:1929-1987 | the same for replies |
| `Session.CoderRoundTrip` | iiop/libgiop.cc:3781-4203 | what a coder wrote through any number of buffers is decoded from their joined octets, exactly unless it closes with no octets |
| `Session.DecodeCalls` | iiop/libgiop.cc:3781-4203 | any sequence of decoding calls on a coder gives the specification's replies and cursor |
| `Session.NextBody` | iiop/libgiop.cc:1109-1128 | decoding from the reused buffer gives, call by call, what decoding the whole message would |
| `Session.PatchedFlow` | iiop/libgiop.cc:2213-2221 | overwriting octets of an uncut message changes nothing in what is coded behind them |
| `Session.ChainDelivered` | iiop/libgiop.cc:1500-1529 | the messages of one exchange link up: more promised in all but the last, Fragments all but the first |
| `Session.Step` | iiop/libgiop.cc:698-2305 | every call, with any arguments and any outcome of the transport, coding and decoding calls included, keeps the invariant of the engine and only adds messages; coding calls ask for an open message, octets for being safe, decoding calls for something received, and fragmentation for a limit |
| `Session.BufferRun` | iiop/libgiop.cc:3373-3709 | with both callbacks registered, over every run of adding, needing, resetting, rewinding and freeing buffers, whatever the callback grants or refuses, every buffer granted is in the list once or has been returned, never both, and what was returned stays so; freeing returns all |
| `Session.Run` | iiop/libgiop.cc:391-398 | over every run of such calls, in any order, each message handed to the transport starts with GIOP, has a flag bit 0 that is 1 exactly if its size field, which names its length modulo 2^32, is least significant octet first, is of a type its agent may send, a Fragment of no revision before 1.1, and a bare header if it closes or reports an error |
| `Transport.IiopSend` | iiop/libgiop.cc:5492-5569 | what is emitted and reported is the function Sent of the buffers and the outcomes of the writes, with the total an unsigned number of 32 bits |
| `Transport.CompleteSends` | iiop/libgiop.cc:5524-5566 | if every write takes all its octets exactly the active buffers go out, nothing of stale ones, and success is reported |
| `Transport.SendsActive` | iiop/libgiop.cc:5518-5566 | so an engine's message goes out as it was handed over |
| `Transport.WholeExactly` | iiop/libgiop.cc:5524-5566 | exactly the message goes out, whatever is in the buffers, if and only if every write takes all its octets |
| `Transport.ActiveIsMessage` | iiop/libgiop.cc:5524-5566 | what a coder holds is a message in the sense of that theorem, in all its active buffers or, if the current one is still empty, in those before it |
| `Transport.ReportExactly` | iiop/libgiop.cc:5546-5566 | success is reported if and only if no write made is short, with what the loop takes to be owed after each spelt out |
| `Transport.FalseSuccess` | iiop/libgiop.cc:5546-5549 | success is reported for a message that did not go out whole if and only if no write made is short and one of them failed outright |
| `Transport.FailureUnseen` | iiop/libgiop.cc:5546-5547 | a write returning -1 is not noticed: nothing emitted, success reported |
| `Transport.StaleSent` | iiop/libgiop.cc:5549-5566 | a stale buffer longer than what is owed takes the unsigned total below zero: of three buffers the first is the message and the other two go out |
| `Transport.IiopRecv` | iiop/libgiop.cc:5573-5688 | exactly the next n octets in place and the length grown by n, for every split into short and interrupted reads; the status is success if they arrive, IIOP_EZERO_READ if the peer closes before, and IIOP_ERROR if a read breaks before |
| `Transport.FirstRead` | iiop/libgiop.cc:5625-5688 | a broken read is an error, one that brings nothing is the peer's closing, and one that brings all is enough |
| `Transport.InterruptionsSkipped` | iiop/libgiop.cc:5629-5648 | interrupted reads make no difference to the outcome |
| `Transport.EnoughReads` | iiop/libgiop.cc:5625-5683 | n reads that each bring something bring the n octets, if they are on their way |
| `Reader.MakeHeader` | iiop/reader.cc:477-640 | the header found is the function Parse of the octets, whatever they are; an error exactly for a message of no request type and for a request whose count of service contexts is not zero |
| `Reader.WhatIsRefused` | iiop/reader.cc:489-500 | a request is refused if and only if the four octets of its context count are not all zero, and any message of a type other than 0, 2 and 3 is |
| `Reader.WhatFails` | iiop/reader.cc:477-552 | a field that is not there is zero or empty; of a text or sequence that comes short there is what the buffer has left |
| `Reader.TerminatedAt` | iiop/reader.cc:521-530 | the kept copy of a key is as long as the key, ends in a NUL and has the key's other octets |
| `Reader.ContextsRead` | iiop/libgiop.cc:1304-1343 | decoding a request header of any service contexts gives back how many they are, of each its id, length and data, then the request id and 0 or 1 for the flag |
| `Reader.RequestParsed` | iiop/reader.cc:489-552 | a request header as written is read back: id, response flag, key, operation, principal, on a machine of either order |
| `Reader.LocateParsed` | iiop/reader.cc:554-584 | the same for a locate request |
| `Reader.CancelParsed` | iiop/reader.cc:586-600 | the same for a cancel request |
| `Reader.ReservedIsPadding` | iiop/libgiop.cc:2105-2125 | the three reserved octets of revision 1.1 stand exactly where revision 1.0 has alignment padding; all else is the same |
| `Reader.HeadEnds` | iiop/libgiop.cc:2097-2114 | the response flag is one octet past a multiple of four, whatever service contexts come before |
| `Reader.AsOldRevision` | iiop/libgiop.cc:2105-2125 | octets that carry a request header of revision 1.1 carry it as one of revision 1.0 |
| `Reader.RequestEndToEnd` | iiop/reader.cc:489-552 | a request of either revision with any body, received behind four dummies, is read as it was written |
| `EndToEnd.ResponsePatched` | iiop/libgiop.cc:2113-2114 | settling the response flag late gives the header coded with the final flag from the start, nothing else changed |
| `EndToEnd.FinalHeader` | iiop/libgiop.cc:2213-2242 | the completed message is its header with the final values and the rest as coded |
| `EndToEnd.SealedRequest` | iiop/libgiop.cc:1500-1505 | the sealed first message of a cut request is its header with the final values, its flag as first given, and the body coded so far |
| `EndToEnd.FlagSent` | iiop/libgiop.cc:2113-2114 | without service contexts octet 20 of the message is 1 if and only if a response is expected and 0 if and only if none is |
| `EndToEnd.Create` | iiop/libgiop.cc:2022-2177 | what GIOPRequestCreate leaves, told from before the call: the header open, or sent on its own if it passes the limit |
| `EndToEnd.SendRequest` | iiop/libgiop.cc:2022-2261 | create, code a body, send, with or without automatic fragmentation: the first message handed over equals the one-pass encoding of the request with all final values and as much of the body, all of it if the request is not cut; the body is read back from it and those that follow; octet 20 is 0 or 1 as the flag given to GIOPRequestSend says if the request is not cut, and as that of GIOPRequestCreate says if it is; it is cut if and only if header or items pass the limit, by lengths a caller can tell; it fails only if cut, and only for a fragment not sent by a transport that may fail, or a revision without |
| `EndToEnd.FlagsNameOrder` | iiop/libgiop.cc:1042-1070 | bit 0 of a message's flags, whatever its revision, and also with the more-fragments bit, is 1 if and only if its sender is least significant octet first, and that is the order the receiver takes |
| `EndToEnd.NextMessage` | iiop/libgiop.cc:922-1132 | a message of revision 1.0 or 1.1, of a type from 0 to 7, 7 only where the revision in use has it, of its true size in the order the flags name, and bare if it is of type 5 or 6, is taken with its type, size and body, unless the transport fails |
| `EndToEnd.Accepted` | iiop/libgiop.cc:1026-1128 | every message an engine has handed over is taken by a peer of the same revision; the one exception, a cut reply of revision 1.0 from an engine of a later one, has its exact condition: its size is taken for the true one if and only if the peer is of the other byte order or the size reads the same both ways |
| `EndToEnd.MisreadReply` | iiop/libgiop.cc:1044-1050 | such a reply of four octets is well formed and taken for one of 2^26 |
| `EndToEnd.ReadRequest` | iiop/libgiop.cc:922-1132 | getting that message off whatever the peer has sent and reading its header, on a machine of either order, succeeds unless the transport fails and gives the id, 0 or 1 for no response or one, key, operation and principal that were sent, and consumes nothing behind it |
| `Ior.UnhexHex` | iiop/libgiop.cc:2826-2832 | the nibble loop undoes the expansion, and no digit is a NUL |
| `Ior.DigitTable` | iiop/libgiop.cc:2983-3021 | the digit written for a value is that of 0123456789abcdef; what is read of a digit of either case is its value |
| `Ior.OtherIsZero` | iiop/libgiop.cc:3005-3006 | whatever is no digit is read as zero |
| `Ior.UnhexSpelt` | iiop/libgiop.cc:2826-2832 | any string of digits, in letters of either case, that spells some octets is read as those |
| `Ior.ToAscii` | iiop/libgiop.cc:3202-3225 | the backward loop leaves digits that spell the original octets, each from 48 to 57 or 97 to 102, and a terminator, all around them untouched |
| `Ior.FromHex` | iiop/libgiop.cc:2824-2832 | the octets are those the digits spell, in letters of either case |
| `Ior.BehindPrefix` | iiop/libgiop.cc:2635-2650 | the four-octet prefix shifts no alignment in a reference |
| `Ior.ItemsAt` | iiop/libgiop.cc:2652-2685 | the items of an encapsulation by their places: order octet 0 or 1, type id, number of profiles, and tag, length and data of each |
| `Ior.SizeBound` | iiop/libgiop.cc:3160-3193 | the length its comments mean is at least the coded length if and only if there is a profile or the type id does not need all three octets of padding |
| `Ior.AsWrittenBound` | iiop/libgiop.cc:3171 | the length as the conditional is written is enough if and only if five octets, the padding of the type id and that of every profile but the last are no more than three octets for each profile |
| `Ior.AsWrittenTooShort` | iiop/libgiop.cc:3171 | it never is for a reference with one profile |
| `Ior.ToString` | iiop/libgiop.cc:2587-2738 | I, O, R, colon, the lower-case digits that spell an encapsulation of the reference, terminator, inside the block, for whatever length ior_length gives, if that is enough |
| `Ior.FromString` | iiop/libgiop.cc:2762-2938 | refused exactly if it does not start with I, O, R, colon; else the reference is what the octets say that the digits, in letters of either case, spell |
| `Ior.ReferenceRead` | iiop/libgiop.cc:2834-2928 | the octets of a reference's encapsulation say that reference on a machine of either order |
| `Ior.ReadAny` | iiop/libgiop.cc:2762-2938 | a string any machine of either order has made of a reference, in digits of either case, is read as that reference |
| `Ior.RoundTrip` | iiop/libgiop.cc:2587-2938 | any reference made a string and read again, in the same or the other byte order, comes back, whenever the length computed is enough |
| `Descriptors.AscendingExact` | common/fdset.cc:31-48 | the list iterated over has every set descriptor, nothing else, in ascending order and so each once |
| `Descriptors.FdSet.Iterate` | common/fdset.cc:31-48 | the next of that list, or -1 behind the last with the iterator back at the start |
| `Descriptors.FdSet.Drain` | common/fdset.cc:31-48 | iterating from the start yields that list |
| `Descriptors.FdSet.Set` | common/fdset.cc:100-106 | one more member; the maximum stays an upper bound |
| `Descriptors.FdSet.Clear` | common/fdset.cc:65-69 | one member less |
| `Descriptors.FdSet.Zero` | common/fdset.cc:87-92 | no member, no bound and the iterator at the start |
| `Descriptors.FdSet.MaxFd` | common/fdset.cc:113-117 | an upper bound of the members |
| `Descriptors.FdSet.Assign` | common/fdset.cc:126-132 | the same members and bound, the iterator at the start |
| `Selecter.Loop.Dispatch` | tcpagent/selecter.cc:127-157 | each ready descriptor but the notifier is called back once, in ascending order; those whose callback fails are dropped |
| `Selecter.Loop.Round` | tcpagent/selecter.cc:83-159 | if a callback is registered and the round has not read Interrupt or Exit, a descriptor is called back exactly if it was watched, is ready and is not the notifier; else none is; the watched set then has what the word added and lacks what it removed and what failed |
| `Selecter.Loop.SelectThread` | tcpagent/selecter.cc:48-175 | over any run every call of select that was not interrupted is such a round, up to the first that ends the loop, with the sets watched before each and at the end given; and all is as the function Outcome has it |
| `Selecter.RunRounds` | tcpagent/selecter.cc:48-175 | the function Outcome, round by round, in terms of single descriptors |
| `Selecter.AfterExact` | tcpagent/selecter.cc:100-152 | what is watched after a round: what its word added and did not fail, or what was watched and neither removed nor failed |
| `Selecter.WatchedStays` | tcpagent/selecter.cc:100-152 | over a whole run a descriptor stays watched unless a word removes it or its callback fails; the notifier unless a word removes it |
| `Selecter.WatchedWasAdded` | tcpagent/selecter.cc:100-106 | whatever is watched at the end was watched at the start or added by a word |
| `Selecter.ListedOnce` | common/fdset.cc:31-48 | the list dispatched over has each member but the notifier exactly once |

## Left out

- Socket setup and teardown, host lookup, errno mapping (`iiop/libgiop.cc:5132-5490`, `5696-6052`): foreign calls; connecting, accepting and closing have their outcomes as parameters.
- The profile loop of `giop_connect_any`, the look-up of the tag in `GIOPListen` and `IOREncapIIOP`: two linear searches and a fixed list of coding calls, which the general theorems cover.
- `tcp_nbytes`: it also counts failed reads.
- `cdrb_prev_p` and `mi_is_frag` of replies and of incoming 1.0 messages: kept by the source without being maintained.
- Null-pointer arguments, tracing, code under `#if 0` and the test driver; so a null C string given to the string coder is not covered, a null IDL string is (its octets are empty).
- `iiop/reader.cc` beyond `IT_IIOP_make_header`, `tcpagent/iiopagent.cc`, `tcpagent/detector.cc`, `registry`: handle caches, queues and object glue.
- Threads and semaphores of the selecter: a run is a sequence of outcomes of `select`, each with the control word to be read and the callbacks that will fail.
- Session.Run: calls that are not `Proper` are passed over: octets that are not safe, a locate request whose key is not, fragmentation turned on with the limit at zero, decoding in a coder not set to decode, and coding while no message is open; there a fragment would go out without a header, as after a GIOPGetNextMsg whose first read failed with the coder rewound and still encoding. Direct `CDR` calls that reposition the coder are not among the calls.
- Octets of a decoding call that failed: the source leaves its out-parameters as they were, the reader's model gives zero or nothing.
- Giop.Engine.PcSend: unless `sends` the transport's outcome is arbitrary; that the loop of `iiop_send` emits what is handed over is `Transport.SendsActive`.
- Giop.Engine.PcRecv: octets a failed receive left behind the counted ones in the buffer are not modelled, since nothing reads them.
- Giop.Engine.RequestCreate: GIOP_ENOSPACE is not modelled, since with an allocator that never refuses no coding call of the header fails.
- Giop.Coder.EncodeOctets: asks `Coder.OctetsSafe` where octets have to be cut, since the source writes over its buffer's end otherwise (line 4615 above).
- Giop.Coder.NeedBuffer: asks, without a way to give buffers back, that the coder has been rewound, as its one caller does; else the source's current buffer would no longer be in the list.
- Giop.Coder.Spill: a retry after a failed allocation pads the buffer a second time; the contracts say nothing of the stream after a failure.
- Ior.FromString: requires one digit pair behind the prefix, because the source goes on with an uninitialised coder otherwise; a type id with an inner NUL is kept whole, where the source allocates less than it copies.
- Ior.ToString: requires the length computed to be enough, since the source expands over the end of its block otherwise; `AsWrittenBound` says when it is.
- EndToEnd.ReadRequest: a message of 4 GB or more is left out, since its size field wraps; so is one the receiver has no buffer for, that is, one longer than its first buffer when it has no leave to free that. `Giop.Engine.GetNextMsg` says what becomes of both.
