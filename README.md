# wsmessages: length-prefixed message frames, in Dafny

This project models `wsmessages.hpp`, the message-framing header of a
WebSocket-style transport. It has two classes:

- `WSMessage` holds one frame as a byte vector. The layout is
  `[4-byte big-endian body length][body]`, with no transport padding. The
  length field is written once by the constructor. `GetBodySize` and
  `GetRemainingSize` decode the length field again on every call;
  `GetBufferSize` reports the vector's size. The class also has a read cursor
  (`SeekOffset`). `Seek` and `SeekForward` check it against the body size;
  `RawSeek` and `RawSeekForward` do not.
- `WSMessage::Fragment` rebuilds one inbound frame from transport chunks. It
  takes the announced body length (`CompletedSize`) from the first four bytes
  of the first chunk, appends later chunks, and reports completion when it
  holds exactly `CompletedSize + 4` bytes. `Graduate` then copies the body
  out into a new `WSMessage`.

Module `ByteOrder` (`byte_order.dfy`) holds the machine integer types
(`Byte` for uint8_t, `U32` for uint32_t, `U64` for a 64-bit size_t). It also
holds the explicit conversions that wrap like C unsigned arithmetic, the
big-endian length codec (`EncodeU32` for what `htonl` leaves in memory,
`DecodeMsgSize`), and the buffer primitives: `Resized` (vector resize),
`Overwrite` (memcpy at an offset) and `Zeros` (memset to 0).

Module `WSMessages` (`ws_messages.dfy`) holds the two classes, the wire
layout `Frame(body)`, and the lemmas about reassembly.

- Both classes keep their buffer as a `seq<Byte>` field that their methods
  reassign, in the same steps as the source.
- The two constructors, and the methods `Resize`, `EncodeSize`, the four
  seeks and `Fragment.Append` (which have `modifies` clauses), give the
  whole new state in their `ensures`.
- The read-only accessors (`GetBody`, `GetSeekedBody`, `GetSeekedRawData`,
  `GetBodySize`, `GetRemainingSize`, `GetBufferSize`, `GetPosition`,
  `IsComplete`) are functions that read the object. Their `ensures` and the
  lemmas below state what they mean. `GetPosition` has no contract of its
  own: the constructor sets it to 0 and the seek methods state how it
  moves.
- Pointer results are modelled as the slice of the buffer from that
  pointer to the end.
- `Feed` drives a fragment through a run of `Append` calls, as the
  transport callback does, and ties the class to the reassembly lemmas.
- Three client methods show the classes at work. `FrameExample` frames
  "hi" as `00 00 00 02 68 69` and seeks in it. `ReassemblyExample` builds a
  fragment from `00 00 00 03`, appends "ab" and "c", and graduates the body
  "abc". `PipelinedExample` delivers the frames "a" and "bc" in one chunk
  and shows that the fragment never completes.

Facts about the header that the model keeps:

- `IsComplete` is an exact equality (wsmessages.hpp:142).
  `OverfullFragmentNeverCompletes` states the consequence: a fragment that
  holds a whole frame and more, such as two frames back to back, never
  completes.
- The header has no `NextMessage` and no constructor that adopts a buffer.
- A short first chunk and an early `Graduate` are not detected; the model
  excludes them with preconditions.

## Model

| member | source | states |
|---|---|---|
| ByteOrder.ToU32 | wsmessages.hpp:76-77 | conversion to uint32_t: identity below 2^32, otherwise congruent modulo 2^32 |
| ByteOrder.ToU64 | wsmessages.hpp:93-101 | size_t arithmetic: identity below 2^64, otherwise congruent modulo 2^64 |
| ByteOrder.EncodeU32 | wsmessages.hpp:37-42 | the length field written for a value is exactly four bytes |
| ByteOrder.DecodeMsgSize | wsmessages.hpp:108-115 | reads four bytes big-endian: each of the four bytes is the matching base-256 digit of the result, the first the most significant |
| ByteOrder.DecodeEncode | wsmessages.hpp:108-115 | decoding the bytes written for any uint32 n gives n back |
| ByteOrder.EncodeDecode | wsmessages.hpp:37-42 | encoding a decoded value reproduces the four bytes it was read from |
| ByteOrder.EncodeInjective | wsmessages.hpp:37-42 | two length fields are equal iff the lengths are equal (a standalone codec fact) |
| ByteOrder.Zeros | wsmessages.hpp:48 | memset(…, 0, n): n bytes, all zero |
| ByteOrder.Resized | wsmessages.hpp:46 | vector resize: new size, old bytes kept below the old size, zeros after |
| ByteOrder.Overwrite | wsmessages.hpp:62 | memcpy at an offset: that window becomes the source, every other byte is kept, the size is unchanged |
| WSMessages.Frame | wsmessages.hpp:57-63 | the wire frame of a body is 4 + length bytes, its length field decodes to the body length, and the bytes after it are the body |
| WSMessages.WSMessage.constructor | wsmessages.hpp:57-63 | the buffer is Frame(body): the length field holds the big-endian length, GetBodySize() is the length, GetBody() is the body byte for byte, and the position is 0 |
| WSMessages.WSMessage.EncodeSize | wsmessages.hpp:37-42 | writes the length cut to 32 bits into the length field; GetBodySize() then returns it; no other byte and not the size changes |
| WSMessages.WSMessage.Resize | wsmessages.hpp:44-53 | buffer size becomes 4 + length, the length field is written, body bytes keep old content or become zero |
| WSMessages.WSMessage.Seek | wsmessages.hpp:84-91 | succeeds iff offset < GetBodySize(); on success the position is the offset; on failure the position is unchanged; the buffer never changes |
| WSMessages.WSMessage.SeekForward | wsmessages.hpp:98-101 | behaves as Seek(position + increment), the sum wrapping as size_t |
| WSMessages.WSMessage.RawSeekForward | wsmessages.hpp:93-96 | position becomes old position + increment (size_t wrap), unchecked; buffer unchanged |
| WSMessages.WSMessage.RawSeek | wsmessages.hpp:103-106 | position becomes the offset, unchecked; buffer unchanged |
| WSMessages.WSMessage.GetPosition | wsmessages.hpp:79-82 | the cursor: 0 after either constructor and after Graduate, moved only as the seek methods' ensures state |
| WSMessages.WSMessage.GetBody | wsmessages.hpp:66-67 | the view at BodyOffset; in a valid frame it holds exactly GetBodySize() bytes (the constructor's GetBody() == body is the round trip) |
| WSMessages.WSMessage.GetSeekedBody | wsmessages.hpp:69-70 | the body from the cursor on, GetBody()[SeekOffset..], of length body size minus cursor in a valid frame |
| WSMessages.WSMessage.GetSeekedRawData | wsmessages.hpp:72-73 | the whole buffer from the cursor on, padding and length field included; skipping BodyOffset bytes of it gives GetSeekedBody() |
| WSMessages.WSMessage.GetBodySize | wsmessages.hpp:75 | decoded from the length field on every call: the value whose big-endian encoding the field holds (see BufferSizeMatchesLayout) |
| WSMessages.WSMessage.GetRemainingSize | wsmessages.hpp:76 | body size minus cursor modulo 2^32, exactly the difference while the cursor is within the body (see SeekedBodyIsRemainder, RemainingSizeWrapsPastEnd) |
| WSMessages.WSMessage.GetBufferSize | wsmessages.hpp:77 | the buffer size modulo 2^32, exactly the size below 2^32 (see BufferSizeMatchesLayout) |
| WSMessages.SeekedBodyIsRemainder | wsmessages.hpp:69-76 | with the cursor inside the body, GetRemainingSize() is the length of GetSeekedBody(): body size minus position, positive, at most the body size |
| WSMessages.RemainingSizeWrapsPastEnd | wsmessages.hpp:76 | with the cursor past the end of the body, GetRemainingSize() wraps to 2^32 minus the overshoot |
| WSMessages.BufferSizeMatchesLayout | wsmessages.hpp:77 | GetBufferSize() is 4 + body size whenever that fits in 32 bits |
| WSMessages.Fragment.constructor | wsmessages.hpp:125-130 | CompletedSize is the big-endian value of the chunk's first four bytes and the buffer is an exact copy of the chunk |
| WSMessages.Fragment.Append | wsmessages.hpp:132-138 | buffer becomes old buffer followed by the chunk; CompletedSize unchanged; the announced length still matches the buffer's prefix |
| WSMessages.Fragment.IsComplete | wsmessages.hpp:140-143 | when complete, the bytes behind the prefix number exactly the length the prefix announces; FragmentCompletion and OverfullFragmentNeverCompletes state when it holds |
| WSMessages.Fragment.Graduate | wsmessages.hpp:145-148 | a fresh WSMessage whose body is Buffer[4 .. 4 + CompletedSize], whose GetBodySize() is CompletedSize and whose position is 0; the fragment is not changed |
| WSMessages.Feed | wsmessages.hpp:132-138 | a run of Append calls leaves the buffer as the old buffer followed by all chunks in order, CompletedSize unchanged and the invariant kept |
| WSMessages.ConcatSplit | wsmessages.hpp:132-138 | appending two runs of chunks one after the other equals appending their concatenations |
| WSMessages.ChunkedReassembly | wsmessages.hpp:140-143 | for any split of a frame into a first chunk of at least 4 bytes and further chunks: the announced length is the body length, and after k chunks the byte count equals CompletedSize + 4 iff every chunk still to come is empty; then the bytes behind the prefix are the body |
| WSMessages.FragmentCompletion | wsmessages.hpp:140-148 | a fragment that holds the start of a frame announces its body length; IsComplete() holds iff nothing is pending; then the slice Graduate copies is the body |
| WSMessages.OverfullFragmentNeverCompletes | wsmessages.hpp:140-143 | a fragment holding a whole frame plus at least one more byte announces that frame's length, is not complete, and no later chunks make its byte count equal CompletedSize + 4 |

## Left out

- Transport padding (the `LWS_SEND_BUFFER_PRE_PADDING` branch, wsmessages.hpp:14-18): only the configuration without padding is modelled. The padding constants stay symbolic with value 0. With nonzero padding the offsets disagree: the length is written at `START+END`, the body sits at `START+4`, and `Resize` leaves out the post-padding. No layout property is claimed for that case.
- `htonl`/`ntohl` and the platform network headers: these are replaced by the explicit big-endian `EncodeU32` and `DecodeMsgSize`.
- Raw pointers, aliasing and writes through the returned pointers: accessors return slices (copies), so a caller cannot change the buffer through them. `new` in `Graduate` becomes a fresh object; there is no delete.
- WSMessages.WSMessage.constructor: requires a body shorter than 2^32 bytes. For longer bodies `EncodeSize` would truncate the length field and the frame would be inconsistent. The truncation itself is modelled in `EncodeSize`.
- WSMessages.Fragment.constructor: requires a first chunk of at least 4 bytes. The source reads 4 bytes without checking.
- WSMessages.Fragment.Graduate: requires the buffer to hold at least `CompletedSize + 4` bytes. The source copies without checking. This precondition is weaker than `IsComplete()`.
- The class invariant `Valid()` says that a WSMessage's length field matches its buffer size and that a Fragment's `CompletedSize` matches its buffer prefix. `Seek`, `SeekForward`, `Fragment.Append` and `Graduate` require it, and the constructors and those methods establish or keep it. `RawSeek` and `RawSeekForward` neither need nor change it. `EncodeSize` can break it on its own; the header makes it private and calls it only from `Resize`, which restores it, so no client can break the invariant. The source performs no such check.
- `U64` is a 64-bit size_t. On a 32-bit target `SeekForward` and `RawSeekForward` would wrap modulo 2^32; that target is not modelled.
- Pipelining (`NextMessage`), "at least" completion, and adopting an existing buffer are not part of this source.
