# libbinaryio in Dafny

A model of libbinaryio, a small C++ library for reading and writing binary
formats in memory, together with proofs about it. It has three parts.

- **Offset alignment** (`util.dfy`, module `Util`): `Align(value, n)` rounds an
  offset up to a multiple of `n`, computed the way the library computes it.
- **`BinaryReader`** (`binaryreader.dfy`, module `Reader`): a read cursor over
  an immutable byte buffer. Its state is an offset, a big-endian flag and a
  64-bit-mode flag. It can:
  - read integers in either byte order, and vectors and matrices element by
    element;
  - align, skip and read 4- or 8-byte pointers;
  - read zero-terminated and fixed-size strings.
- **`BinaryWriter`** (`binarywriter.dfy`, module `Writer`): a growable byte
  buffer with a put position. Writes overwrite bytes in place and extend the
  buffer. A seek past the end grows the buffer. `VisitAndWrite` writes
  somewhere else and then restores the position. `Append` concatenates
  another writer's buffer. A FIFO queue of deferred writes is drained to a
  fixed point by `ProcessDeferQueue`.

Three support modules carry the specification functions:
- `Bytes` (`bytes.dfy`): the base-256 codec.
- `Aggregates` (`aggregates.dfy`): vector and matrix layouts and their encoding.
- `Patches` (`patches.dfy`): what a write does to a buffer, and the deferred
  writes with the order in which they run.

`RoundTrips` (`roundtrips.dfy`) uses both cursors together. What the writer
emits, a reader over the same bytes reads back. It also includes a
forward-reference patch resolved by the defer queue.

Modelling choices:
- Bytes are integers in `[0, 256)`. Integer values are unbounded naturals of
  1, 2, 4 or 8 bytes.
- The writer stores integers in host byte order. This model takes the host to
  be little-endian, and every round-trip property assumes that.
- A vector of `n` scalars is the layout `Array(n, Scalar(w))`. A matrix of `c`
  columns is `Array(c, Array(r, Scalar(w)))`. Elements and columns are written
  and read in index order.
- Deferred writes are `std::function` closures in the library. Here they are a
  closed datatype `Patch(at, item, deferred)`. Running a patch writes `item` at
  offset `at` the way `VisitAndWrite` does, then defers each patch of
  `deferred`.
- The writer's buffer is described relationally by `WrittenAt`. It leaves the
  bytes that a seek past the end appends unconstrained, because the library
  takes them from an uninitialised allocation.

## Model

| member | source | states |
|---|---|---|
| `Util.Align` | include/binaryio/util.hpp:42-46 | for a non-zero alignment, the result is a multiple of it, at least the value and less than value + alignment |
| `Util.AlignIsLeast` | include/binaryio/util.hpp:45 | Align gives the least multiple of the alignment that is not below the value |
| `Util.AlignIdempotent` | include/binaryio/util.hpp:45 | aligning an aligned offset again changes nothing |
| `Util.AlignFixedIff` | include/binaryio/util.hpp:45 | Align(x, n) == x exactly when x is a multiple of n (both directions) |
| `Util.AlignZeroAndOne` | include/binaryio/util.hpp:45 | offset 0 stays 0, and alignment 1 is the identity |
| `Util.AlignMonotone` | include/binaryio/util.hpp:45 | Align is monotone in the offset |
| `Bytes.LittleEndianBound` | include/binaryio/binaryreader.hpp:17-26 | the value assembled from n bytes is below 256^n |
| `Bytes.DecodeBound` | include/binaryio/binaryreader.hpp:20-26 | in either byte order, the value read from n bytes is below 256^n |
| `Bytes.LittleEndianSnoc` | include/binaryio/binaryreader.hpp:24-25 | one more significant byte adds byte * 256^i: the step of the accumulation loop |
| `Bytes.BigEndianHorner` | include/binaryio/binaryreader.hpp:22-23 | a big-endian read is Horner's rule, most significant byte first |
| `Bytes.DecodeSingleByte` | include/binaryio/binaryreader.hpp:20-26 | a 1-byte read gives the byte itself in both byte orders |
| `Bytes.DecodeEncode` | include/binaryio/binarywriter.hpp:14-20 | the little-endian bytes the writer stores for a value decode back to that value |
| `Bytes.EncodeDecode` | include/binaryio/binarywriter.hpp:14-20 | re-encoding a decoded run of bytes gives the same bytes: the codec is a bijection on each width |
| `Bytes.BigEndianOfReversed` | include/binaryio/binaryreader.hpp:22-23 | a big-endian read of the reversed little-endian bytes gives the value back |
| `Aggregates.SpanIsProduct` | include/binaryio/binaryreader.hpp:35 | an aggregate takes element count times element size bytes |
| `Aggregates.EncodeValue` | include/binaryio/binarywriter.hpp:22-36 | a value's encoding is exactly the size of its layout |
| `Aggregates.EncodeItems` | include/binaryio/binarywriter.hpp:25-26 | n elements encode to n times the element size: the sum of the element lengths |
| `Aggregates.EncodeItemsSnoc` | include/binaryio/binarywriter.hpp:34-35 | encoding one more element appends exactly its bytes: index order, nothing between |
| `Aggregates.DecodeItemsLength` | include/binaryio/binaryreader.hpp:32-36 | decoding an aggregate yields exactly its element count of values |
| `Aggregates.DecodeItemsAt` | include/binaryio/binaryreader.hpp:71-75 | element i is decoded from its own slice [i * size, (i + 1) * size) of the aggregate's bytes |
| `Aggregates.DecodeItemsSnoc` | include/binaryio/binaryreader.hpp:74 | decoding the next element's bytes extends the decoded run by that element |
| `Aggregates.RoundTrip` | include/binaryio/binarywriter.hpp:22-36 | for every layout, a little-endian decode of what the writer encodes gives the value back |
| `Aggregates.RoundTripItems` | include/binaryio/binarywriter.hpp:31-36 | element sequences round-trip in order |
| `Reader.PointerEnd` | src/binaryreader.cpp:31-49 | after a pointer, the offset is one pointer width past a pointer-aligned offset within one width of the start |
| `Reader.Assemble` | include/binaryio/binaryreader.hpp:17-26 | the byte loop yields the little-endian value of the slice, or of the reversed slice in big-endian mode |
| `Reader.BinaryReader.constructor` | src/binaryreader.cpp:5-11 | given buffer and byte order, 64-bit mode off, offset 0 |
| `Reader.BinaryReader.Copy` | src/binaryreader.cpp:13-19 | a fresh reader with the same buffer, byte order, mode and offset |
| `Reader.BinaryReader.Set64BitMode` | src/binaryreader.cpp:16 | sets the pointer mode and nothing else |
| `Reader.BinaryReader.Seek` | include/binaryio/binaryreader.hpp:44-50 | `cur` adds to the offset; any other direction, `end` included, sets it absolutely |
| `Reader.BinaryReader.Skip` | include/binaryio/binaryreader.hpp:38-42 | advances the offset by the width |
| `Reader.BinaryReader.Read` | include/binaryio/binaryreader.hpp:14-30 | returns the decoded value of the width bytes at the old offset, below 256^width, and advances by exactly the width |
| `Reader.BinaryReader.ReadByte` | src/binaryreader.cpp:55 | `Read<char>` returns the byte at the offset and advances by one |
| `Reader.BinaryReader.ReadValue` | include/binaryio/binaryreader.hpp:32-36 | an aggregate read decodes its bytes element by element and advances by its size |
| `Reader.BinaryReader.ReadItems` | include/binaryio/binaryreader.hpp:71-75 | count elements read in index order equal the decode of count times size bytes, and the offset advances by that |
| `Reader.BinaryReader.ReadNext` | include/binaryio/binaryreader.hpp:74 | one element read extends the decoded run by one element |
| `Reader.BinaryReader.Align` | src/binaryreader.cpp:26-29 | the offset becomes Align(offset, n) |
| `Reader.BinaryReader.AlignToPointer` | src/binaryreader.cpp:21-24 | aligns to 8 in 64-bit mode and 4 otherwise |
| `Reader.BinaryReader.SkipPointer` | src/binaryreader.cpp:31-39 | leaves the offset where ReadPointer would |
| `Reader.BinaryReader.ReadPointer` | src/binaryreader.cpp:41-49 | reads a pointer at the aligned offset, below 2^32 in 32-bit mode, and ends at Align(old, w) + w |
| `Reader.BinaryReader.ReadString` | src/binaryreader.cpp:51-61 | returns the zero-free bytes before the first zero at or after the offset, and ends at Align(zero + 1, w) |
| `Reader.BinaryReader.ReadStringOfSize` | src/binaryreader.cpp:63-71 | returns exactly the size bytes at the offset, zeros included, and advances by size |
| `Patches.Overwrite` | include/binaryio/binarywriter.hpp:17 | a stream write leaves the buffer as long as the longer of the old buffer and the end of the write |
| `Patches.OverwriteWrites` | include/binaryio/binarywriter.hpp:17 | a stream write puts the data at the position and keeps every other old byte |
| `Patches.OverwriteUnique` | include/binaryio/binarywriter.hpp:17 | a write starting inside the buffer has exactly one possible result |
| `Patches.OverwriteConcat` | include/binaryio/binarywriter.hpp:25-26 | two writes back to back are one write of the concatenation |
| `Patches.StringBytes` | include/binaryio/binarywriter.hpp:38-46 | an empty string is four zero bytes; otherwise the characters, then one zero when terminating |
| `Patches.ScheduleStep` | include/binaryio/binarywriter.hpp:81-82 | draining runs the front patch, then its children after the rest of the queue, with one write fewer left |
| `Patches.DrainStep` | include/binaryio/binarywriter.hpp:79-83 | after each pop, the patches run so far plus the schedule of the remaining queue is the whole schedule |
| `Patches.ScheduleSplit` | include/binaryio/binarywriter.hpp:77-87 | running a prefix of the queue moves its children behind the rest of the queue (FIFO) |
| `Patches.LevelOrder` | include/binaryio/binarywriter.hpp:77-87 | the queued patches run first, in queue order, followed by everything they defer |
| `Patches.ScheduleLength` | include/binaryio/binarywriter.hpp:77-87 | every patch and every patch it defers runs exactly once |
| `Patches.AppliedSingle` | include/binaryio/binarywriter.hpp:77-87 | draining one childless patch is exactly its write |
| `Patches.AppliedSnoc` | include/binaryio/binarywriter.hpp:81 | running one more patch extends the applied run |
| `Patches.AppliedConcat` | include/binaryio/binarywriter.hpp:85-86 | two runs back to back form one run of the concatenated schedule |
| `Patches.AppliedLength` | include/binaryio/binarywriter.hpp:77-87 | a run never shrinks the buffer, and the buffer holds every write it made |
| `Patches.AppliedUntouched` | include/binaryio/binarywriter.hpp:77-87 | an old byte that no patch covers keeps its value |
| `Patches.AppliedLastWins` | include/binaryio/binarywriter.hpp:77-87 | a byte holds what the last patch covering it wrote |
| `Patches.FirstWriteSurvives` | include/binaryio/binarywriter.hpp:81 | a byte written by the first patch and covered by no later one keeps that write |
| `Writer.Filler` | include/binaryio/binarywriter.hpp:100-102 | the extension is exactly the missing number of bytes |
| `Writer.BinaryWriter.constructor` | include/binaryio/binarywriter.hpp:135-137 | an empty buffer, position 0, empty queue |
| `Writer.BinaryWriter.GetOffset` | include/binaryio/binarywriter.hpp:118-121 | the put position, never past the end |
| `Writer.BinaryWriter.GetSize` | include/binaryio/binarywriter.hpp:123-127 | the buffer length, never short of the put position |
| `Writer.BinaryWriter.WriteBytes` | include/binaryio/binarywriter.hpp:17 | overwrites at the position, extending as needed, and advances by the data length |
| `Writer.BinaryWriter.Write` | include/binaryio/binarywriter.hpp:14-20 | places the width little-endian bytes at the position and advances by the width |
| `Writer.BinaryWriter.WriteValue` | include/binaryio/binarywriter.hpp:22-36 | writes the value's encoding at the position and advances by its layout size |
| `Writer.BinaryWriter.WriteItems` | include/binaryio/binarywriter.hpp:25-26 | the element loop writes the elements' concatenated encodings as one contiguous run |
| `Writer.BinaryWriter.WriteNext` | include/binaryio/binarywriter.hpp:34-35 | one more element extends the written run by its bytes |
| `Writer.BinaryWriter.WriteString` | include/binaryio/binarywriter.hpp:38-46 | writes the string's bytes (four zeros when empty) at the position and advances past them |
| `Writer.BinaryWriter.WriteItem` | include/binaryio/binarywriter.hpp:53 | the write VisitAndWrite performs for an integer or a string |
| `Writer.BinaryWriter.Seek` | include/binaryio/binarywriter.hpp:89-111 | moves to the resolved offset; the buffer grows to exactly it when past the end and is unchanged otherwise |
| `Writer.BinaryWriter.Align` | include/binaryio/binarywriter.hpp:113-116 | moves to Align(position, n), growing the buffer when that lies past the end |
| `Writer.BinaryWriter.VisitAndWrite` | include/binaryio/binarywriter.hpp:48-58 | writes the item at the offset, restores the position, and returns Align(offset + length, 4) |
| `Writer.BinaryWriter.Append` | include/binaryio/binarywriter.hpp:60-70 | no change for an empty other buffer; otherwise old buffer then other's bytes, with the position at the end |
| `Writer.BinaryWriter.Defer` | include/binaryio/binarywriter.hpp:72-75 | only enqueues at the back; buffer and position untouched |
| `Writer.BinaryWriter.Run` | include/binaryio/binarywriter.hpp:81 | calling a patch writes its item at its offset, keeps the position and enqueues its children |
| `Writer.BinaryWriter.RunFront` | include/binaryio/binarywriter.hpp:81-82 | calls the front patch, then pops it |
| `Writer.BinaryWriter.DrainPass` | include/binaryio/binarywriter.hpp:79-83 | one pass runs a non-empty prefix of the schedule, in order, and keeps the rest of the schedule |
| `Writer.BinaryWriter.ProcessDeferQueue` | include/binaryio/binarywriter.hpp:77-87 | runs every queued and newly deferred patch in FIFO schedule order, ends with an empty queue and the position unchanged |
| `Writer.WriteItemsStep` | include/binaryio/binarywriter.hpp:25-26 | writing element i right after elements 0 .. i - 1 writes elements 0 .. i |
| `Writer.SeekThenWrite` | include/binaryio/binarywriter.hpp:52-53 | a seek to an offset, then a write there, is a write at that offset into the original buffer |
| `RoundTrips.IntegerRoundTrip` | include/binaryio/binarywriter.hpp:14-20 | an integer written with Write reads back with Read |
| `RoundTrips.ValueRoundTrip` | include/binaryio/binarywriter.hpp:22-36 | a vector or matrix written element by element reads back equal |
| `RoundTrips.TerminatedStringRoundTrip` | src/binaryreader.cpp:51-61 | a zero-free string written terminated reads back with ReadString, the empty one too, and ends pointer-aligned |
| `RoundTrips.FixedStringRoundTrip` | src/binaryreader.cpp:63-71 | a string written unterminated reads back with ReadString(size) |
| `RoundTrips.PeekThroughCopy` | src/binaryreader.cpp:13-19 | reading through a copy returns the value at the offset and leaves the original reader untouched |
| `RoundTrips.DeferredPatchScenario` | include/binaryio/binarywriter.hpp:72-87 | a deferred patch of a reserved slot is in place after draining, and the position is unchanged |

## Left out

- Standard streams: the `std::stringstream` get and put pointers, `GetStream`, and the `assert(!fail())` checks. The buffer is a byte sequence with a position.
- Floating-point and enum `T`: only unsigned integers of 1, 2, 4 or 8 bytes are modelled.
- Compile-time overload selection (`SafeUnderlyingType`, `HasValueType`, `HasColType`): replaced by the `Shape` layouts and separate methods.
- Reader.BinaryReader.Read: the library shifts each byte in `int`, which is undefined for byte 4 and beyond. The model reads the intended base-256 value.
- Writer.BinaryWriter.Write: host byte order is taken to be little-endian. A big-endian host is not modelled.
- Offsets are unbounded. `off_t` overflow and the overflow of `value + (byteAlignment - 1)` in `Align` are not modelled.
- Reader.BinaryReader.Align: the alignment is not truncated to `uint_fast8_t`. The model requires a non-negative offset, which the reader's `off_t` does not guarantee after a seek.
- Reader.BinaryReader.ReadPointer: requires a non-negative offset and the pointer's bytes inside the buffer. The library reads through a raw pointer with no length.
- Writer.BinaryWriter.Align: the alignment is not truncated to `uint_fast8_t`.
- Writer.BinaryWriter.Seek: a negative target fails the stream in the library. The model makes a non-negative target a precondition.
- Writer.Filler: the bytes a seek past the end appends come from an uninitialised `new char[]`. No contract of the model says what they are.
- Writer.BinaryWriter.Append: appending a writer to itself is excluded (`other != this`).
- Writer.BinaryWriter.Defer: queued writes are `Patch` values (a write of an integer or a string at an offset, then further deferrals), not arbitrary closures.
- Reader getters `GetBuffer`, `IsBigEndian` and `GetOffset` are functions that read the state. They change nothing by construction, so they have no contract.
- The reader's `Seek` with `end` sets the offset absolutely, as the code does. It does not count from the end of the buffer, which the reader never knows.
- An empty string is written as four zero bytes (`Write<uint32_t>(0)`), as the code does, not as a single terminator.
- The writer has no byte-order flag, no pointer writes and no scope stack, and the model adds none.
- Concurrency does not arise.
