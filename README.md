# biba: byte-order normaliser and Modbus Read Coils exchange, in Dafny

This project models `library/biba.h`, a small Modbus master library. It has two layers.

- **Byte-order normaliser** (`endian.dfy`, module `Endian`). `change_byte_endianess`
  treats a buffer as `count` elements of `length` bytes and reverses the bytes of
  each element in place. Widths 2, 4 and 8 load each element as a machine word
  in the host's byte order, apply `bswap_16/32/64` and store it back. Every other
  width swaps the outer bytes of each element pairwise. `swap_host_local_endian`
  does this only on a little-endian host. The buffer is an `array<bv8>`. The
  host's byte order is a `ByteOrder` parameter.
  Every path is proved to produce `ElementsReversed(old(a[..]), count, length)`.
  This specification function says, position by position, where each byte of
  the result comes from; the bytes past `count * length` stay where they are.
  It is proved equal to `ReverseElements`, a reference definition that reverses
  the first element and then recurses on the rest. Two more facts are proved:
  applying it twice gives the buffer back, and with `length <= 1` it changes
  nothing. The word paths are also proved to give the same bytes on both host
  byte orders.
- **Read Coils exchange** (`transaction.dfy`, module `Transaction`). `read_coils` is
  the Modbus Read Coils exchange: function code 0x01, at most 2000 coils, exception
  responses carry 0x81. These are defined in sections 6.1 and 7 of the Modbus
  Application Protocol Specification V1.1b3.
  The call works in steps:
  - It rejects quantities over 2000.
  - It builds a 5-byte request. The start address and quantity are big-endian,
    as in section 4.2 of the same specification.
  - It writes the request and requires the whole of it to be written.
  - It reads a 2-byte header.
  - It then reads either `N` coil bytes or takes the exception code.

  The byte stream is a `Channel` object with three fields: the bytes written so
  far, the bytes waiting to be read, and the room left for writing. Short writes
  and short reads are therefore explicit. `ReadCoilsExchange` states, as a pure
  function, what one exchange returns, writes and consumes. The method
  `ReadCoils` is proved to do exactly that, on either host byte order.

The entities of the source and their counterparts:
- `biba_rd_coils_ok_resp`, the union and `biba_rd_coils_resp`
  (`library/biba.h:107-118`) are the datatypes `CoilsPayload`, `Items` and
  `CoilsResponse`. The `type` field is named `kind`.
- The failure value `(biba_rd_coils_resp){0}` (lines 123, 142, 150, 161, 168
  and 180) is the constant `ZeroResponse`.
- `biba_channel` (lines 95-97) and its `FILE*` are the class `Channel`. Its
  methods `Write` and `Read` stand for `fwrite` and `fread`.
- The outcome of the unreachable assertion (line 179) is `Aborted` in the
  datatype `Outcome`.
- The host's byte order, which line 60 probes at run time, is the datatype
  `ByteOrder`.
- `Exchange` records one call of `read_coils`: its outcome, the bytes it
  wrote, the number of bytes it consumed, and whether the payload buffer
  allocated at line 157 is still held when the call returns.

Quirks of the code that the model keeps as they are:
- The length check at `library/biba.h:15-18` uses `assert(0 || "...")`, which
  always passes. So `length <= 1` is a silent no-op, not a fatal error.
- The failure value `(biba_rd_coils_resp){0}` has `type == 0`. That is also the
  tag of an exception response (`BIBA_ERROR_RESPONSE`). So an exception response
  with code 0 is the same value as the failure value
  (`ExceptionZeroIsZeroResponse`), and a caller cannot tell the two apart.
- Only Read Coils is implemented. The other function codes are declared but
  unused, so they are not modelled.
- A header byte other than 0x01 or 0x81 reaches `assert(0 && "unreachable")`.
  This is modelled as the outcome `Aborted`, not as a default response.

## Model

| member | source | states |
|---|---|---|
| `Endian.ElementsReversed` | library/biba.h:14-56 | the specification every path is proved against (byte `p` of element `i` comes from the mirrored byte of element `i`, bytes past `count*length` stay); its own contract keeps the buffer's length |
| `Endian.ElementsReversedMovesByte` | library/biba.h:50-53 | each byte of the region lands at its mirrored offset, which stays inside the region, so no byte is lost or duplicated |
| `Endian.ChangeByteEndianess` | library/biba.h:14-57 | the new buffer is `ElementsReversed` of the old one, whichever path the width takes, and for `length >= 2` also the reference `ReverseElements`; with `length <= 1` the buffer is unchanged and nothing is required of `count` |
| `Endian.SwapHostLocalEndian` | library/biba.h:59-63 | on a little-endian host the buffer becomes `ElementsReversed` of the old one; on a big-endian host it is unchanged |
| `Endian.SwapEach16` | library/biba.h:22-28 | the 2-byte word path reverses each of the `count` elements and leaves the rest of the buffer alone |
| `Endian.SwapEach32` | library/biba.h:29-35 | the 4-byte word path reverses each of the `count` elements and leaves the rest of the buffer alone |
| `Endian.SwapEach64` | library/biba.h:36-42 | the 8-byte word path reverses each of the `count` elements and leaves the rest of the buffer alone |
| `Endian.SwapWordAt16` | library/biba.h:25 | `pointer[index] = bswap_16(pointer[index])` reverses the element's two bytes and touches nothing else |
| `Endian.SwapWordAt32` | library/biba.h:32 | `pointer[index] = bswap_32(pointer[index])` reverses the element's four bytes and touches nothing else |
| `Endian.SwapWordAt64` | library/biba.h:39 | `pointer[index] = bswap_64(pointer[index])` reverses the element's eight bytes and touches nothing else |
| `Endian.ReverseEachElement` | library/biba.h:45-56 | the generic path, which advances `pointer` by `length` per element, gives the same `ElementsReversed` result as the word paths |
| `Endian.ReverseElementAt` | library/biba.h:48-54 | the inner half-swap loop maps byte `p` of the element to the original byte at its mirror; bytes outside the element are unchanged |
| `Endian.PutBytes` | library/biba.h:25 | storing a word overwrites exactly its bytes and nothing else |
| `Endian.WordSwapReverses16` | library/biba.h:25 | a 2-byte load, `bswap_16` and store reverse the bytes on either host byte order |
| `Endian.WordSwapReverses32` | library/biba.h:32 | a 4-byte load, `bswap_32` and store reverse the bytes on either host byte order |
| `Endian.WordSwapReverses64` | library/biba.h:39 | an 8-byte load, `bswap_64` and store reverse the bytes on either host byte order |
| `Endian.ElementsReversedOnElement` | library/biba.h:14-56 | each byte `p` of element `i` of the result is the original byte at `2*i*length + length - 1 - p`, and element `i` lies inside the region |
| `Endian.ElementsReversedByElement` | library/biba.h:14-56 | each element slice of the result is the reversal of the original slice; the bytes after `count*length` are unchanged |
| `Endian.ElementsReversedTrivial` | library/biba.h:15-18 | with `length <= 1` the buffer is returned untouched |
| `Endian.ElementsReversedTwice` | library/biba.h:14-56 | normalising twice with the same `count` and `length` restores the buffer |
| `Endian.ReverseElements` | library/biba.h:45-56 | the reference definition, first element reversed and then the rest, keeps the buffer's length |
| `Endian.ReverseElementsTwice` | library/biba.h:14-56 | reversing the elements twice restores the buffer, proved element by element on the reference definition |
| `Endian.ElementsReversedIsReverseElements` | library/biba.h:14-56 | the positional specification of every path equals the element-by-element reference definition |
| `Endian.ElementsReversedPeel` | library/biba.h:47-55 | the result is the first element reversed, followed by the same normalisation of the rest, as when `pointer` advances by `length` |
| `Endian.BigEndian16` | library/biba.h:130-136 | the two bytes of a field, high byte first, read back as the field |
| `Endian.MirrorTwice` | library/biba.h:50-53 | the swap partner `length - jndex - 1` of the swap partner of an offset is the offset itself, within the same element |
| `Endian.MirrorWithin` | library/biba.h:50-55 | a mirrored offset stays in the same element and inside the `count*length` region |
| `Endian.HostToBig16Layout` | library/biba.h:130-136 | on either host, the bytes appended from `htobe16(x)` are `x` high byte first |
| `Endian.HostToBig16IsSwapHostLocal` | library/biba.h:59-63 | `htobe16` changes a field's bytes exactly as `swap_host_local_endian` on a one-element, 2-byte buffer |
| `Endian.Bswap16Bytes` | library/biba.h:25 | `bswap_16` exchanges the high and low bytes of a value; it is also what `htobe16` at lines 130-131 applies on a little-endian host |
| `Endian.SwapJoined16` | library/biba.h:25 | `bswap_16` of the word with bytes `b0, b1` has bytes `b1, b0` |
| `Endian.SwapJoined32` | library/biba.h:32 | `bswap_32` of the word with bytes `b0 … b3` has bytes `b3 … b0` |
| `Endian.SwapJoined64` | library/biba.h:39 | `bswap_64` of the word with bytes `b0 … b7` has bytes `b7 … b0` |
| `Endian.LoadStore16` | library/biba.h:23-25 | storing a `uint16_t` and loading it back on the same host gives the same value |
| `Endian.LoadStore32` | library/biba.h:30-32 | storing a `uint32_t` and loading it back on the same host gives the same value |
| `Endian.LoadStore64` | library/biba.h:37-39 | storing a `uint64_t` and loading it back on the same host gives the same value |
| `Endian.StoreLoad16` | library/biba.h:23-25 | loading two bytes as a `uint16_t` and storing it back leaves memory as it was |
| `Endian.StoreLoad32` | library/biba.h:30-32 | loading four bytes as a `uint32_t` and storing it back leaves memory as it was |
| `Endian.StoreLoad64` | library/biba.h:37-39 | loading eight bytes as a `uint64_t` and storing it back leaves memory as it was |
| `Endian.HostToBig16` | library/biba.h:130-131 | `htobe16(x)` is the value the host reads from memory that holds `x` high byte first |
| `Transaction.Channel.Write` | library/biba.h:138 | a write hands over as many bytes as there is room for, appends them to what was written, and returns their number |
| `Transaction.Channel.Read` | library/biba.h:147 | a read takes the first `min(n, waiting)` bytes off the stream and returns them |
| `Transaction.ReadCoils` | library/biba.h:120-181 | the result, the bytes written, the bytes consumed and whether the payload buffer is still held are those of `ReadCoilsExchange`, whatever the host byte order |
| `Transaction.BuildRequest` | library/biba.h:127-136 | the buffer built from `RD_COILS` and the memory bytes of `htobe16(start)` and `htobe16(count)` is the big-endian request frame on either host |
| `Transaction.PayloadBufferOwnership` | library/biba.h:157-171 | the payload buffer is still held on return exactly when a Read Coils response is returned: the short-payload path frees it (line 167), and on success it goes to the caller (line 171) |
| `Transaction.RequestFrame` | library/biba.h:127-138 | the request is 5 bytes `[0x01, start>>8, start&0xFF, count>>8, count&0xFF]`: both fields read back high byte first |
| `Transaction.QuantityOverLimit` | library/biba.h:121-124 | a quantity over 2000 gives the zero response, writes nothing and reads nothing |
| `Transaction.RequestSent` | library/biba.h:127-138 | within the limit the request frame is written, cut short only by the channel's room |
| `Transaction.ShortTransfers` | library/biba.h:138-169 | a short write, a short header, a failed allocation and a short payload each give the zero response; a short write reads nothing, a failed allocation reads nothing after the header, and a short payload leaves no buffer held |
| `Transaction.CoilsDecoded` | library/biba.h:154-171 | a `type == 1` response comes back exactly when all steps succeed with header `[0x01, N]`; then `count == N` and `elements` are the next `N` input bytes |
| `Transaction.ExceptionDecoded` | library/biba.h:173-177 | header `[0x81, e]` gives `type == 0` and `error == e`, and nothing is read after the header |
| `Transaction.ExceptionZeroIsZeroResponse` | library/biba.h:173-177 | an exception with code 0 equals the failure value `(biba_rd_coils_resp){0}` |
| `Transaction.AbortedOnUnknownCode` | library/biba.h:178-180 | the exchange stops at the unreachable assertion exactly when a full header starts with neither 0x01 nor 0x81 |
| `Transaction.ReadCoilsExchange` | library/biba.h:120-181 | what is written is a prefix of the request frame; bytes are consumed from the front of the stream and never past its end; nothing is read unless the whole request was written; a buffer is held only after a full header `[0x01, N]` with `N` bytes following |

## Left out

- Stream I/O (`fwrite`/`fread` on a `FILE*`, lines 138, 147, 164) is replaced by the `Channel` object. There is no buffering, no `errno`, and no blocking or timeouts.
- Logging (`LOGWARN`, `LOGERROR`) is left out. Those macros are not part of this model.
- The growable frame buffer (`DYNARR_INIT`, `DYNARR_APPEND`, `DYNARR_FREE`, from `scoba/dynarr.h`) is not part of this model. The frame is a `seq<bv8>` built by five appends. Line 140 reads `buffer.count` after `DYNARR_FREE`; the model compares the write count against the frame's length, 5.
- `ReadCoils`: there is no heap, so the payload buffer of lines 157-171 is its contents, a `seq<bv8>`. Its ownership is the flag `held`. It is set after a successful allocation, cleared by the `free` at line 167, and still set when the buffer goes to the caller. The allocation's size is not modelled: line 157 allocates `N` times the size of a pointer instead of `N` bytes. Whether `malloc` succeeds, including `malloc(0)` for `N == 0`, is the input flag `allocates`, since the model has no allocator.
- The run-time endianness probe through pointer aliasing (line 60) is replaced by the `ByteOrder` parameter `host`.
- Word accesses through `uint16_t*`, `uint32_t*` and `uint64_t*` casts are modelled as byte loads and stores. Alignment and strict aliasing are not modelled.
- `ChangeByteEndianess`: `count * length` is an unbounded integer, so `size_t` overflow of that product is not modelled. The region is required to fit in the array, since the source writes through the pointer without checking.
- `ReadCoils`: `assert` is modelled as in a build without `NDEBUG`. The unreachable case stops with `Aborted`. In an `NDEBUG` build it would instead fall through to the failure value at line 180.
- The `biba_pdu`/`biba_adu` structs and the other function-code constants (lines 65-92) are declared but never used. No other operation exists to model.
- RTU CRC and TCP MBAP framing are absent from the source and are not modelled.
