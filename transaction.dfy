/** The Modbus Read Coils exchange of library/biba.h (`read_coils`): frame
    the request, write it, read the two-byte response header and either the
    coil bytes or the exception code that follows.

    The byte stream is a `Channel` object; `ReadCoilsExchange` says, as a
    function of the bytes waiting on the channel and the room it has for
    writing, what one exchange returns, sends and consumes, and `ReadCoils`
    is proved to do exactly that. */
module Transaction {
  import opened Endian

  /** Function code of Read Coils (`RD_COILS`). */
  const RdCoils: bv8 := 0x01

  /** An exception response carries the function code with its top bit set. */
  const RdCoilsException: bv8 := 0x81

  /** Value of the `type` field for an exception (`BIBA_ERROR_RESPONSE`). */
  const ErrorResponse: bv8 := 0

  /** Largest quantity of coils a single request may ask for. */
  const MaxCoils: bv16 := 2000

  /** `biba_rd_coils_ok_resp`: the coil bytes and their number. */
  datatype CoilsPayload = CoilsPayload(elements: seq<bv8>, count: bv8)

  /** The union in `biba_rd_coils_resp`: the exception code or the payload. */
  datatype Items = Error(error: bv8) | Coils(resp: CoilsPayload)

  /** `biba_rd_coils_resp`: the `type` tag and the union. */
  datatype CoilsResponse = CoilsResponse(kind: bv8, items: Items)

  /** `(biba_rd_coils_resp){0}`: every failure returns this value. */
  const ZeroResponse := CoilsResponse(0, Error(0))

  /** What a call does: return a response, or stop at the source's
      `assert(0 && "unreachable")` on an unexpected function code. */
  datatype Outcome = Returned(response: CoilsResponse) | Aborted

  /** A byte stream (the `FILE*` of `biba_channel`), seen from the caller:
      the bytes it has accepted, the bytes still waiting to be read, and
      how many more bytes a write may hand over. */
  class Channel {
    var written: seq<bv8>
    var input: seq<bv8>
    var writeCapacity: nat

    /** `fwrite(data, 1, |data|, channel)`: hands over as many bytes as there
        is room for and returns their number. */
    method Write(data: seq<bv8>) returns (n: nat)
      modifies this
      ensures n == if |data| <= old(writeCapacity) then |data| else old(writeCapacity)
      ensures written == old(written) + data[..n]
      ensures writeCapacity == old(writeCapacity) - n
      ensures input == old(input)
    {
      n := if |data| <= writeCapacity then |data| else writeCapacity;
      written := written + data[..n];
      writeCapacity := writeCapacity - n;
    }

    /** `fread(buffer, 1, n, channel)`: takes up to `n` waiting bytes; fewer
        when the stream runs dry. */
    method Read(n: nat) returns (bytes: seq<bv8>)
      modifies this
      ensures |bytes| == if n <= |old(input)| then n else |old(input)|
      ensures bytes == old(input)[..|bytes|]
      ensures input == old(input)[|bytes|..]
      ensures written == old(written) && writeCapacity == old(writeCapacity)
    {
      var k := if n <= |input| then n else |input|;
      bytes := input[..k];
      input := input[k..];
    }
  }

  /** The Read Coils request: the function code, then the start address and
      the quantity, each as two big-endian bytes. */
  function RequestFrame(start: bv16, quantity: bv16): (f: seq<bv8>)
    ensures |f| == 5 && f[0] == RdCoils
    ensures ((f[1] as bv16) << 8) | (f[2] as bv16) == start
    ensures ((f[3] as bv16) << 8) | (f[4] as bv16) == quantity
  {
    [RdCoils] + BigEndian16(start) + BigEndian16(quantity)
  }

  /** One exchange, as the caller sees it: the result, the bytes written to
      the channel, the number of bytes consumed from it, and whether a
      payload buffer was allocated and is still held (not freed) on return. */
  datatype Exchange = Exchange(outcome: Outcome, sent: seq<bv8>, consumed: nat, held: bool)

  /** What `read_coils` does, given the bytes waiting on the channel, the
      room the channel has for writing and whether the payload buffer can be
      allocated. */
  function ReadCoilsExchange(start: bv16, quantity: bv16, input: seq<bv8>,
                             capacity: nat, allocates: bool): (e: Exchange)
    ensures e.sent <= RequestFrame(start, quantity)
    ensures e.consumed <= |input|
    ensures e.consumed > 0 ==> e.sent == RequestFrame(start, quantity)
    ensures e.held ==> 2 <= |input| && input[0] == RdCoils && e.consumed == 2 + input[1] as nat
  {
    if quantity > MaxCoils then Exchange(Returned(ZeroResponse), [], 0, false)
    else
      var frame := RequestFrame(start, quantity);
      if capacity < |frame| then Exchange(Returned(ZeroResponse), frame[..capacity], 0, false)
      else if |input| < 2 then Exchange(Returned(ZeroResponse), frame, |input|, false)
      else if input[0] == RdCoils then
        var n := input[1] as nat;
        if !allocates then Exchange(Returned(ZeroResponse), frame, 2, false)
        // the buffer is freed before the zero response is returned
        else if |input| < 2 + n then Exchange(Returned(ZeroResponse), frame, |input|, false)
        // the buffer goes to the caller inside the response
        else Exchange(Returned(CoilsResponse(1, Coils(CoilsPayload(input[2..2 + n], input[1])))),
                      frame, 2 + n, true)
      else if input[0] == RdCoilsException then
        Exchange(Returned(CoilsResponse(ErrorResponse, Error(input[1]))), frame, 2, false)
      else Exchange(Aborted, frame, 2, false)
  }

  /** The first `n` bytes after the first `k` are the slice `k..k+n`. */
  lemma PrefixOfSuffix(s: seq<bv8>, k: nat, n: nat)
    requires k + n <= |s|
    ensures s[k..][..n] == s[k..k + n]
  {
  }

  /** The frame buffer of `read_coils`: the function code, then the bytes
      of `htobe16(start)` and of `htobe16(count)` in memory order. Whatever
      the host, this is the big-endian request frame. */
  method BuildRequest(start: bv16, count: bv16, host: ByteOrder) returns (buffer: seq<bv8>)
    ensures buffer == RequestFrame(start, count)
  {
    buffer := [];
    var startAddr := HostToBig16(start, host);
    var quantity := HostToBig16(count, host);
    var startBytes := Store16(startAddr, host);
    var countBytes := Store16(quantity, host);
    HostToBig16Layout(start, host);
    HostToBig16Layout(count, host);
    buffer := buffer + [RdCoils];
    buffer := buffer + [startBytes[0]];
    buffer := buffer + [startBytes[1]];
    buffer := buffer + [countBytes[0]];
    buffer := buffer + [countBytes[1]];
  }

  /** `read_coils`: one request/response exchange on `biba`. Multi-byte
      fields go through `htobe16` and are appended byte by byte, in memory
      order, to the frame buffer. */
  method ReadCoils(biba: Channel, start: bv16, count: bv16, allocates: bool, host: ByteOrder)
    returns (out: Outcome, ghost held: bool)
    modifies biba
    ensures var e := ReadCoilsExchange(start, count, old(biba.input), old(biba.writeCapacity), allocates);
      && out == e.outcome
      && biba.written == old(biba.written) + e.sent
      && biba.input == old(biba.input)[e.consumed..]
      && biba.writeCapacity == old(biba.writeCapacity) - |e.sent|
      && held == e.held
  {
    held := false;
    if count > MaxCoils {
      return Returned(ZeroResponse), held;
    }
    ghost var stream := biba.input;
    var txCount := 0;

    var buffer := BuildRequest(start, count, host);
    txCount := biba.Write(buffer);
    if txCount != |buffer| {
      return Returned(ZeroResponse), held;
    }

    // the response code, then the byte count or the exception code
    var responseCode := biba.Read(2);
    txCount := |responseCode|;
    if txCount != 2 {
      return Returned(ZeroResponse), held;
    }
    assert responseCode == stream[..2] && biba.input == stream[2..];
    if responseCode[0] == RdCoils {
      if !allocates {
        return Returned(ZeroResponse), held;
      }
      held := true;
      var elements := biba.Read(responseCode[1] as nat);
      txCount := |elements|;
      if txCount != responseCode[1] as nat {
        held := false;  // free(response.items.resp.elements)
        return Returned(ZeroResponse), held;
      }
      PrefixOfSuffix(stream, 2, responseCode[1] as nat);
      assert elements == stream[2..][..responseCode[1] as nat];
      return Returned(CoilsResponse(1, Coils(CoilsPayload(elements, responseCode[1])))), held;
    } else if responseCode[0] == RdCoilsException {
      return Returned(CoilsResponse(ErrorResponse, Error(responseCode[1]))), held;
    }
    out := Aborted;
  }

  // -----------------------------------------------------------------------
  // Properties of the exchange
  // -----------------------------------------------------------------------

  /** Asking for more than 2000 coils fails before any I/O. */
  lemma QuantityOverLimit(start: bv16, quantity: bv16, input: seq<bv8>, capacity: nat, allocates: bool)
    requires quantity > MaxCoils
    ensures ReadCoilsExchange(start, quantity, input, capacity, allocates)
         == Exchange(Returned(ZeroResponse), [], 0, false)
  {
  }

  /** Within the limit the request is always attempted: what is written is
      the frame, cut short only by the channel's room. */
  lemma RequestSent(start: bv16, quantity: bv16, input: seq<bv8>, capacity: nat, allocates: bool)
    requires quantity <= MaxCoils
    ensures var e := ReadCoilsExchange(start, quantity, input, capacity, allocates);
      e.sent == RequestFrame(start, quantity)[..if capacity < 5 then capacity else 5]
  {
  }

  /** Every short transfer yields the zero response and stops the steps
      after it: a short write reads nothing; a short header or a short
      payload ends the exchange with what was available consumed. */
  lemma ShortTransfers(start: bv16, quantity: bv16, input: seq<bv8>, capacity: nat, allocates: bool)
    requires quantity <= MaxCoils
    ensures var e := ReadCoilsExchange(start, quantity, input, capacity, allocates);
      && (capacity < 5 ==> e.outcome == Returned(ZeroResponse) && e.consumed == 0)
      && (capacity >= 5 && |input| < 2 ==> e.outcome == Returned(ZeroResponse))
      && (capacity >= 5 && 2 <= |input| < 2 + input[1] as nat && input[0] == RdCoils
          ==> e.outcome == Returned(ZeroResponse) && !e.held)
      && (capacity >= 5 && 2 <= |input| && input[0] == RdCoils && !allocates
          ==> e.outcome == Returned(ZeroResponse) && e.consumed == 2)
  {
  }

  /** A success response is returned exactly when everything went through
      and the header announced the Read Coils code; it then holds exactly
      the `N` bytes that followed the header `[0x01, N]`. */
  lemma CoilsDecoded(start: bv16, quantity: bv16, input: seq<bv8>, capacity: nat, allocates: bool)
    ensures var e := ReadCoilsExchange(start, quantity, input, capacity, allocates);
      (e.outcome.Returned? && e.outcome.response.kind == 1)
      <==> (quantity <= MaxCoils && capacity >= 5 && 2 <= |input| && input[0] == RdCoils
            && allocates && 2 + input[1] as nat <= |input|)
    ensures var e := ReadCoilsExchange(start, quantity, input, capacity, allocates);
      e.outcome.Returned? && e.outcome.response.kind == 1 ==>
        && e.outcome.response.items.Coils?
        && var resp := e.outcome.response.items.resp;
        && resp.count == input[1]
        && |resp.elements| == input[1] as nat
        && resp.elements == input[2..2 + input[1] as nat]
        && e.consumed == 2 + input[1] as nat
  {
  }

  /** The payload buffer outlives the call exactly when a Read Coils
      response is returned: every failure after the allocation frees it, and
      on success it passes to the caller inside the response. */
  lemma PayloadBufferOwnership(start: bv16, quantity: bv16, input: seq<bv8>, capacity: nat, allocates: bool)
    ensures var e := ReadCoilsExchange(start, quantity, input, capacity, allocates);
      e.held <==> (e.outcome.Returned? && e.outcome.response.kind == 1)
  {
  }

  /** A header `[0x81, e]` yields the exception response carrying `e`, and
      nothing past the header is read. */
  lemma ExceptionDecoded(start: bv16, quantity: bv16, input: seq<bv8>, capacity: nat, allocates: bool)
    requires quantity <= MaxCoils && capacity >= 5 && 2 <= |input| && input[0] == RdCoilsException
    ensures var e := ReadCoilsExchange(start, quantity, input, capacity, allocates);
      e.outcome == Returned(CoilsResponse(ErrorResponse, Error(input[1]))) && e.consumed == 2
  {
  }

  /** An exception response with code 0 is the very value every failure
      returns: the caller cannot tell the two apart. */
  lemma ExceptionZeroIsZeroResponse(start: bv16, quantity: bv16, input: seq<bv8>, capacity: nat, allocates: bool)
    requires quantity <= MaxCoils && capacity >= 5 && 2 <= |input|
    requires input[0] == RdCoilsException && input[1] == 0
    ensures ReadCoilsExchange(start, quantity, input, capacity, allocates).outcome
         == Returned(ZeroResponse)
  {
  }

  /** The exchange aborts exactly when a full header arrived whose first
      byte is neither the function code nor the exception code. */
  lemma AbortedOnUnknownCode(start: bv16, quantity: bv16, input: seq<bv8>, capacity: nat, allocates: bool)
    ensures ReadCoilsExchange(start, quantity, input, capacity, allocates).outcome == Aborted
      <==> (quantity <= MaxCoils && capacity >= 5 && 2 <= |input|
            && input[0] != RdCoils && input[0] != RdCoilsException)
  {
  }
}
