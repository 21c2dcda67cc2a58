/** Byte-order normalisation of arrays of fixed-width integers, as done by
    `change_byte_endianess` and `swap_host_local_endian` in library/biba.h.

    A buffer is read as `count` consecutive elements of `length` bytes each;
    normalising it reverses the bytes of every element in place. Widths 2, 4
    and 8 go through a word load, a `bswap_16/32/64` and a word store; every
    other width goes through a byte-by-byte half-swap. Both are proved to be
    the same per-element reversal, `ElementsReversed`. */
module Endian {

  /** Native byte order of the host: how a word is laid out in memory. */
  datatype ByteOrder = LittleEndian | BigEndian

  // ---------------------------------------------------------------------
  // Words and their bytes (the standard byteswap.h definitions)
  // ---------------------------------------------------------------------

  function Bswap16(x: bv16): bv16 {
    ((x >> 8) & 0xff) | ((x & 0xff) << 8)
  }

  function Bswap32(x: bv32): bv32 {
    ((x & 0xff000000) >> 24) | ((x & 0x00ff0000) >> 8) |
    ((x & 0x0000ff00) << 8) | ((x & 0x000000ff) << 24)
  }

  function Bswap64(x: bv64): bv64 {
    ((x & 0xff00000000000000) >> 56) | ((x & 0x00ff000000000000) >> 40) |
    ((x & 0x0000ff0000000000) >> 24) | ((x & 0x000000ff00000000) >> 8) |
    ((x & 0x00000000ff000000) << 8) | ((x & 0x0000000000ff0000) << 24) |
    ((x & 0x000000000000ff00) << 40) | ((x & 0x00000000000000ff) << 56)
  }

  /** Byte `k` of `x`, counting from the least significant one. */
  function Byte16(x: bv16, k: bv5): bv8
    requires k < 2
  {
    ((x >> (8 * k)) & 0xff) as bv8
  }

  function Byte32(x: bv32, k: bv6): bv8
    requires k < 4
  {
    ((x >> (8 * k)) & 0xff) as bv8
  }

  function Byte64(x: bv64, k: bv7): bv8
    requires k < 8
  {
    ((x >> (8 * k)) & 0xff) as bv8
  }

  /** The word whose bytes, least significant first, are the arguments. */
  function Join16(b0: bv8, b1: bv8): bv16 {
    (b0 as bv16) | ((b1 as bv16) << 8)
  }

  function Join32(b0: bv8, b1: bv8, b2: bv8, b3: bv8): bv32 {
    (b0 as bv32) | ((b1 as bv32) << 8) | ((b2 as bv32) << 16) | ((b3 as bv32) << 24)
  }

  function Join64(b0: bv8, b1: bv8, b2: bv8, b3: bv8, b4: bv8, b5: bv8, b6: bv8, b7: bv8): bv64 {
    (b0 as bv64) | ((b1 as bv64) << 8) | ((b2 as bv64) << 16) | ((b3 as bv64) << 24) |
    ((b4 as bv64) << 32) | ((b5 as bv64) << 40) | ((b6 as bv64) << 48) | ((b7 as bv64) << 56)
  }

  /** Reading a word out of memory (`pointer[index]` on a `uint16_t*`, ...):
      the bytes `m` are taken in the host's order. */
  function Load16(m: seq<bv8>, host: ByteOrder): bv16
    requires |m| == 2
  {
    if host == LittleEndian then Join16(m[0], m[1]) else Join16(m[1], m[0])
  }

  function Load32(m: seq<bv8>, host: ByteOrder): bv32
    requires |m| == 4
  {
    if host == LittleEndian then Join32(m[0], m[1], m[2], m[3])
    else Join32(m[3], m[2], m[1], m[0])
  }

  function Load64(m: seq<bv8>, host: ByteOrder): bv64
    requires |m| == 8
  {
    if host == LittleEndian then Join64(m[0], m[1], m[2], m[3], m[4], m[5], m[6], m[7])
    else Join64(m[7], m[6], m[5], m[4], m[3], m[2], m[1], m[0])
  }

  /** Writing a word into memory: the bytes it occupies, in address order. */
  function Store16(x: bv16, host: ByteOrder): seq<bv8> {
    if host == LittleEndian then [Byte16(x, 0), Byte16(x, 1)]
    else [Byte16(x, 1), Byte16(x, 0)]
  }

  function Store32(x: bv32, host: ByteOrder): seq<bv8> {
    if host == LittleEndian then [Byte32(x, 0), Byte32(x, 1), Byte32(x, 2), Byte32(x, 3)]
    else [Byte32(x, 3), Byte32(x, 2), Byte32(x, 1), Byte32(x, 0)]
  }

  function Store64(x: bv64, host: ByteOrder): seq<bv8> {
    if host == LittleEndian then
      [Byte64(x, 0), Byte64(x, 1), Byte64(x, 2), Byte64(x, 3),
       Byte64(x, 4), Byte64(x, 5), Byte64(x, 6), Byte64(x, 7)]
    else
      [Byte64(x, 7), Byte64(x, 6), Byte64(x, 5), Byte64(x, 4),
       Byte64(x, 3), Byte64(x, 2), Byte64(x, 1), Byte64(x, 0)]
  }

  /** The bytes of `s` in the opposite order. */
  function Reversed(s: seq<bv8>): seq<bv8> {
    seq(|s|, k requires 0 <= k < |s| => s[|s| - 1 - k])
  }

  // The byte swaps on joined bytes, one byte at a time: kept apart from
  // sequences so that the solver only sees bit-vectors here.

  lemma SwapJoined16(b0: bv8, b1: bv8)
    ensures var x := Bswap16(Join16(b0, b1));
      Byte16(x, 0) == b1 && Byte16(x, 1) == b0
  {
  }

  lemma SwapJoined32(b0: bv8, b1: bv8, b2: bv8, b3: bv8)
    ensures var x := Bswap32(Join32(b0, b1, b2, b3));
      Byte32(x, 0) == b3 && Byte32(x, 1) == b2 && Byte32(x, 2) == b1 && Byte32(x, 3) == b0
  {
  }

  lemma SwapJoined64(b0: bv8, b1: bv8, b2: bv8, b3: bv8, b4: bv8, b5: bv8, b6: bv8, b7: bv8)
    ensures var x := Bswap64(Join64(b0, b1, b2, b3, b4, b5, b6, b7));
      Byte64(x, 0) == b7 && Byte64(x, 1) == b6 && Byte64(x, 2) == b5 && Byte64(x, 3) == b4 &&
      Byte64(x, 4) == b3 && Byte64(x, 5) == b2 && Byte64(x, 6) == b1 && Byte64(x, 7) == b0
  {
  }

  // A word and its bytes, kept on scalars as for the swaps above.

  lemma JoinBytes16(x: bv16)
    ensures Join16(Byte16(x, 0), Byte16(x, 1)) == x
  {
  }

  lemma JoinBytes32(x: bv32)
    ensures Join32(Byte32(x, 0), Byte32(x, 1), Byte32(x, 2), Byte32(x, 3)) == x
  {
  }

  lemma JoinBytes64(x: bv64)
    ensures Join64(Byte64(x, 0), Byte64(x, 1), Byte64(x, 2), Byte64(x, 3),
                   Byte64(x, 4), Byte64(x, 5), Byte64(x, 6), Byte64(x, 7)) == x
  {
  }

  lemma BytesOfJoin16(b0: bv8, b1: bv8)
    ensures var x := Join16(b0, b1); Byte16(x, 0) == b0 && Byte16(x, 1) == b1
  {
  }

  lemma BytesOfJoin32(b0: bv8, b1: bv8, b2: bv8, b3: bv8)
    ensures var x := Join32(b0, b1, b2, b3);
      Byte32(x, 0) == b0 && Byte32(x, 1) == b1 && Byte32(x, 2) == b2 && Byte32(x, 3) == b3
  {
  }

  lemma BytesOfJoin64(b0: bv8, b1: bv8, b2: bv8, b3: bv8, b4: bv8, b5: bv8, b6: bv8, b7: bv8)
    ensures var x := Join64(b0, b1, b2, b3, b4, b5, b6, b7);
      Byte64(x, 0) == b0 && Byte64(x, 1) == b1 && Byte64(x, 2) == b2 && Byte64(x, 3) == b3 &&
      Byte64(x, 4) == b4 && Byte64(x, 5) == b5 && Byte64(x, 6) == b6 && Byte64(x, 7) == b7
  {
  }

  // A word load and a word store on the same host undo each other.

  lemma LoadStore16(x: bv16, host: ByteOrder)
    ensures Load16(Store16(x, host), host) == x
  {
    JoinBytes16(x);
  }

  lemma LoadStore32(x: bv32, host: ByteOrder)
    ensures Load32(Store32(x, host), host) == x
  {
    JoinBytes32(x);
  }

  lemma LoadStore64(x: bv64, host: ByteOrder)
    ensures Load64(Store64(x, host), host) == x
  {
    JoinBytes64(x);
  }

  lemma StoreLoad16(m: seq<bv8>, host: ByteOrder)
    requires |m| == 2
    ensures Store16(Load16(m, host), host) == m
  {
    if host == LittleEndian { BytesOfJoin16(m[0], m[1]); } else { BytesOfJoin16(m[1], m[0]); }
  }

  lemma StoreLoad32(m: seq<bv8>, host: ByteOrder)
    requires |m| == 4
    ensures Store32(Load32(m, host), host) == m
  {
    if host == LittleEndian {
      BytesOfJoin32(m[0], m[1], m[2], m[3]);
    } else {
      BytesOfJoin32(m[3], m[2], m[1], m[0]);
    }
  }

  lemma StoreLoad64(m: seq<bv8>, host: ByteOrder)
    requires |m| == 8
    ensures Store64(Load64(m, host), host) == m
  {
    if host == LittleEndian {
      BytesOfJoin64(m[0], m[1], m[2], m[3], m[4], m[5], m[6], m[7]);
    } else {
      BytesOfJoin64(m[7], m[6], m[5], m[4], m[3], m[2], m[1], m[0]);
    }
  }

  /** Loading a 2-byte element, swapping it and storing it back reverses its
      bytes, whatever the host's byte order. */
  lemma WordSwapReverses16(m: seq<bv8>, host: ByteOrder)
    requires |m| == 2
    ensures Store16(Bswap16(Load16(m, host)), host) == Reversed(m)
  {
    if host == LittleEndian { SwapJoined16(m[0], m[1]); } else { SwapJoined16(m[1], m[0]); }
  }

  lemma WordSwapReverses32(m: seq<bv8>, host: ByteOrder)
    requires |m| == 4
    ensures Store32(Bswap32(Load32(m, host)), host) == Reversed(m)
  {
    if host == LittleEndian {
      SwapJoined32(m[0], m[1], m[2], m[3]);
    } else {
      SwapJoined32(m[3], m[2], m[1], m[0]);
    }
  }

  lemma WordSwapReverses64(m: seq<bv8>, host: ByteOrder)
    requires |m| == 8
    ensures Store64(Bswap64(Load64(m, host)), host) == Reversed(m)
  {
    if host == LittleEndian {
      SwapJoined64(m[0], m[1], m[2], m[3], m[4], m[5], m[6], m[7]);
    } else {
      SwapJoined64(m[7], m[6], m[5], m[4], m[3], m[2], m[1], m[0]);
    }
  }

  // ---------------------------------------------------------------------
  // The specification: every element reversed, the rest untouched
  // ---------------------------------------------------------------------

  /** The position whose byte lands at position `p` when `p`'s element is
      reversed: byte `j` of element `i` comes from byte `length-1-j`. */
  function Mirror(p: nat, length: nat): nat
    requires 0 < length
  {
    (p / length) * length + (length - 1 - p % length)
  }

  lemma MulAtLeast(a: int, b: nat)
    requires 1 <= a
    ensures a * b >= b
  {
    assert a * b == (a - 1) * b + b;
  }

  lemma MulMonotone(a: nat, b: nat, c: nat)
    requires a <= b
    ensures a * c <= b * c
  {
    if a < b {
      MulAtLeast(b - a, c);
      assert b * c == (b - a) * c + a * c;
    }
  }

  /** Offset `j` inside element `i` divides back into `i` and `j`. */
  lemma DivModOfOffset(i: nat, j: nat, length: nat)
    requires j < length
    ensures (i * length + j) / length == i && (i * length + j) % length == j
  {
    var p := i * length + j;
    var q, r := p / length, p % length;
    assert p == q * length + r;
    assert (q - i) * length == j - r;
    if q > i {
      MulAtLeast(q - i, length);
    } else if q < i {
      MulAtLeast(i - q, length);
    }
  }

  /** An element that starts inside the region ends inside it. */
  lemma ElementInRegion(i: nat, count: nat, length: nat)
    requires i < count
    ensures i * length + length <= count * length
  {
    MulMonotone(i + 1, count, length);
  }

  /** Mirroring keeps a position inside its element and inside the region. */
  lemma MirrorWithin(p: nat, count: nat, length: nat)
    requires 0 < length && p < count * length
    ensures Mirror(p, length) < count * length
    ensures Mirror(p, length) / length == p / length
    ensures Mirror(p, length) % length == length - 1 - p % length
  {
    var i, j := p / length, p % length;
    assert p == i * length + j;
    DivModOfOffset(i, length - 1 - j, length);
    if i >= count {
      MulMonotone(count, i, length);
    }
    ElementInRegion(i, count, length);
  }

  /** Mirroring twice gives the position back: the byte at offset
      `length - 1 - j` goes back to offset `j` of the same element. */
  lemma MirrorTwice(p: nat, length: nat)
    requires 0 < length
    ensures Mirror(Mirror(p, length), length) == p
  {
    var i, j := p / length, p % length;
    assert p == i * length + j;
    DivModOfOffset(i, length - 1 - j, length);
  }

  /** The buffer `s` with each of its first `count` elements of `length`
      bytes reversed; with `length <= 1` nothing is reversed. */
  function ElementsReversed(s: seq<bv8>, count: nat, length: nat): (r: seq<bv8>)
    requires length <= 1 || count * length <= |s|
    ensures |r| == |s|
  {
    seq(|s|, p requires 0 <= p < |s| =>
      if 2 <= length && p < count * length then
        MirrorWithin(p, count, length);
        s[Mirror(p, length)]
      else s[p])
  }

  /** Byte `p` of element `i` of the result is the original byte at the
      mirrored offset of the same element. */
  lemma ElementsReversedOnElement(s: seq<bv8>, count: nat, length: nat, i: nat)
    requires 2 <= length && count * length <= |s| && i < count
    ensures i * length + length <= count * length
    ensures forall p :: i * length <= p < i * length + length ==>
      ElementsReversed(s, count, length)[p] == s[2 * (i * length) + length - 1 - p]
  {
    ElementInRegion(i, count, length);
    var base := i * length;
    forall p | base <= p < base + length
      ensures ElementsReversed(s, count, length)[p] == s[2 * base + length - 1 - p]
    {
      DivModOfOffset(i, p - base, length);
      assert Mirror(p, length) == 2 * base + length - 1 - p;
    }
  }

  /** The reference definition: slice by slice, every element is `Reversed`
      and the bytes after the last element are unchanged. */
  lemma ElementsReversedByElement(s: seq<bv8>, count: nat, length: nat, i: nat)
    requires 2 <= length && count * length <= |s| && i < count
    ensures i * length + length <= |s|
    ensures ElementsReversed(s, count, length)[i * length..i * length + length]
         == Reversed(s[i * length..i * length + length])
    ensures ElementsReversed(s, count, length)[count * length..] == s[count * length..]
  {
    ElementsReversedOnElement(s, count, length, i);
    var base, r := i * length, ElementsReversed(s, count, length);
    var element, reversed := r[base..base + length], Reversed(s[base..base + length]);
    forall k | 0 <= k < length ensures element[k] == reversed[k] {
      assert r[base + k] == s[base + length - 1 - k];
    }
    var rTail, sTail := r[count * length..], s[count * length..];
    forall k | 0 <= k < |sTail| ensures rTail[k] == sTail[k] {
      assert r[count * length + k] == s[count * length + k];
    }
  }

  /** The other direction of `ElementsReversedOnElement`: every byte of the
      region moves to its mirrored offset, so no byte is lost or duplicated. */
  lemma ElementsReversedMovesByte(s: seq<bv8>, count: nat, length: nat)
    requires 2 <= length && count * length <= |s|
    ensures forall p :: 0 <= p < count * length ==>
      Mirror(p, length) < count * length && ElementsReversed(s, count, length)[Mirror(p, length)] == s[p]
  {
    forall p | 0 <= p < count * length
      ensures Mirror(p, length) < count * length
      ensures ElementsReversed(s, count, length)[Mirror(p, length)] == s[p]
    {
      MirrorWithin(p, count, length);
      MirrorTwice(p, length);
    }
  }

  /** With `length <= 1` the buffer is left as it is (the source's assertion
      there always passes, so the call is a silent no-op). */
  lemma ElementsReversedTrivial(s: seq<bv8>, count: nat, length: nat)
    requires length <= 1
    ensures ElementsReversed(s, count, length) == s
  {
  }

  /** The reference definition, element by element: the first element
      reversed, followed by the rest of the buffer with the remaining
      `count - 1` elements reversed. */
  function ReverseElements(s: seq<bv8>, count: nat, length: nat): (r: seq<bv8>)
    requires count * length <= |s|
    ensures |r| == |s|
  {
    if count == 0 then s
    else Reversed(s[..length]) + ReverseElements(s[length..], count - 1, length)
  }

  /** Reversing a slice twice restores it. */
  lemma ReversedTwice(s: seq<bv8>)
    ensures Reversed(Reversed(s)) == s
  {
  }

  /** Normalising twice with the same `count` and `length` restores the
      buffer, element by element. */
  lemma {:induction false} ReverseElementsTwice(s: seq<bv8>, count: nat, length: nat)
    requires count * length <= |s|
    ensures ReverseElements(ReverseElements(s, count, length), count, length) == s
  {
    if count > 0 {
      MulAtLeast(count, length);
      var r, t := ReverseElements(s, count, length), s[length..];
      assert r[..length] == Reversed(s[..length]);
      assert r[length..] == ReverseElements(t, count - 1, length);
      ReverseElementsTwice(t, count - 1, length);
      ReversedTwice(s[..length]);
      assert s == s[..length] + t;
    }
  }

  /** Moving one element further moves the mirrored position by as much. */
  lemma MirrorShift(q: nat, length: nat)
    requires 0 < length
    ensures Mirror(q + length, length) == Mirror(q, length) + length
  {
    assert q == (q / length) * length + q % length;
    DivModOfOffset(q / length + 1, q % length, length);
  }

  /** The positional specification peels off its first element like the
      reference definition does. */
  lemma ElementsReversedPeel(s: seq<bv8>, count: nat, length: nat)
    requires 2 <= length && 0 < count && count * length <= |s|
    ensures ElementsReversed(s, count, length)
         == Reversed(s[..length]) + ElementsReversed(s[length..], count - 1, length)
  {
    MulAtLeast(count, length);
    assert (count - 1) * length == count * length - length;
    var r, t := ElementsReversed(s, count, length), s[length..];
    var head, rt := Reversed(s[..length]), ElementsReversed(t, count - 1, length);
    forall p | 0 <= p < length ensures r[p] == head[p] {
      DivModOfOffset(0, p, length);
    }
    forall q | 0 <= q < |t| ensures r[q + length] == rt[q] {
      if q < (count - 1) * length {
        MirrorShift(q, length);
        MirrorWithin(q, count - 1, length);
        assert rt[q] == t[Mirror(q, length)] == s[Mirror(q + length, length)];
      } else {
        assert rt[q] == t[q] == s[q + length];
      }
    }
    assert r == head + rt;
  }

  /** The positional specification and the reference definition agree. */
  lemma {:induction false} ElementsReversedIsReverseElements(s: seq<bv8>, count: nat, length: nat)
    requires 2 <= length && count * length <= |s|
    ensures ElementsReversed(s, count, length) == ReverseElements(s, count, length)
  {
    if count > 0 {
      ElementsReversedPeel(s, count, length);
      ElementsReversedIsReverseElements(s[length..], count - 1, length);
    }
  }

  /** Reversing the elements twice restores the buffer. */
  lemma ElementsReversedTwice(s: seq<bv8>, count: nat, length: nat)
    requires length <= 1 || count * length <= |s|
    ensures ElementsReversed(ElementsReversed(s, count, length), count, length) == s
  {
    if 2 <= length {
      var r := ElementsReversed(s, count, length);
      ElementsReversedIsReverseElements(s, count, length);
      ElementsReversedIsReverseElements(r, count, length);
      ReverseElementsTwice(s, count, length);
    }
  }

  // ---------------------------------------------------------------------
  // The in-place operations
  // ---------------------------------------------------------------------

  /** Stores `bytes` at `a[off..]` in one step, as a word store does. */
  method PutBytes(a: array<bv8>, off: nat, bytes: seq<bv8>)
    requires off + |bytes| <= a.Length
    modifies a
    ensures forall p :: 0 <= p < a.Length ==>
      a[p] == if off <= p < off + |bytes| then bytes[p - off] else old(a[p])
  {
    forall p | off <= p < off + |bytes| {
      a[p] := bytes[p - off];
    }
  }

  /** `pointer[index] = bswap_16(pointer[index])` on the element at `off`. */
  method SwapWordAt16(a: array<bv8>, off: nat, host: ByteOrder)
    requires off + 2 <= a.Length
    modifies a
    ensures forall p :: 0 <= p < a.Length ==>
      a[p] == if off <= p < off + 2 then old(a[2 * off + 1 - p]) else old(a[p])
  {
    var m := a[off..off + 2];
    var word := Bswap16(Load16(m, host));
    var bytes := Store16(word, host);
    WordSwapReverses16(m, host);
    assert bytes == Reversed(m);
    PutBytes(a, off, bytes);
  }

  /** The `case 2` path of the switch. */
  method SwapEach16(a: array<bv8>, count: nat, host: ByteOrder)
    requires count * 2 <= a.Length
    modifies a
    ensures a[..] == ElementsReversed(old(a[..]), count, 2)
  {
    ghost var s := a[..];
    ghost var r := ElementsReversed(s, count, 2);
    var index, base := 0, 0;
    while index < count
      invariant index <= count && base == index * 2
      invariant forall p :: 0 <= p < base ==> a[p] == r[p]
      invariant forall p :: base <= p < a.Length ==> a[p] == s[p]
    {
      ElementsReversedOnElement(s, count, 2, index);
      SwapWordAt16(a, base, host);
      index, base := index + 1, base + 2;
    }
    assert a[..] == r;
  }

  /** `pointer[index] = bswap_32(pointer[index])` on the element at `off`. */
  method SwapWordAt32(a: array<bv8>, off: nat, host: ByteOrder)
    requires off + 4 <= a.Length
    modifies a
    ensures forall p :: 0 <= p < a.Length ==>
      a[p] == if off <= p < off + 4 then old(a[2 * off + 3 - p]) else old(a[p])
  {
    var m := a[off..off + 4];
    var word := Bswap32(Load32(m, host));
    var bytes := Store32(word, host);
    WordSwapReverses32(m, host);
    assert bytes == Reversed(m);
    PutBytes(a, off, bytes);
  }

  /** The `case 4` path of the switch. */
  method SwapEach32(a: array<bv8>, count: nat, host: ByteOrder)
    requires count * 4 <= a.Length
    modifies a
    ensures a[..] == ElementsReversed(old(a[..]), count, 4)
  {
    ghost var s := a[..];
    ghost var r := ElementsReversed(s, count, 4);
    var index, base := 0, 0;
    while index < count
      invariant index <= count && base == index * 4
      invariant forall p :: 0 <= p < base ==> a[p] == r[p]
      invariant forall p :: base <= p < a.Length ==> a[p] == s[p]
    {
      ElementsReversedOnElement(s, count, 4, index);
      SwapWordAt32(a, base, host);
      index, base := index + 1, base + 4;
    }
    assert a[..] == r;
  }

  /** `pointer[index] = bswap_64(pointer[index])` on the element at `off`. */
  method SwapWordAt64(a: array<bv8>, off: nat, host: ByteOrder)
    requires off + 8 <= a.Length
    modifies a
    ensures forall p :: 0 <= p < a.Length ==>
      a[p] == if off <= p < off + 8 then old(a[2 * off + 7 - p]) else old(a[p])
  {
    var m := a[off..off + 8];
    var word := Bswap64(Load64(m, host));
    var bytes := Store64(word, host);
    WordSwapReverses64(m, host);
    assert bytes == Reversed(m);
    PutBytes(a, off, bytes);
  }

  /** The `case 8` path of the switch. */
  method SwapEach64(a: array<bv8>, count: nat, host: ByteOrder)
    requires count * 8 <= a.Length
    modifies a
    ensures a[..] == ElementsReversed(old(a[..]), count, 8)
  {
    ghost var s := a[..];
    ghost var r := ElementsReversed(s, count, 8);
    var index, base := 0, 0;
    while index < count
      invariant index <= count && base == index * 8
      invariant forall p :: 0 <= p < base ==> a[p] == r[p]
      invariant forall p :: base <= p < a.Length ==> a[p] == s[p]
    {
      ElementsReversedOnElement(s, count, 8, index);
      SwapWordAt64(a, base, host);
      index, base := index + 1, base + 8;
    }
    assert a[..] == r;
  }

  /** The inner loop of the generic path: the element of `length` bytes at
      `base` (the source's advancing `pointer`) has its outer bytes swapped
      pairwise, `length / 2` times, through the one-byte `buffer`. */
  method ReverseElementAt(a: array<bv8>, base: nat, length: nat)
    requires base + length <= a.Length
    modifies a
    ensures forall p :: 0 <= p < a.Length ==>
      a[p] == if base <= p < base + length then old(a[2 * base + length - 1 - p]) else old(a[p])
  {
    var lengthHalf := length / 2;
    var jndex := 0;
    while jndex < lengthHalf
      invariant jndex <= lengthHalf
      invariant forall p :: 0 <= p < base ==> a[p] == old(a[p])
      invariant forall p :: base + length <= p < a.Length ==> a[p] == old(a[p])
      invariant forall p :: base <= p < base + jndex ==> a[p] == old(a[2 * base + length - 1 - p])
      invariant forall p :: base + length - jndex <= p < base + length ==>
        a[p] == old(a[2 * base + length - 1 - p])
      invariant forall p :: base + jndex <= p < base + length - jndex ==> a[p] == old(a[p])
    {
      var buffer := a[base + jndex];
      a[base + jndex] := a[base + length - jndex - 1];
      a[base + length - jndex - 1] := buffer;
      jndex := jndex + 1;
    }
  }

  /** The generic path for every other width: element after element, with
      `base` advancing by `length`. */
  method ReverseEachElement(a: array<bv8>, count: nat, length: nat)
    requires 2 <= length && count * length <= a.Length
    modifies a
    ensures a[..] == ElementsReversed(old(a[..]), count, length)
  {
    ghost var s := a[..];
    ghost var r := ElementsReversed(s, count, length);
    var index, base := 0, 0;
    while index < count
      invariant index <= count && base == index * length
      invariant forall p :: 0 <= p < base ==> a[p] == r[p]
      invariant forall p :: base <= p < a.Length ==> a[p] == s[p]
    {
      ElementsReversedOnElement(s, count, length, index);
      ReverseElementAt(a, base, length);
      index, base := index + 1, base + length;
    }
    assert a[..] == r;
  }

  /** `change_byte_endianess`: reverses the bytes of each of `count`
      elements of `length` bytes at the start of `a`. The word paths and the
      generic path meet the same postcondition. */
  method ChangeByteEndianess(a: array<bv8>, count: nat, length: nat, host: ByteOrder)
    requires length <= 1 || count * length <= a.Length
    modifies a
    ensures a[..] == ElementsReversed(old(a[..]), count, length)
    ensures 2 <= length ==> a[..] == ReverseElements(old(a[..]), count, length)
    ensures length <= 1 ==> a[..] == old(a[..])
  {
    if 2 <= length {
      ElementsReversedIsReverseElements(a[..], count, length);
    }
    if length <= 1 {
      return;
    }
    if length == 2 {
      SwapEach16(a, count, host);
      return;
    } else if length == 4 {
      SwapEach32(a, count, host);
      return;
    } else if length == 8 {
      SwapEach64(a, count, host);
      return;
    }
    ReverseEachElement(a, count, length);
  }

  /** `swap_host_local_endian`: converts between host order and big-endian
      order, so it reverses the elements on a little-endian host only. */
  method SwapHostLocalEndian(a: array<bv8>, count: nat, length: nat, host: ByteOrder)
    requires host == BigEndian || length <= 1 || count * length <= a.Length
    modifies a
    ensures host == LittleEndian ==> a[..] == ElementsReversed(old(a[..]), count, length)
    ensures host == BigEndian ==> a[..] == old(a[..])
  {
    if host == LittleEndian {
      ChangeByteEndianess(a, count, length, host);
    }
  }

  // ---------------------------------------------------------------------
  // Host-to-big-endian conversion of a single 16-bit field
  // ---------------------------------------------------------------------

  /** `htobe16`: the value whose in-memory bytes on `host` are the
      big-endian bytes of `x`. */
  function HostToBig16(x: bv16, host: ByteOrder): (r: bv16)
    ensures r == Load16(BigEndian16(x), host)
  {
    if host == LittleEndian then Bswap16(x) else x
  }

  /** The big-endian encoding of a 16-bit value: high byte first. */
  function BigEndian16(x: bv16): (b: seq<bv8>)
    ensures |b| == 2 && ((b[0] as bv16) << 8) | (b[1] as bv16) == x
  {
    [(x >> 8) as bv8, (x & 0xff) as bv8]
  }

  /** `bswap_16` exchanges the two bytes of a value. */
  lemma Bswap16Bytes(x: bv16)
    ensures Byte16(Bswap16(x), 0) == Byte16(x, 1) == (x >> 8) as bv8
    ensures Byte16(Bswap16(x), 1) == Byte16(x, 0) == (x & 0xff) as bv8
  {
  }

  /** Whatever the host, the memory bytes of `htobe16(x)` are `x` in
      big-endian order. */
  lemma HostToBig16Layout(x: bv16, host: ByteOrder)
    ensures Store16(HostToBig16(x, host), host) == BigEndian16(x)
  {
    Bswap16Bytes(x);
  }

  /** `htobe16` on a field does to its bytes what `swap_host_local_endian`
      does to a one-element, 2-byte buffer holding it. */
  lemma HostToBig16IsSwapHostLocal(x: bv16, host: ByteOrder)
    ensures var m := Store16(x, host);
      Store16(HostToBig16(x, host), host)
      == (if host == LittleEndian then ElementsReversed(m, 1, 2) else m)
  {
    var m := Store16(x, host);
    if host == LittleEndian {
      Bswap16Bytes(x);
      ElementsReversedByElement(m, 1, 2, 0);
      assert ElementsReversed(m, 1, 2) == ElementsReversed(m, 1, 2)[0..2];
      assert Reversed(m[0..2]) == [m[1], m[0]];
    }
  }
}
