/** Base-128 variable-length integers as `encoding/binary` writes and reads them,
    and the size arithmetic `getNeededSize` builds on them. */
module Varint {
  import opened Bytes

  // The header buffer has room for five bytes (binary.MaxVarintLen32), so
  // 2^35 is the first number whose encoding does not fit in it.
  const HEADER_BUFFER_SIZE := 5
  const VARINT_LIMIT := 0x8_0000_0000

  /** Seven bits a byte, least significant group first, high bit on all but the last.
      An encoding is never longer than the number itself, so a filler block of any size
      has room for its own header. */
  function Encode(x: nat): (s: seq<byte>)
    ensures |s| >= 1
    ensures x >= 1 ==> |s| <= x
  {
    if x < 128 then [x] else [x % 128 + 128] + Encode(x / 128)
  }

  datatype Decoded = Decoded(value: nat, n: int)

  /** What binary.Uvarint reports when it has reached byte `i` of `s`:
      n == 0 when the buffer ends too early, n < 0 when the value overflows 64 bits. */
  function Uvarint(s: seq<byte>, i: nat): Decoded
    requires i <= |s|
    decreases |s| - i
  {
    if i == |s| then Decoded(0, 0)
    else if i == 10 then Decoded(0, -(i + 1))
    else if s[i] < 128 then
      if i == 9 && s[i] > 1 then Decoded(0, -(i + 1)) else Decoded(s[i], i + 1)
    else
      var rest := Uvarint(s, i + 1);
      if rest.n <= 0 then rest else Decoded(s[i] - 128 + 128 * rest.value, rest.n)
  }

  /** Decoding undoes encoding, whatever follows the encoding, for every number that takes
      at most nine bytes. */
  lemma DecodeEncode(x: nat, rest: seq<byte>)
    requires |Encode(x)| <= 9
    ensures Uvarint(Encode(x) + rest, 0) == Decoded(x, |Encode(x)|)
  {
    DecodeFrom([], x, rest);
    assert [] + Encode(x) + rest == Encode(x) + rest;
  }

  lemma {:induction false} DecodeFrom(pre: seq<byte>, x: nat, rest: seq<byte>)
    requires |pre| + |Encode(x)| <= 9
    ensures Uvarint(pre + Encode(x) + rest, |pre|) == Decoded(x, |pre| + |Encode(x)|)
    decreases x
  {
    var s := pre + Encode(x) + rest;
    if x >= 128 {
      var pre' := pre + [x % 128 + 128];
      assert s == pre' + Encode(x / 128) + rest;
      DecodeFrom(pre', x / 128, rest);
    }
  }

  /** How far Uvarint reads any bytes: to the first one below 128, if that is among the first
      nine, or the tenth and at most 1; it reports 0 when the bytes end before that, and a
      negative count in all other cases. */
  lemma {:induction false} UvarintReads(s: seq<byte>, i: nat)
    requires i <= |s| && i <= 10
    ensures var n := Uvarint(s, i).n;
            && (n > 0 ==> i < n <= |s| && s[n - 1] < 128 && (forall k | i <= k < n - 1 :: s[k] >= 128)
                          && (n <= 9 || (n == 10 && s[9] <= 1)))
            && (n == 0 <==> |s| <= 10 && forall k | i <= k < |s| :: s[k] >= 128)
            && (n < 0 ==> |s| >= 10 && (forall k | i <= k < 9 :: s[k] >= 128) && (i <= 9 ==> s[9] > 1))
    decreases |s| - i
  {
    if i < |s| && i < 10 && s[i] >= 128 {
      UvarintReads(s, i + 1);
    }
  }

  /** The length of an encoding, by size class. */
  lemma EncodeLength(x: nat)
    ensures |Encode(x)| == 1 <==> x < 128
    ensures |Encode(x)| <= 2 <==> x < 16384
    ensures |Encode(x)| <= 3 <==> x < 2097152
    ensures |Encode(x)| <= 4 <==> x < 268435456
    ensures |Encode(x)| <= 5 <==> x < VARINT_LIMIT
  {
  }

  /** getNeededSize: header plus payload. */
  function NeededSize(length: nat): nat {
    var header :=
      if length < 127 then 1
      else if length < 16382 then 2
      else if length < 2097149 then 3
      else if length < 268435452 then 4
      else 5;
    header + length
  }

  /** The header reserved by NeededSize is exactly as long as the encoding of the total,
      for every length up to the point where the encoding outgrows the header buffer,
      and for no length beyond it. */
  lemma HeaderIsExact(length: nat)
    ensures |Encode(NeededSize(length))| == NeededSize(length) - length
            <==> NeededSize(length) < VARINT_LIMIT
  {
    EncodeLength(NeededSize(length));
  }

  /** binary.PutUvarint: writes the encoding of `x` at the start of `buf`. */
  method PutUvarint(buf: array<byte>, x: nat) returns (n: nat)
    requires |Encode(x)| <= buf.Length
    modifies buf
    ensures n == |Encode(x)| && buf[..n] == Encode(x)
  {
    var i, y := 0, x;
    while y >= 128
      invariant 0 <= i && i + |Encode(y)| <= buf.Length
      invariant buf[..i] + Encode(y) == Encode(x)
    {
      assert buf[..i] + Encode(y) == (buf[..i] + [y % 128 + 128]) + Encode(y / 128);
      buf[i] := y % 128 + 128;
      assert buf[..i + 1] == buf[..i] + [y % 128 + 128];
      y := y / 128;
      i := i + 1;
    }
    buf[i] := y;
    assert buf[..i + 1] == buf[..i] + Encode(y);
    n := i + 1;
  }
}
