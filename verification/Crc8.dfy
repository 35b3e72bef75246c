/** The 8-bit checksum of the log records, table driven, and the polynomial division it stands for. */
module Crc8 {
  type Byte = bv8

  // ---------------------------------------------------------------- the table, 16 entries a row

  function Row0(low: bv4): Byte {
    match low
    case 0 => 0x00 case 1 => 0x1d case 2 => 0x3a case 3 => 0x27 case 4 => 0x74 case 5 => 0x69 case 6 => 0x4e case 7 => 0x53
    case 8 => 0xe8 case 9 => 0xf5 case 10 => 0xd2 case 11 => 0xcf case 12 => 0x9c case 13 => 0x81 case 14 => 0xa6 case _ => 0xbb
  }

  function Row1(low: bv4): Byte {
    match low
    case 0 => 0xcd case 1 => 0xd0 case 2 => 0xf7 case 3 => 0xea case 4 => 0xb9 case 5 => 0xa4 case 6 => 0x83 case 7 => 0x9e
    case 8 => 0x25 case 9 => 0x38 case 10 => 0x1f case 11 => 0x02 case 12 => 0x51 case 13 => 0x4c case 14 => 0x6b case _ => 0x76
  }

  function Row2(low: bv4): Byte {
    match low
    case 0 => 0x87 case 1 => 0x9a case 2 => 0xbd case 3 => 0xa0 case 4 => 0xf3 case 5 => 0xee case 6 => 0xc9 case 7 => 0xd4
    case 8 => 0x6f case 9 => 0x72 case 10 => 0x55 case 11 => 0x48 case 12 => 0x1b case 13 => 0x06 case 14 => 0x21 case _ => 0x3c
  }

  function Row3(low: bv4): Byte {
    match low
    case 0 => 0x4a case 1 => 0x57 case 2 => 0x70 case 3 => 0x6d case 4 => 0x3e case 5 => 0x23 case 6 => 0x04 case 7 => 0x19
    case 8 => 0xa2 case 9 => 0xbf case 10 => 0x98 case 11 => 0x85 case 12 => 0xd6 case 13 => 0xcb case 14 => 0xec case _ => 0xf1
  }

  function Row4(low: bv4): Byte {
    match low
    case 0 => 0x13 case 1 => 0x0e case 2 => 0x29 case 3 => 0x34 case 4 => 0x67 case 5 => 0x7a case 6 => 0x5d case 7 => 0x40
    case 8 => 0xfb case 9 => 0xe6 case 10 => 0xc1 case 11 => 0xdc case 12 => 0x8f case 13 => 0x92 case 14 => 0xb5 case _ => 0xa8
  }

  function Row5(low: bv4): Byte {
    match low
    case 0 => 0xde case 1 => 0xc3 case 2 => 0xe4 case 3 => 0xf9 case 4 => 0xaa case 5 => 0xb7 case 6 => 0x90 case 7 => 0x8d
    case 8 => 0x36 case 9 => 0x2b case 10 => 0x0c case 11 => 0x11 case 12 => 0x42 case 13 => 0x5f case 14 => 0x78 case _ => 0x65
  }

  function Row6(low: bv4): Byte {
    match low
    case 0 => 0x94 case 1 => 0x89 case 2 => 0xae case 3 => 0xb3 case 4 => 0xe0 case 5 => 0xfd case 6 => 0xda case 7 => 0xc7
    case 8 => 0x7c case 9 => 0x61 case 10 => 0x46 case 11 => 0x5b case 12 => 0x08 case 13 => 0x15 case 14 => 0x32 case _ => 0x2f
  }

  function Row7(low: bv4): Byte {
    match low
    case 0 => 0x59 case 1 => 0x44 case 2 => 0x63 case 3 => 0x7e case 4 => 0x2d case 5 => 0x30 case 6 => 0x17 case 7 => 0x0a
    case 8 => 0xb1 case 9 => 0xac case 10 => 0x8b case 11 => 0x96 case 12 => 0xc5 case 13 => 0xd8 case 14 => 0xff case _ => 0xe2
  }

  function Row8(low: bv4): Byte {
    match low
    case 0 => 0x26 case 1 => 0x3b case 2 => 0x1c case 3 => 0x01 case 4 => 0x52 case 5 => 0x4f case 6 => 0x68 case 7 => 0x75
    case 8 => 0xce case 9 => 0xd3 case 10 => 0xf4 case 11 => 0xe9 case 12 => 0xba case 13 => 0xa7 case 14 => 0x80 case _ => 0x9d
  }

  function Row9(low: bv4): Byte {
    match low
    case 0 => 0xeb case 1 => 0xf6 case 2 => 0xd1 case 3 => 0xcc case 4 => 0x9f case 5 => 0x82 case 6 => 0xa5 case 7 => 0xb8
    case 8 => 0x03 case 9 => 0x1e case 10 => 0x39 case 11 => 0x24 case 12 => 0x77 case 13 => 0x6a case 14 => 0x4d case _ => 0x50
  }

  function Row10(low: bv4): Byte {
    match low
    case 0 => 0xa1 case 1 => 0xbc case 2 => 0x9b case 3 => 0x86 case 4 => 0xd5 case 5 => 0xc8 case 6 => 0xef case 7 => 0xf2
    case 8 => 0x49 case 9 => 0x54 case 10 => 0x73 case 11 => 0x6e case 12 => 0x3d case 13 => 0x20 case 14 => 0x07 case _ => 0x1a
  }

  function Row11(low: bv4): Byte {
    match low
    case 0 => 0x6c case 1 => 0x71 case 2 => 0x56 case 3 => 0x4b case 4 => 0x18 case 5 => 0x05 case 6 => 0x22 case 7 => 0x3f
    case 8 => 0x84 case 9 => 0x99 case 10 => 0xbe case 11 => 0xa3 case 12 => 0xf0 case 13 => 0xed case 14 => 0xca case _ => 0xd7
  }

  function Row12(low: bv4): Byte {
    match low
    case 0 => 0x35 case 1 => 0x28 case 2 => 0x0f case 3 => 0x12 case 4 => 0x41 case 5 => 0x5c case 6 => 0x7b case 7 => 0x66
    case 8 => 0xdd case 9 => 0xc0 case 10 => 0xe7 case 11 => 0xfa case 12 => 0xa9 case 13 => 0xb4 case 14 => 0x93 case _ => 0x8e
  }

  function Row13(low: bv4): Byte {
    match low
    case 0 => 0xf8 case 1 => 0xe5 case 2 => 0xc2 case 3 => 0xdf case 4 => 0x8c case 5 => 0x91 case 6 => 0xb6 case 7 => 0xab
    case 8 => 0x10 case 9 => 0x0d case 10 => 0x2a case 11 => 0x37 case 12 => 0x64 case 13 => 0x79 case 14 => 0x5e case _ => 0x43
  }

  function Row14(low: bv4): Byte {
    match low
    case 0 => 0xb2 case 1 => 0xaf case 2 => 0x88 case 3 => 0x95 case 4 => 0xc6 case 5 => 0xdb case 6 => 0xfc case 7 => 0xe1
    case 8 => 0x5a case 9 => 0x47 case 10 => 0x60 case 11 => 0x7d case 12 => 0x2e case 13 => 0x33 case 14 => 0x14 case _ => 0x09
  }

  function Row15(low: bv4): Byte {
    match low
    case 0 => 0x7f case 1 => 0x62 case 2 => 0x45 case 3 => 0x58 case 4 => 0x0b case 5 => 0x16 case 6 => 0x31 case 7 => 0x2c
    case 8 => 0x97 case 9 => 0x8a case 10 => 0xad case 11 => 0xb0 case 12 => 0xe3 case 13 => 0xfe case 14 => 0xd9 case _ => 0xc4
  }

  function Entry(high: bv4, low: bv4): Byte {
    match high
    case 0 => Row0(low)
    case 1 => Row1(low)
    case 2 => Row2(low)
    case 3 => Row3(low)
    case 4 => Row4(low)
    case 5 => Row5(low)
    case 6 => Row6(low)
    case 7 => Row7(low)
    case 8 => Row8(low)
    case 9 => Row9(low)
    case 10 => Row10(low)
    case 11 => Row11(low)
    case 12 => Row12(low)
    case 13 => Row13(low)
    case 14 => Row14(low)
    case _ => Row15(low)
  }

  function Table(c: Byte): Byte {
    Entry((c >> 4) as bv4, (c & 0x0f) as bv4)
  }

  /** Multiplying by x modulo x^8 + x^4 + x^3 + x^2 + 1: a shift, and a subtraction of the divisor
      (0x1d without its leading term) when the term of degree 8 appears. */
  function TimesX(c: Byte): Byte {
    if c & 0x80 != 0 then (c << 1) ^ 0x1d else c << 1
  }

  function TimesX2(c: Byte): Byte {
    TimesX(TimesX(c))
  }

  function TimesX4(c: Byte): Byte {
    TimesX2(TimesX2(c))
  }

  function TimesX8(c: Byte): Byte {
    TimesX4(TimesX4(c))
  }

  // ---------------------------------------------------------------- the table is multiplication by x^8

  lemma LowRow(low: bv4)
    ensures Row0(low) == TimesX8(low as Byte)
  {
  }

  function FirstOfRow(high: bv4): Byte {
    match high
    case 0 => 0x00 case 1 => 0xcd case 2 => 0x87 case 3 => 0x4a case 4 => 0x13 case 5 => 0xde case 6 => 0x94 case 7 => 0x59
    case 8 => 0x26 case 9 => 0xeb case 10 => 0xa1 case 11 => 0x6c case 12 => 0x35 case 13 => 0xf8 case 14 => 0xb2 case _ => 0x7f
  }

  lemma FirstColumn(high: bv4)
    ensures FirstOfRow(high) == TimesX8((high as Byte) << 4)
  {
  }

  /** Addition of polynomials, by name: the solver need not look inside it. */
  function Sum(a: Byte, b: Byte): Byte {
    a ^ b
  }

  lemma TimesXAdds(a: Byte, b: Byte)
    ensures TimesX(Sum(a, b)) == Sum(TimesX(a), TimesX(b))
  {
    if a & 0x80 != 0 {
      if b & 0x80 != 0 {
      } else {
      }
    } else {
      if b & 0x80 != 0 {
      } else {
      }
    }
  }

  lemma TimesX2Adds(a: Byte, b: Byte)
    ensures TimesX2(Sum(a, b)) == Sum(TimesX2(a), TimesX2(b))
  {
    hide TimesX, Sum;
    TimesXAdds(a, b);
    TimesXAdds(TimesX(a), TimesX(b));
  }

  lemma TimesX4Adds(a: Byte, b: Byte)
    ensures TimesX4(Sum(a, b)) == Sum(TimesX4(a), TimesX4(b))
  {
    hide TimesX2, Sum;
    TimesX2Adds(a, b);
    TimesX2Adds(TimesX2(a), TimesX2(b));
  }

  lemma TimesX8Adds(a: Byte, b: Byte)
    ensures TimesX8(Sum(a, b)) == Sum(TimesX8(a), TimesX8(b))
  {
    hide TimesX4, Sum;
    TimesX4Adds(a, b);
    TimesX4Adds(TimesX4(a), TimesX4(b));
  }

  lemma Nibbles(c: Byte)
    ensures Sum(((c & 0x0f) as bv4) as Byte, (((c >> 4) as bv4) as Byte) << 4) == c
  {
  }

  lemma EntryIsSum(high: bv4, low: bv4)
    ensures Entry(high, low) == Sum(Row0(low), FirstOfRow(high))
  {
    hide Row0, Sum, FirstOfRow, Row1, Row2, Row3, Row4, Row5, Row6, Row7,
         Row8, Row9, Row10, Row11, Row12, Row13, Row14, Row15;
    FirstRows(low);
    SecondRows(low);
    ThirdRows(low);
    FourthRows(low);
  }

  lemma FirstRows(low: bv4)
    ensures Row0(low) == Sum(Row0(low), FirstOfRow(0))
    ensures Row1(low) == Sum(Row0(low), FirstOfRow(1))
    ensures Row2(low) == Sum(Row0(low), FirstOfRow(2))
    ensures Row3(low) == Sum(Row0(low), FirstOfRow(3))
  {
  }

  lemma SecondRows(low: bv4)
    ensures Row4(low) == Sum(Row0(low), FirstOfRow(4))
    ensures Row5(low) == Sum(Row0(low), FirstOfRow(5))
    ensures Row6(low) == Sum(Row0(low), FirstOfRow(6))
    ensures Row7(low) == Sum(Row0(low), FirstOfRow(7))
  {
  }

  lemma ThirdRows(low: bv4)
    ensures Row8(low) == Sum(Row0(low), FirstOfRow(8))
    ensures Row9(low) == Sum(Row0(low), FirstOfRow(9))
    ensures Row10(low) == Sum(Row0(low), FirstOfRow(10))
    ensures Row11(low) == Sum(Row0(low), FirstOfRow(11))
  {
  }

  lemma FourthRows(low: bv4)
    ensures Row12(low) == Sum(Row0(low), FirstOfRow(12))
    ensures Row13(low) == Sum(Row0(low), FirstOfRow(13))
    ensures Row14(low) == Sum(Row0(low), FirstOfRow(14))
    ensures Row15(low) == Sum(Row0(low), FirstOfRow(15))
  {
  }

  lemma EntryIsTimesX8(high: bv4, low: bv4)
    ensures Entry(high, low) == Sum(TimesX8(low as Byte), TimesX8((high as Byte) << 4))
  {
    hide *;
    EntryIsSum(high, low);
    LowRow(low);
    FirstColumn(high);
  }

  lemma TableIsTimesX8(c: Byte)
    ensures Table(c) == TimesX8(c)
  {
    hide Entry, TimesX8, Sum;
    var high, low := (c >> 4) as bv4, (c & 0x0f) as bv4;
    EntryIsTimesX8(high, low);
    TimesX8Adds(low as Byte, (high as Byte) << 4);
    Nibbles(c);
  }

  lemma TimesX8Injective(a: Byte, b: Byte)
    requires a != b
    ensures TimesX8(a) != TimesX8(b)
  {
  }

  // ---------------------------------------------------------------- checksums

  function Update(crc: Byte, value: Byte): Byte {
    value ^ Table(crc)
  }

  function UpdateAll(crc: Byte, values: seq<Byte>): Byte {
    if values == [] then crc
    else Update(UpdateAll(crc, values[..|values| - 1]), values[|values| - 1])
  }

  function Crc(values: seq<Byte>): Byte {
    UpdateAll(0, values)
  }

  /** The loop of the source, which takes `len` for the end of the range. */
  method UpdateCrc8(crc: Byte, values: array<Byte>, from: nat, len: nat) returns (result: Byte)
    requires len <= values.Length
    ensures result == if from < len then UpdateAll(crc, values[from..len]) else crc
  {
    hide Update;
    result := crc;
    var i := from;
    while i < len
      invariant from <= i && (from < len ==> i <= len)
      invariant result == if from < len then UpdateAll(crc, values[from..i]) else crc
    {
      assert values[from..i + 1][..i - from] == values[from..i];
      result := Update(result, values[i]);
      i := i + 1;
    }
  }

  lemma XorDiffers(a: Byte, b: Byte, c: Byte, d: Byte)
    ensures a != b && c == d ==> a ^ c != b ^ d && c ^ a != d ^ b
  {
  }

  lemma {:induction false} DifferenceStays(c: Byte, d: Byte, values: seq<Byte>)
    requires c != d
    ensures UpdateAll(c, values) != UpdateAll(d, values)
  {
    if values != [] {
      var rest := values[..|values| - 1];
      DifferenceStays(c, d, rest);
      var a, b := UpdateAll(c, rest), UpdateAll(d, rest);
      TimesX8Injective(a, b);
      TableIsTimesX8(a);
      TableIsTimesX8(b);
      XorDiffers(Table(a), Table(b), values[|values| - 1], values[|values| - 1]);
    }
  }

  lemma {:induction false} UpdateAllJoins(crc: Byte, a: seq<Byte>, b: seq<Byte>)
    ensures UpdateAll(crc, a + b) == UpdateAll(UpdateAll(crc, a), b)
  {
    if b == [] {
      assert a + b == a;
    } else {
      assert (a + b)[..|a + b| - 1] == a + b[..|b| - 1];
      UpdateAllJoins(crc, a, b[..|b| - 1]);
    }
  }

  /** Changing exactly one byte always changes the checksum. */
  lemma OneByteIsDetected(values: seq<Byte>, i: nat, x: Byte)
    requires i < |values| && values[i] != x
    ensures Crc(values[i := x]) != Crc(values)
  {
    hide *;
    var before, after := values[..i], values[i + 1..];
    CrcAround(before, values[i], after);
    CrcAround(before, x, after);
    assert before + [values[i]] + after == values;
    assert before + [x] + after == values[i := x];
    UpdateDiffers(UpdateAll(0, before), values[i], x);
    DifferenceStays(Update(UpdateAll(0, before), values[i]), Update(UpdateAll(0, before), x), after);
  }

  lemma CrcAround(before: seq<Byte>, x: Byte, after: seq<Byte>)
    ensures Crc(before + [x] + after) == UpdateAll(Update(UpdateAll(0, before), x), after)
  {
    hide Update;
    UpdateAllJoins(0, before, [x]);
    UpdateAllJoins(0, before + [x], after);
    assert [x][..0] == [];
  }

  lemma UpdateDiffers(crc: Byte, x: Byte, y: Byte)
    requires x != y
    ensures Update(crc, x) != Update(crc, y)
  {
    hide Table;
    XorDiffers(x, y, Table(crc), Table(crc));
  }

  // ---------------------------------------------------------------- polynomials over GF(2)

  /** A polynomial is the sequence of its coefficients, highest degree first. */
  type Poly = seq<bool>

  /** x^8 + x^4 + x^3 + x^2 + 1 */
  function Divisor(): (p: Poly)
    ensures |p| == 9 && forall i :: 0 <= i < 9 ==> p[i] == (i == 0 || i == 4 || i == 5 || i == 6 || i == 8)
  {
    seq(9, i => i == 0 || i == 4 || i == 5 || i == 6 || i == 8)
  }

  function Zeros(n: nat): (p: Poly)
    ensures |p| == n && forall i :: 0 <= i < n ==> !p[i]
  {
    seq(n, i => false)
  }

  function Add(a: Poly, b: Poly): (p: Poly)
    requires |a| == |b|
    ensures |p| == |a| && forall i :: 0 <= i < |a| ==> p[i] == (a[i] != b[i])
  {
    seq(|a|, i requires 0 <= i < |a| => a[i] != b[i])
  }

  /** `q` times the divisor; each coefficient of `q` adds a shifted divisor. */
  function Product(q: Poly): (p: Poly)
    ensures |p| == |q| + 8
  {
    if q == [] then Zeros(8)
    else
      var n := |q| - 1;
      Add(Product(q[..n]) + [false], Zeros(n) + if q[n] then Divisor() else Zeros(9))
  }

  function Coefficient(c: Byte, i: nat): bool
    requires i < 8
  {
    match i
    case 0 => c & 0x80 != 0 case 1 => c & 0x40 != 0 case 2 => c & 0x20 != 0 case 3 => c & 0x10 != 0
    case 4 => c & 0x08 != 0 case 5 => c & 0x04 != 0 case 6 => c & 0x02 != 0 case 7 => c & 0x01 != 0
  }

  function ByteBits(c: Byte): (p: Poly)
    ensures |p| == 8 && forall i :: 0 <= i < 8 ==> p[i] == Coefficient(c, i)
  {
    seq(8, i requires 0 <= i < 8 => Coefficient(c, i))
  }

  function Bits(values: seq<Byte>): (p: Poly)
    ensures |p| == 8 * |values|
  {
    if values == [] then [] else Bits(values[..|values| - 1]) + ByteBits(values[|values| - 1])
  }

  /** `m` is `q` times the divisor plus `r`, which has degree below 8. */
  ghost predicate Divides(m: Poly, q: Poly, r: Byte) {
    |q| == |m| && Zeros(8) + m == Add(Product(q), Zeros(|m|) + ByteBits(r))
  }

  ghost predicate IsRemainder(m: Poly, r: Byte) {
    exists q :: Divides(m, q, r)
  }

  /** One step of the division: the next coefficient comes in. */
  function NextBit(r: Byte, b: bool): Byte {
    TimesX(r) ^ (if b then 1 else 0)
  }

  function Fold<S>(next: (S, bool) -> S, s: S, m: Poly): S {
    if m == [] then s else next(Fold(next, s, m[..|m| - 1]), m[|m| - 1])
  }

  function Remainder(r: Byte, m: Poly): Byte {
    Fold(NextBit, r, m)
  }

  /** Multiplying the remainder by x takes off the divisor where a term of degree 8 appears. */
  lemma NextBitSubtracts(r: Byte, b: bool, i: nat)
    requires i < 9
    ensures (if i < 8 then Coefficient(r, i) else b)
         == ((r & 0x80 != 0 && Divisor()[i]) != (i > 0 && Coefficient(NextBit(r, b), i - 1)))
  {
    NextBitBits(r, b);
  }

  lemma NextBitBits(r: Byte, b: bool)
    ensures var s, t := NextBit(r, b), r & 0x80 != 0;
            && (s & 0x80 != 0) == (r & 0x40 != 0) && (s & 0x40 != 0) == (r & 0x20 != 0)
            && (s & 0x20 != 0) == (r & 0x10 != 0) && (s & 0x10 != 0) == ((r & 0x08 != 0) != t)
            && (s & 0x08 != 0) == ((r & 0x04 != 0) != t) && (s & 0x04 != 0) == ((r & 0x02 != 0) != t)
            && (s & 0x02 != 0) == (r & 0x01 != 0) && (s & 0x01 != 0) == (b != t)
  {
  }

  lemma {:induction false} DivisionStep(m: Poly, q: Poly, r: Byte, b: bool)
    requires Divides(m, q, r)
    ensures Divides(m + [b], q + [r & 0x80 != 0], NextBit(r, b))
  {
    var n, t, s := |m|, r & 0x80 != 0, NextBit(r, b);
    ProductStep(q, t);
    hide NextBit, Product;
    var left, right := Zeros(8) + (m + [b]), Add(Product(q + [t]), Zeros(n + 1) + ByteBits(s));
    forall i | 0 <= i < n + 9
      ensures left[i] == right[i]
    {
      if i < n + 8 {
        assert (Zeros(8) + m)[i] == Add(Product(q), Zeros(n) + ByteBits(r))[i];
      }
      if i >= n {
        NextBitSubtracts(r, b, i - n);
      }
    }
    assert left == right;
  }

  /** One more coefficient of the factor: each coefficient of the product moves on by one degree, and the
      last nine have the divisor added. */
  lemma ProductStep(q: Poly, t: bool)
    ensures forall i :: 0 <= i < |q| + 9 ==>
              Product(q + [t])[i] == ((i < |q| + 8 && Product(q)[i]) != (i >= |q| && t && Divisor()[i - |q|]))
  {
    assert (q + [t])[..|q|] == q;
  }

  lemma {:induction false} DivisionWorks(m: Poly) returns (q: Poly)
    ensures Divides(m, q, Remainder(0, m))
  {
    if m == [] {
      q := [];
      assert Zeros(8) + m == Add(Product(q), Zeros(0) + ByteBits(0));
    } else {
      var before := m[..|m| - 1];
      q := DivisionWorks(before);
      DivisionStep(before, q, Remainder(0, before), m[|m| - 1]);
      q := q + [Remainder(0, before) & 0x80 != 0];
      assert before + [m[|m| - 1]] == m;
    }
  }

  lemma ProductLast(q: Poly)
    requires q != []
    ensures var n := |q| - 1;
            && (forall i :: 0 <= i < n ==> Product(q)[i] == Product(q[..n])[i])
            && Product(q)[n] == (Product(q[..n])[n] != q[n])
  {
    hide *;
    var n := |q| - 1;
    assert q[..n] + [q[n]] == q;
    forall i | 0 <= i < n
      ensures Product(q)[i] == Product(q[..n])[i]
    {
      ProductAt(q[..n], q[n], i);
    }
    ProductAt(q[..n], q[n], n);
  }

  lemma ProductAt(q: Poly, t: bool, i: nat)
    requires i <= |q|
    ensures Product(q + [t])[i] == (Product(q)[i] != (i == |q| && t))
  {
    hide Product;
    ProductStep(q, t);
  }

  /** The leading coefficients of a product determine the factor. */
  lemma {:induction false} FactorIsUnique(p: Poly, q: Poly)
    requires |p| == |q| && forall i :: 0 <= i < |q| ==> Product(p)[i] == Product(q)[i]
    ensures p == q
  {
    hide Product;
    if q != [] {
      var n := |q| - 1;
      ProductLast(p);
      ProductLast(q);
      FactorIsUnique(p[..n], q[..n]);
      assert p == p[..n] + [p[n]] && q == q[..n] + [q[n]];
    }
  }

  lemma SameByte(r: Byte, s: Byte)
    requires forall i :: 0 <= i < 8 ==> Coefficient(r, i) == Coefficient(s, i)
    ensures r == s
  {
    assert Coefficient(r, 0) == Coefficient(s, 0) && Coefficient(r, 1) == Coefficient(s, 1);
    assert Coefficient(r, 2) == Coefficient(s, 2) && Coefficient(r, 3) == Coefficient(s, 3);
    assert Coefficient(r, 4) == Coefficient(s, 4) && Coefficient(r, 5) == Coefficient(s, 5);
    assert Coefficient(r, 6) == Coefficient(s, 6) && Coefficient(r, 7) == Coefficient(s, 7);
    SameByteBits(r, s);
  }

  lemma SameByteBits(r: Byte, s: Byte)
    requires (r & 0x80 != 0) == (s & 0x80 != 0) && (r & 0x40 != 0) == (s & 0x40 != 0)
    requires (r & 0x20 != 0) == (s & 0x20 != 0) && (r & 0x10 != 0) == (s & 0x10 != 0)
    requires (r & 0x08 != 0) == (s & 0x08 != 0) && (r & 0x04 != 0) == (s & 0x04 != 0)
    requires (r & 0x02 != 0) == (s & 0x02 != 0) && (r & 0x01 != 0) == (s & 0x01 != 0)
    ensures r == s
  {
  }

  /** The remainder does not reach the leading coefficients, and is what the last eight leave. */
  lemma DividesParts(m: Poly, q: Poly, r: Byte)
    requires Divides(m, q, r)
    ensures |q| == |m|
    ensures forall i :: 0 <= i < |m| ==> Product(q)[i] == (Zeros(8) + m)[i]
    ensures forall i :: 0 <= i < 8 ==> Coefficient(r, i) == ((Zeros(8) + m)[|m| + i] != Product(q)[|m| + i])
  {
    hide Product, Zeros, ByteBits, Add, Coefficient;
    var n, sum := |m|, Add(Product(q), Zeros(|m|) + ByteBits(r));
    assert forall i :: 0 <= i < n ==> sum[i] == Product(q)[i];
    assert forall i :: 0 <= i < 8 ==> sum[n + i] == (Product(q)[n + i] != ByteBits(r)[i]);
  }

  lemma RemainderIsUnique(m: Poly, q: Poly, r: Byte, q': Poly, r': Byte)
    requires Divides(m, q, r) && Divides(m, q', r')
    ensures r == r'
  {
    hide *;
    DividesParts(m, q, r);
    DividesParts(m, q', r');
    FactorIsUnique(q, q');
    SameByte(r, r');
  }

  lemma FoldOne<S>(next: (S, bool) -> S, s0: S, m: Poly, s: S, b: bool)
    requires Fold(next, s0, m) == s
    ensures Fold(next, s0, m + [b]) == next(s, b)
  {
    assert (m + [b])[..|m|] == m;
  }

  lemma {:induction false} FoldJoins<S>(next: (S, bool) -> S, r: S, a: Poly, b: Poly)
    ensures Fold(next, r, a + b) == Fold(next, Fold(next, r, a), b)
  {
    if b == [] {
      assert a + b == a;
    } else {
      assert (a + b)[..|a + b| - 1] == a + b[..|b| - 1];
      FoldJoins(next, r, a, b[..|b| - 1]);
    }
  }

  /** One step of the division, the part `w` having come in since the last reduction: reducing does
      not touch it. */
  lemma OneBit(r: Byte, w: Byte, b: bool, v: Byte)
    requires w & 0x80 == 0 && v == (w << 1) ^ (if b then 1 else 0)
    ensures NextBit(r ^ w, b) == TimesX(r) ^ v
  {
  }

  lemma StepOfByte(r: Byte, p: Poly, k: nat, s: Byte, w: Byte, v: Byte)
    requires k < |p| && Remainder(r, p[..k]) == s ^ w
    requires Extends(w, p[k], v)
    ensures Remainder(r, p[..k + 1]) == TimesX(s) ^ v
  {
    FoldOne(NextBit, r, p[..k], s ^ w, p[k]);
    assert p[..k + 1] == p[..k] + [p[k]];
    OneBit(s, w, p[k], v);
  }

  /** The leading coefficients of a byte, read as numbers, extend one another. */
  lemma LeadingBits(v: Byte)
    ensures Extends(0, v & 0x80 != 0, v >> 7) && Extends(v >> 7, v & 0x40 != 0, v >> 6)
    ensures Extends(v >> 6, v & 0x20 != 0, v >> 5) && Extends(v >> 5, v & 0x10 != 0, v >> 4)
    ensures Extends(v >> 4, v & 0x08 != 0, v >> 3) && Extends(v >> 3, v & 0x04 != 0, v >> 2)
    ensures Extends(v >> 2, v & 0x02 != 0, v >> 1) && Extends(v >> 1, v & 0x01 != 0, v)
  {
  }

  /** `v` is `w` with one more coefficient, and nothing was shifted out. */
  predicate Extends(w: Byte, b: bool, v: Byte) {
    w & 0x80 == 0 && v == (w << 1) ^ (if b then 1 else 0)
  }

  lemma FourTimes(s: Byte)
    ensures TimesX(TimesX(TimesX(TimesX(s)))) == TimesX4(s)
  {
    hide TimesX;
  }

  lemma EightTimes(s: Byte)
    ensures TimesX4(TimesX4(s)) == TimesX8(s)
  {
    hide TimesX4;
  }

  lemma RemainderOfFour(r: Byte, p: Poly, k: nat, s: Byte, w: Byte, w1: Byte, w2: Byte, w3: Byte, w4: Byte)
    requires k + 4 <= |p| && Remainder(r, p[..k]) == s ^ w
    requires Extends(w, p[k], w1) && Extends(w1, p[k + 1], w2)
    requires Extends(w2, p[k + 2], w3) && Extends(w3, p[k + 3], w4)
    ensures Remainder(r, p[..k + 4]) == TimesX4(s) ^ w4
  {
    hide *;
    StepOfByte(r, p, k, s, w, w1);
    StepOfByte(r, p, k + 1, TimesX(s), w1, w2);
    StepOfByte(r, p, k + 2, TimesX(TimesX(s)), w2, w3);
    StepOfByte(r, p, k + 3, TimesX(TimesX(TimesX(s))), w3, w4);
    FourTimes(s);
  }

  lemma RemainderOfEight(r: Byte, v: Byte)
    ensures Remainder(r, ByteBits(v)[..8]) == TimesX8(r) ^ v
  {
    hide *;
    var p := ByteBits(v);
    LeadingBits(v);
    BitsOfByte(v);
    EmptyRemainder(r, p);
    RemainderOfFour(r, p, 0, r, 0, v >> 7, v >> 6, v >> 5, v >> 4);
    RemainderOfFour(r, p, 4, TimesX4(r), v >> 4, v >> 3, v >> 2, v >> 1, v);
    EightTimes(r);
  }

  /** Eight steps of the division are one step of the table-driven form. */
  lemma RemainderOfByte(r: Byte, v: Byte)
    ensures Remainder(r, ByteBits(v)) == Update(r, v)
  {
    hide TimesX, Table;
    assert ByteBits(v)[..8] == ByteBits(v);
    RemainderOfEight(r, v);
    TableIsTimesX8(r);
    XorCommutes(TimesX8(r), v);
  }

  lemma EmptyRemainder(r: Byte, p: Poly)
    ensures Remainder(r, p[..0]) == r ^ 0
  {
    XorZero(r);
  }

  lemma BitsOfByte(v: Byte)
    ensures var p := ByteBits(v);
            && p[0] == (v & 0x80 != 0) && p[1] == (v & 0x40 != 0) && p[2] == (v & 0x20 != 0)
            && p[3] == (v & 0x10 != 0) && p[4] == (v & 0x08 != 0) && p[5] == (v & 0x04 != 0)
            && p[6] == (v & 0x02 != 0) && p[7] == (v & 0x01 != 0)
  {
  }

  lemma XorZero(r: Byte)
    ensures r ^ 0 == r
  {
  }

  lemma XorCommutes(a: Byte, b: Byte)
    ensures a ^ b == b ^ a
  {
  }

  lemma {:induction false} RemainderOfBytes(values: seq<Byte>)
    ensures Remainder(0, Bits(values)) == Crc(values)
  {
    if values != [] {
      var before, last := values[..|values| - 1], values[|values| - 1];
      RemainderOfBytes(before);
      FoldJoins(NextBit, 0, Bits(before), ByteBits(last));
      RemainderOfByte(Crc(before), last);
    }
  }

  /** The table-driven checksum of a byte string is the remainder of the string, taken as a
      polynomial, by the divisor, and nothing else is. */
  lemma CrcIsRemainder(values: seq<Byte>, r: Byte)
    ensures Crc(values) == r <==> IsRemainder(Bits(values), r)
  {
    var q := DivisionWorks(Bits(values));
    RemainderOfBytes(values);
    if IsRemainder(Bits(values), r) {
      var p :| Divides(Bits(values), p, r);
      RemainderIsUnique(Bits(values), q, Crc(values), p, r);
    }
  }
}
