/** The part of java.nio.ByteBuffer that the record codec uses, on unsigned bytes. */
module ByteBuffers {
  import opened Ring

  type Octet = b: int | 0 <= b < 256

  function Power256(k: nat): (p: nat)
    ensures p > 0
  {
    if k == 0 then 1 else 256 * Power256(k - 1)
  }

  /** The `k` low bytes of a number, highest first. */
  function BigEndian(x: nat, k: nat): (s: seq<Octet>)
    ensures |s| == k
  {
    if k == 0 then [] else BigEndian(x / 256, k - 1) + [x % 256]
  }

  /** Byte `i` of `k` tells the part of the number that `k - 1 - i` bytes follow: the highest comes first. */
  lemma {:induction false} BigEndianAt(x: nat, k: nat, i: nat)
    requires i < k
    ensures BigEndian(x, k)[i] == (x / Power256(k - 1 - i)) % 256
  {
    if i < k - 1 {
      BigEndianAt(x / 256, k - 1, i);
      DivTwice(x, Power256(k - 2 - i));
    }
  }

  lemma DivTwice(x: nat, p: nat)
    requires p > 0
    ensures (x / 256) / p == x / (256 * p)
  {
    var y := x / 256;
    var q, r := y / p, y % p;
    var rest := 256 * r + x % 256;
    assert y == q * p + r;
    assert x == q * (256 * p) + rest;
    assert rest < 256 * p;
    assert (256 * p) * q == q * (256 * p);
    DivUnique(256 * p, x, q, rest);
  }

  function FromBigEndian(s: seq<Octet>): nat {
    if s == [] then 0 else 256 * FromBigEndian(s[..|s| - 1]) + s[|s| - 1]
  }

  lemma {:induction false} BigEndianInverse(x: nat, k: nat)
    ensures FromBigEndian(BigEndian(x, k)) == x % Power256(k)
  {
    if k > 0 {
      BigEndianInverse(x / 256, k - 1);
      var s := BigEndian(x, k);
      assert s[..|s| - 1] == BigEndian(x / 256, k - 1);
      ModSteps(x, Power256(k - 1));
    }
  }

  lemma ModSteps(x: nat, p: nat)
    requires p > 0
    ensures x % (256 * p) == 256 * ((x / 256) % p) + x % 256
  {
    var q := (x / 256) / p;
    var r := 256 * ((x / 256) % p) + x % 256;
    assert x / 256 == q * p + (x / 256) % p;
    assert x == q * (256 * p) + r;
    assert r < 256 * p;
    assert (256 * p) * q == q * (256 * p);
    DivUnique(256 * p, x, q, r);
  }

  /** A Java long in its two's complement bytes, and back. */
  type Long = x: int | -0x8000_0000_0000_0000 <= x < 0x8000_0000_0000_0000

  function Unsigned(x: Long): nat {
    if x < 0 then x + 0x1_0000_0000_0000_0000 else x
  }

  function LongBytes(x: Long): (s: seq<Octet>)
    ensures |s| == 8
  {
    BigEndian(Unsigned(x), 8)
  }

  lemma {:induction false} FromBigEndianBound(s: seq<Octet>)
    ensures FromBigEndian(s) < Power256(|s|)
  {
    if s != [] {
      FromBigEndianBound(s[..|s| - 1]);
    }
  }

  lemma PowersOf256()
    ensures Power256(2) == 0x1_0000 && Power256(8) == 0x1_0000_0000_0000_0000
  {
    assert Power256(4) == 0x1_0000_0000;
  }

  function LongOf(s: seq<Octet>): Long
    requires |s| == 8
  {
    FromBigEndianBound(s);
    PowersOf256();
    var u := FromBigEndian(s);
    if u >= 0x8000_0000_0000_0000 then u - 0x1_0000_0000_0000_0000 else u
  }

  lemma LongInverse(x: Long)
    ensures LongOf(LongBytes(x)) == x
  {
    BigEndianInverse(Unsigned(x), 8);
    PowersOf256();
    assert Unsigned(x) % 0x1_0000_0000_0000_0000 == Unsigned(x);
  }

  class ByteBuffer {
    const data: array<Octet>
    var position: nat
    var limit: nat

    ghost predicate Valid()
      reads this
    {
      position <= limit <= data.Length
    }

    constructor (data: array<Octet>)
      ensures Valid() && this.data == data && position == 0 && limit == data.Length
    {
      this.data, this.position, this.limit := data, 0, data.Length;
    }

    method Put(b: Octet)
      requires Valid() && position < limit
      modifies this`position, data
      ensures Valid() && position == old(position) + 1
      ensures data[..position] == old(data[..position]) + [b]
      ensures data[position..] == old(data[position + 1..])
    {
      data[position] := b;
      position := position + 1;
    }

    method PutAll(bytes: seq<Octet>)
      requires Valid() && position + |bytes| <= limit
      modifies this`position, data
      ensures Valid() && position == old(position) + |bytes|
      ensures data[..position] == old(data[..position]) + bytes
      ensures data[position..] == old(data[position + |bytes|..])
    {
      for i := 0 to |bytes|
        invariant Valid() && position == old(position) + i
        invariant data[..position] == old(data[..position]) + bytes[..i]
        invariant data[position..] == old(data[..])[position..]
      {
        ghost var rest := data[position..];
        Put(bytes[i]);
        assert data[position..] == rest[1..];
        assert old(data[..])[position - 1..][1..] == old(data[..])[position..];
        assert bytes[..i + 1] == bytes[..i] + [bytes[i]];
      }
    }

    method Get() returns (b: Octet)
      requires Valid() && position < limit
      modifies this`position
      ensures Valid() && position == old(position) + 1 && b == data[position - 1]
    {
      b := data[position];
      position := position + 1;
    }

    method GetAll(n: nat) returns (bytes: seq<Octet>)
      requires Valid() && position + n <= limit
      modifies this`position
      ensures Valid() && position == old(position) + n && bytes == data[old(position)..position]
    {
      bytes := data[position..position + n];
      position := position + n;
    }

    method PutLong(x: Long)
      requires Valid() && position + 8 <= limit
      modifies this`position, data
      ensures Valid() && position == old(position) + 8
      ensures data[..position] == old(data[..position]) + LongBytes(x)
      ensures data[position..] == old(data[position + 8..])
    {
      PutAll(LongBytes(x));
    }

    method GetLong() returns (x: Long)
      requires Valid() && position + 8 <= limit
      modifies this`position
      ensures Valid() && position == old(position) + 8 && x == LongOf(data[old(position)..position])
    {
      var bytes := GetAll(8);
      x := LongOf(bytes);
    }

    /** The low 16 bits of a value. */
    method PutShort(x: nat)
      requires Valid() && position + 2 <= limit
      modifies this`position, data
      ensures Valid() && position == old(position) + 2
      ensures data[..position] == old(data[..position]) + BigEndian(x, 2)
      ensures data[position..] == old(data[position + 2..])
    {
      PutAll(BigEndian(x, 2));
    }

    method Flip()
      requires Valid()
      modifies this`position, this`limit
      ensures Valid() && position == 0 && limit == old(position)
    {
      limit := position;
      position := 0;
    }

    /** A position beyond the new limit is moved to it. */
    method SetLimit(n: nat)
      requires Valid() && n <= data.Length
      modifies this`position, this`limit
      ensures Valid() && limit == n && position == if old(position) > n then n else old(position)
    {
      limit := n;
      if position > n {
        position := n;
      }
    }

    method Rewind()
      requires Valid()
      modifies this`position
      ensures Valid() && position == 0
    {
      position := 0;
    }
  }
}
