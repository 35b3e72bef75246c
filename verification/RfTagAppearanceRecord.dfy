/** The log record of one tag event: its layout, its checksum and its decoder. */
module RfTagAppearanceRecords {
  import opened Wrappers
  import opened IntSets
  import opened ByteBuffers
  import Crc8

  const RECORD_SIZE := 32
  const MAX_TAG := 12

  datatype TagEvent = TagEvent(
    eventId: Long,
    timestamp: Long,
    antennas: IntSet,
    tag: seq<Octet>,
    appeared: bool,
    initialEvent: bool
  )

  datatype RecordError = TagTooLong(length: int) | NegativeLength(length: int) | CrcFailed

  // ---------------------------------------------------------------- layout

  function CrcBytes(bytes: seq<Octet>): (s: seq<bv8>)
    ensures |s| == |bytes| && forall i :: 0 <= i < |bytes| ==> s[i] == bytes[i] as bv8
  {
    seq(|bytes|, i requires 0 <= i < |bytes| => bytes[i] as bv8)
  }

  function Crc(bytes: seq<Octet>): Octet {
    Crc8.Crc(CrcBytes(bytes)) as int
  }

  /** Bit 0: presence, bit 1: initial event, bit 2: this layout, bits 4 to 7: the tag's length. */
  function Flags(e: TagEvent): Octet
    requires |e.tag| <= MAX_TAG
  {
    (if e.appeared then 1 else 0) + (if e.initialEvent then 2 else 0) + 4 + 16 * |e.tag|
  }

  function Payload(e: TagEvent): (s: seq<Octet>)
    requires |e.tag| <= MAX_TAG
    ensures |s| == 19 + |e.tag|
  {
    LongBytes(e.eventId) + LongBytes(e.timestamp) + [Flags(e)] + BigEndian(e.antennas.mask, 2) + e.tag
  }

  function Encode(e: TagEvent): (r: Result<seq<Octet>, RecordError>)
    ensures r.Ok? ==> |r.value| == 20 + |e.tag| <= RECORD_SIZE
  {
    if |e.tag| > MAX_TAG then Err(TagTooLong(|e.tag|))
    else Ok(Payload(e) + [Crc(Payload(e))])
  }

  // ---------------------------------------------------------------- decoding

  function SignedByte(b: Octet): int {
    if b >= 128 then b - 256 else b
  }

  /** Where the tag starts and how long it is. */
  function TagStart(flags: Octet): nat {
    if (flags / 4) % 2 == 1 then 19 else 18
  }

  function TagLength(s: seq<Octet>): int
    requires |s| >= RECORD_SIZE
  {
    if (s[16] / 4) % 2 == 1 then s[16] / 16 else SignedByte(s[17])
  }

  function Antennas(s: seq<Octet>): IntSet
    requires |s| >= RECORD_SIZE
  {
    if (s[16] / 4) % 2 == 1 then AntennaMaskBound(s[17..19]); ByMask(FromBigEndian(s[17..19])) else EMPTY
  }

  lemma AntennaMaskBound(s: seq<Octet>)
    requires |s| == 2
    ensures FromBigEndian(s) < 0x1_0000
  {
    FromBigEndianBound(s);
    PowersOf256();
  }

  function Decode(s: seq<Octet>): Result<TagEvent, RecordError>
    requires |s| >= RECORD_SIZE
  {
    var start, length := TagStart(s[16]), TagLength(s);
    if length > MAX_TAG then Err(TagTooLong(length))
    else if length < 0 then Err(NegativeLength(length))
    else if s[start + length] != Crc(s[..start + length]) then Err(CrcFailed)
    else Ok(TagEvent(LongOf(s[..8]), LongOf(s[8..16]), Antennas(s), s[start..start + length],
                     s[16] % 2 == 1, (s[16] / 2) % 2 == 1))
  }

  // ---------------------------------------------------------------- the bytes of a record

  /** Byte `i` of a long, the highest first, in two's complement. */
  ghost function ByteOfLong(x: Long, i: nat): int
    requires i < 8
  {
    ((if x < 0 then x + 0x1_0000_0000_0000_0000 else x) / Power256(7 - i)) % 256
  }

  /** The bytes 0..7 are the number and 8..15 the time of the event, the byte 16 has a bit for presence, one
      for an initial event, one for this layout and the tag's length in its high half, the bytes 17 and 18
      are the mask of the antennas 0..15, then comes the tag, and the last byte is the remainder of all
      bytes before it. */
  ghost predicate Layout(e: TagEvent, s: seq<Octet>) {
    var n := 19 + |e.tag|;
    && |s| == n + 1
    && (forall i :: 0 <= i < 8 ==> s[i] == ByteOfLong(e.eventId, i))
    && (forall i :: 0 <= i < 8 ==> s[8 + i] == ByteOfLong(e.timestamp, i))
    && s[16] == (if e.appeared then 1 else 0) + (if e.initialEvent then 2 else 0) + 4 + 16 * |e.tag|
    && s[17] == (e.antennas.mask / 256) % 256 && s[18] == e.antennas.mask % 256
    && s[19..n] == e.tag
    && Crc8.IsRemainder(Crc8.Bits(CrcBytes(s[..n])), s[n] as bv8)
  }

  lemma EncodedLayout(e: TagEvent)
    requires |e.tag| <= MAX_TAG
    ensures Layout(e, Encode(e).value)
  {
    hide Crc, LongBytes, BigEndian, ByteOfLong, Payload, Crc8.IsRemainder, Crc8.Bits;
    var s := Encode(e).value;
    EncodedParts(e, []);
    assert s + [] == s;
    forall i | 0 <= i < 8
      ensures s[i] == ByteOfLong(e.eventId, i) && s[8 + i] == ByteOfLong(e.timestamp, i)
    {
      LongBytesAt(e.eventId, i);
      LongBytesAt(e.timestamp, i);
      assert s[..8][i] == s[i] && s[8..16][i] == s[8 + i];
    }
    ShortBytes(e.antennas.mask);
    assert s[17..19][0] == s[17] && s[17..19][1] == s[18];
    CrcDivides(Payload(e), Crc(Payload(e)) as bv8);
  }

  lemma LongBytesAt(x: Long, i: nat)
    requires i < 8
    ensures LongBytes(x)[i] == ByteOfLong(x, i)
  {
    BigEndianAt(Unsigned(x), 8, i);
  }

  lemma ShortBytes(x: nat)
    ensures BigEndian(x, 2) == [(x / 256) % 256, x % 256]
  {
    BigEndianAt(x, 2, 0);
    BigEndianAt(x, 2, 1);
    assert Power256(0) == 1 && Power256(1) == 256;
  }

  // ---------------------------------------------------------------- what decoding gives back

  lemma PayloadParts(e: TagEvent)
    requires |e.tag| <= MAX_TAG
    ensures Payload(e)[..8] == LongBytes(e.eventId) && Payload(e)[8..16] == LongBytes(e.timestamp)
    ensures Payload(e)[16] == Flags(e) && Payload(e)[17..19] == BigEndian(e.antennas.mask, 2)
    ensures Payload(e)[19..] == e.tag
  {
  }

  /** The parts of a record that starts with an encoded event. */
  lemma EncodedParts(e: TagEvent, rest: seq<Octet>)
    requires |e.tag| <= MAX_TAG
    ensures var s, n := Encode(e).value + rest, 19 + |e.tag|;
            && s[..n] == Payload(e) && s[n] == Crc(Payload(e))
            && s[..8] == LongBytes(e.eventId) && s[8..16] == LongBytes(e.timestamp)
            && s[16] == Flags(e) && s[17..19] == BigEndian(e.antennas.mask, 2) && s[19..n] == e.tag
  {
    hide Crc, Flags, LongBytes, BigEndian;
    var p := Payload(e);
    var s := Encode(e).value + rest;
    PayloadParts(e);
    assert s[..19 + |e.tag|] == p;
    assert s[..8] == p[..8] && s[8..16] == p[8..16] && s[17..19] == p[17..19] && s[16] == p[16];
    assert s[19..19 + |e.tag|] == p[19..];
  }

  /** The flags tell this layout and a tag of `length` bytes. */
  predicate TellsLayout(flags: Octet, length: nat) {
    (flags / 4) % 2 == 1 && flags / 16 == length
  }

  lemma FlagsDecode(e: TagEvent)
    requires |e.tag| <= MAX_TAG
    ensures var f := Flags(e);
            && TellsLayout(f, |e.tag|)
            && (f % 2 == 1) == e.appeared && ((f / 2) % 2 == 1) == e.initialEvent
  {
  }

  /** Decoding what was encoded, whatever follows it in the record: only the antennas beyond 15, and
      the distinction of the full set, are lost. */
  lemma DecodeEncoded(e: TagEvent, rest: seq<Octet>)
    requires |e.tag| <= MAX_TAG && 20 + |e.tag| + |rest| >= RECORD_SIZE
    ensures Decode(Encode(e).value + rest)
         == Ok(e.(antennas := ByMask(e.antennas.mask % 0x1_0000)))
  {
    EncodedParts(e, rest);
    FlagsDecode(e);
    LongInverse(e.eventId);
    LongInverse(e.timestamp);
    BigEndianInverse(e.antennas.mask, 2);
    PowersOf256();
    hide Crc, Flags, LongBytes, BigEndian, LongOf, Encode, Payload;
  }

  /** Writing and reading restores an event exactly when its tag fits and its antennas are in 0..15. */
  lemma RoundTrip(e: TagEvent, rest: seq<Octet>)
    requires 20 + |e.tag| + |rest| >= RECORD_SIZE
    ensures (Encode(e).Ok? && Decode(Encode(e).value + rest) == Ok(e))
       <==> |e.tag| <= 12 && forall v: int :: Contains(e.antennas, v) ==> 0 <= v <= 15
  {
    if |e.tag| <= MAX_TAG {
      DecodeEncoded(e, rest);
      LowMask(e.antennas);
    }
  }

  /** The older layout, without antennas and with the tag's length in a byte of its own, is still read. */
  lemma DecodeOlder(eventId: Long, timestamp: Long, flags: Octet, tag: seq<Octet>, rest: seq<Octet>)
    requires (flags / 4) % 2 == 0 && |tag| <= MAX_TAG && 19 + |tag| + |rest| >= RECORD_SIZE
    ensures var p := LongBytes(eventId) + LongBytes(timestamp) + [flags, |tag|] + tag;
            Decode(p + [Crc(p)] + rest)
            == Ok(TagEvent(eventId, timestamp, EMPTY, tag, flags % 2 == 1, (flags / 2) % 2 == 1))
  {
    hide Crc, LongBytes, LongOf;
    var p := LongBytes(eventId) + LongBytes(timestamp) + [flags, |tag|] + tag;
    var s, n := p + [Crc(p)] + rest, 18 + |tag|;
    assert s[..8] == LongBytes(eventId) && s[8..16] == LongBytes(timestamp);
    assert s[16] == flags && s[17] == |tag| && s[18..n] == tag && s[..n] == p && s[n] == Crc(p);
    LongInverse(eventId);
    LongInverse(timestamp);
  }

  /** Reading fails for a length above 12 or, in the older layout, a negative one; otherwise exactly if the
      byte after the tag is not the remainder of all bytes before it. */
  lemma DecodeFails(s: seq<Octet>)
    requires |s| >= RECORD_SIZE
    ensures var embedded := (s[16] / 4) % 2 == 1;
            var b: int := s[17];
            var length: int := if embedded then s[16] / 16 else if b >= 128 then b - 256 else b;
            var n := (if embedded then 19 else 18) + length;
            if length > 12 then Decode(s) == Err(TagTooLong(length))
            else if length < 0 then Decode(s) == Err(NegativeLength(length))
            else if !Crc8.IsRemainder(Crc8.Bits(CrcBytes(s[..n])), s[n] as bv8) then Decode(s) == Err(CrcFailed)
            else Decode(s).Ok?
  {
    hide Crc, LongOf, Antennas, Crc8.IsRemainder, Crc8.Bits;
    if 0 <= TagLength(s) <= MAX_TAG {
      CrcIsRight(s, TagStart(s[16]) + TagLength(s));
    }
  }

  lemma CrcIsRight(s: seq<Octet>, n: nat)
    requires n < |s|
    ensures s[n] == Crc(s[..n]) <==> Crc8.IsRemainder(Crc8.Bits(CrcBytes(s[..n])), s[n] as bv8)
  {
    hide *;
    SameOctet(s[n], Crc(s[..n]));
    CrcDivides(s[..n], s[n] as bv8);
  }

  lemma SameOctet(x: Octet, y: Octet)
    ensures x as bv8 == y as bv8 <==> x == y
  {
    OctetToBits(x);
    OctetToBits(y);
  }

  lemma CrcDivides(bytes: seq<Octet>, b: bv8)
    ensures b == Crc(bytes) as bv8 <==> Crc8.IsRemainder(Crc8.Bits(CrcBytes(bytes)), b)
  {
    hide *;
    CrcIsByte(bytes);
    Crc8.CrcIsRemainder(CrcBytes(bytes), b);
  }

  /** So it happens that antenna 16 is lost. */
  lemma AntennaLost(eventId: Long, timestamp: Long, tag: seq<Octet>, rest: seq<Octet>)
    requires |tag| <= MAX_TAG && 20 + |tag| + |rest| >= RECORD_SIZE
    ensures var e := TagEvent(eventId, timestamp, Singleton(16), tag, true, false);
            Encode(e).Ok? && Decode(Encode(e).value + rest) != Ok(e)
  {
    SingletonContains(16, 16);
    RoundTrip(TagEvent(eventId, timestamp, Singleton(16), tag, true, false), rest);
    EncodesIfFits(TagEvent(eventId, timestamp, Singleton(16), tag, true, false));
    hide *;
  }

  lemma LowMask(s: IntSet)
    ensures s == ByMask(s.mask % 0x1_0000) <==> forall v: int :: Contains(s, v) ==> 0 <= v <= 15
  {
    Bits16();
    if s.full {
      assert Contains(s, -1);
    } else if s.mask >= 0x1_0000 {
      Bits32();
      HighBit(s.mask, 16, 32);
      var v: nat :| 16 <= v < 32 && Has(s.mask, v);
      assert Contains(s, v);
    } else {
      forall v: int | Contains(s, v)
        ensures 0 <= v <= 15
      {
        if v > 15 {
          HasBelow(s.mask, v, 16);
        }
      }
    }
  }

  lemma Bits16()
    ensures Bit(16) == 0x1_0000
  {
    assert Bit(8) == 0x100;
  }

  /** A mask of `k` bits or more has a bit from `k` on. */
  lemma {:induction false} HighBit(mask: nat, k: nat, n: nat)
    requires Bit(k) <= mask < Bit(n)
    ensures exists v: nat :: k <= v < n && Has(mask, v)
  {
    BitMonotone(k, k + 1);
    if n == 0 {
      assert false;
    } else if k == 0 {
      if forall v: nat :: v < n ==> !Has(mask, v) {
        forall v: nat | v < n
          ensures Has(mask, v) <==> Has(0, v)
        {
          HasNone(v);
        }
        SameBits(mask, 0, n);
      }
    } else {
      HighBit(mask / 2, k - 1, n - 1);
      var v: nat :| k - 1 <= v < n - 1 && Has(mask / 2, v);
      assert Has(mask, v + 1);
    }
  }

  lemma {:induction false} HasBelow(mask: nat, v: nat, k: nat)
    requires mask < Bit(k) && v >= k
    ensures !Has(mask, v)
  {
    if k == 0 {
      HasNone(v);
    } else if v > 0 {
      HasBelow(mask / 2, v - 1, k - 1);
    }
  }

  // ---------------------------------------------------------------- corruption

  lemma {:induction false} OctetToBits(x: Octet)
    ensures (x as bv8) as int == x
  {
    if x > 0 {
      OctetToBits(x - 1);
      var b := (x - 1) as bv8;
      OctetIsSmall(b, x - 1);
      NextOctet(b);
      BitsToOctet(b + 1);
    }
  }

  lemma OctetIsSmall(b: bv8, x: Octet)
    requires b as int == x && x < 255
    ensures b < 255
  {
  }

  lemma NextOctet(b: bv8)
    requires b < 255
    ensures (b + 1) as int == b as int + 1
  {
  }

  lemma CrcBytesUpdate(bytes: seq<Octet>, i: nat, x: Octet)
    requires i < |bytes| && x != bytes[i]
    ensures |CrcBytes(bytes)| == |bytes| && CrcBytes(bytes)[i] != x as bv8
    ensures CrcBytes(bytes[i := x]) == CrcBytes(bytes)[i := x as bv8]
  {
    OctetToBits(x);
    OctetToBits(bytes[i]);
    assert CrcBytes(bytes[i := x]) == CrcBytes(bytes)[i := x as bv8];
  }

  lemma CrcIsByte(bytes: seq<Octet>)
    ensures Crc(bytes) as bv8 == Crc8.Crc(CrcBytes(bytes))
  {
    BitsToOctet(Crc8.Crc(CrcBytes(bytes)));
  }

  lemma BitsToOctet(b: bv8)
    ensures (b as int) as bv8 == b
  {
  }

  lemma CrcDiffers(bytes: seq<Octet>, i: nat, x: Octet)
    requires i < |bytes| && x != bytes[i]
    ensures Crc(bytes[i := x]) != Crc(bytes)
  {
    hide *;
    CrcBytesUpdate(bytes, i, x);
    Crc8.OneByteIsDetected(CrcBytes(bytes), i, x as bv8);
    CrcIsByte(bytes);
    CrcIsByte(bytes[i := x]);
  }

  lemma EncodesIfFits(e: TagEvent)
    requires |e.tag| <= MAX_TAG
    ensures Encode(e).Ok?
  {
  }

  /** Changing any one byte of an encoded event, checksum included, makes decoding fail its check,
      provided the length and the layout bit in the flags stay as they are. */
  lemma CorruptionIsDetected(e: TagEvent, rest: seq<Octet>, i: nat, x: Octet)
    requires |e.tag| <= MAX_TAG && 20 + |e.tag| + |rest| >= RECORD_SIZE
    requires i < 20 + |e.tag| && x != Encode(e).value[i]
    requires i == 16 ==> TellsLayout(x, |e.tag|)
    ensures Decode((Encode(e).value + rest)[i := x]) == Err(CrcFailed)
  {
    hide Crc, Flags, LongBytes, BigEndian, Encode, Payload, Decode, TellsLayout;
    EncodesIfFits(e);
    EncodedParts(e, rest);
    FlagsDecode(e);
    ChangedRecord(Encode(e).value + rest, Payload(e), i, x);
  }

  lemma ChangedRecord(s: seq<Octet>, p: seq<Octet>, i: nat, x: Octet)
    requires |s| >= RECORD_SIZE && 19 <= |p| <= 19 + MAX_TAG && s[..|p|] == p && s[|p|] == Crc(p)
    requires TellsLayout(s[16], |p| - 19)
    requires i <= |p| && x != s[i] && (i == 16 ==> TellsLayout(x, |p| - 19))
    ensures Decode(s[i := x]) == Err(CrcFailed)
  {
    hide Crc, LongOf, Antennas;
    var t := s[i := x];
    if i < |p| {
      assert t[..|p|] == p[i := x];
      CrcDiffers(p, i, x);
    } else {
      assert t[..|p|] == p;
    }
  }

  // ---------------------------------------------------------------- on a buffer

  lemma CrcOfNone()
    ensures Crc8.Crc(CrcBytes([])) == 0
  {
    assert CrcBytes([]) == [];
  }

  lemma CrcOfNext(bytes: seq<Octet>, b: Octet)
    ensures Crc8.Crc(CrcBytes(bytes + [b])) == Crc8.Update(Crc8.Crc(CrcBytes(bytes)), b as bv8)
  {
    hide Crc8.Update;
    assert CrcBytes(bytes + [b])[..|bytes|] == CrcBytes(bytes);
  }

  /** The checksum of what is left in a buffer, by the loop of the source. */
  method CalcCrc8(buffer: ByteBuffer) returns (crc: Octet)
    requires buffer.Valid()
    modifies buffer`position
    ensures buffer.Valid() && buffer.position == buffer.limit
    ensures crc == Crc(buffer.data[old(buffer.position)..buffer.limit])
  {
    ghost var start := buffer.position;
    var result: bv8 := 0;
    CrcOfNone();
    hide Crc8.Update, Crc8.Crc, CrcBytes;
    while buffer.position < buffer.limit
      invariant buffer.Valid() && start <= buffer.position
      invariant result == Crc8.Crc(CrcBytes(buffer.data[start..buffer.position]))
      decreases buffer.limit - buffer.position
    {
      ghost var before := buffer.data[start..buffer.position];
      var b := buffer.Get();
      result := Crc8.Update(result, b as bv8);
      assert buffer.data[start..buffer.position] == before + [b];
      CrcOfNext(before, b);
    }
    crc := result as int;
  }

  /** Writing an event at the start of a cleared buffer; what follows it stays as it was. */
  method Write(e: TagEvent, out: ByteBuffer) returns (r: Result<(), RecordError>)
    requires out.Valid() && out.position == 0 && out.limit == out.data.Length >= RECORD_SIZE
    modifies out, out.data
    ensures out.Valid() && r.Ok? == Encode(e).Ok?
    ensures r.Ok? ==> out.data[..] == Encode(e).value + old(out.data[20 + |e.tag|..])
                      && out.position == 20 + |e.tag| && Layout(e, out.data[..out.position])
    ensures r.Err? ==> r.error == TagTooLong(|e.tag|)
                       && out.data[..] == LongBytes(e.eventId) + LongBytes(e.timestamp) + old(out.data[16..])
  {
    hide Layout;
    ghost var whole := out.data[..];
    out.PutLong(e.eventId);
    assert out.data[..8] == LongBytes(e.eventId) && out.data[8..] == whole[8..];
    out.PutLong(e.timestamp);
    assert out.data[16..] == whole[16..];
    if |e.tag| > MAX_TAG {
      assert out.data[..] == out.data[..16] + out.data[16..];
      return Err(TagTooLong(|e.tag|));
    }
    WriteTag(e, out);
    EncodedLayout(e);
    assert out.data[..] == out.data[..out.position] + out.data[out.position..];
    return Ok(());
  }

  method WriteTag(e: TagEvent, out: ByteBuffer)
    requires |e.tag| <= MAX_TAG
    requires out.Valid() && out.position == 16 && out.limit == out.data.Length >= RECORD_SIZE
    requires out.data[..16] == LongBytes(e.eventId) + LongBytes(e.timestamp)
    modifies out, out.data
    ensures out.Valid() && out.position == 20 + |e.tag|
    ensures out.data[..out.position] == Encode(e).value
    ensures out.data[out.position..] == old(out.data[20 + |e.tag|..])
  {
    hide Crc, Flags, LongBytes, BigEndian;
    ghost var whole := out.data[..];
    out.Put(Flags(e));
    assert out.data[17..] == whole[17..];
    out.PutShort(e.antennas.mask);
    assert out.data[19..] == whole[19..];
    out.PutAll(e.tag);
    assert out.data[out.position..] == whole[out.position..];
    WriteCrc(out);
    assert out.data[out.position..] == whole[out.position..];
  }

  method WriteCrc(out: ByteBuffer)
    requires out.Valid() && out.position < out.data.Length
    modifies out, out.data
    ensures out.Valid() && out.position == old(out.position) + 1
    ensures out.data[..out.position] == old(out.data[..out.position]) + [Crc(old(out.data[..out.position]))]
    ensures out.data[out.position..] == old(out.data[out.position + 1..])
  {
    out.Flip();
    var crc := CalcCrc8(out);
    out.SetLimit(out.data.Length);
    out.Put(crc);
  }

  method Read(buffer: ByteBuffer) returns (r: Result<TagEvent, RecordError>)
    requires buffer.Valid() && buffer.position == 0 && buffer.limit == buffer.data.Length >= RECORD_SIZE
    modifies buffer
    ensures buffer.Valid() && r == Decode(buffer.data[..])
  {
    hide Crc, LongOf, FromBigEndian;
    ghost var s := buffer.data[..];
    var eventId := buffer.GetLong();
    var timestamp := buffer.GetLong();
    assert buffer.data[0..8] == s[..8] && buffer.data[8..16] == s[8..16];
    var flags := buffer.Get();
    var length: int;
    var antennas := EMPTY;
    if (flags / 4) % 2 == 1 {
      length := flags / 16;
      var mask := buffer.GetAll(2);
      assert mask == s[17..19];
      AntennaMaskBound(mask);
      antennas := ByMask(FromBigEndian(mask));
    } else {
      var b := buffer.Get();
      length := SignedByte(b);
    }
    if length > MAX_TAG {
      return Err(TagTooLong(length));
    }
    if length < 0 {
      return Err(NegativeLength(length));
    }
    var tag := buffer.GetAll(length);
    assert tag == s[TagStart(flags)..TagStart(flags) + length];
    var crcIsRight := CheckCrc(buffer);
    if !crcIsRight {
      return Err(CrcFailed);
    }
    return Ok(TagEvent(eventId, timestamp, antennas, tag, flags % 2 == 1, (flags / 2) % 2 == 1));
  }

  method CheckCrc(buffer: ByteBuffer) returns (right: bool)
    requires buffer.Valid() && buffer.position < buffer.limit
    modifies buffer
    ensures buffer.Valid()
    ensures right == (buffer.data[old(buffer.position)] == Crc(buffer.data[..old(buffer.position)]))
  {
    var position := buffer.position;
    var expected := buffer.Get();
    buffer.SetLimit(position);
    buffer.Rewind();
    var calculated := CalcCrc8(buffer);
    right := expected == calculated;
  }
}
