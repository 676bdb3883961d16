/** IPv4 headers of kernel/src/network/ip.rs. Fields have the width of the source's u8 and u16;
    shifts drop what does not fit. */
module Ipv4 {
  import opened Common
  import opened Checksum

  type Half = h: int | 0 <= h < 0x1_0000 witness 0

  datatype Packet = Packet(
    version: Byte, ihl: Byte, dscp: Byte, ecn: Byte, totalLength: Half, identification: Half,
    flags: Byte, fragmentOffset: Half, ttl: Byte, protocol: Byte, checksum: Half,
    source: seq<Byte>, destination: seq<Byte>, payload: seq<Byte>)
  {
    predicate Valid() { |source| == 4 && |destination| == 4 }

    /** Every field fits its bits in the header. */
    predicate Fits() { version == 4 && ihl < 16 && dscp < 64 && ecn < 4 && flags < 8 && fragmentOffset < 8192 }
  }

  // ---------------------------------------------------------------------------
  // Bits

  function Or(a: nat, b: nat): nat {
    if a == 0 && b == 0 then 0
    else 2 * Or(a / 2, b / 2) + if a % 2 == 1 || b % 2 == 1 then 1 else 0
  }

  function Pow2(k: nat): nat { if k == 0 then 1 else 2 * Pow2(k - 1) }

  /** Multiples of 2^k and numbers below 2^k have no bit in common. */
  lemma {:induction false} OrAdds(q: nat, b: nat, k: nat)
    requires b < Pow2(k)
    ensures Or(q * Pow2(k), b) == q * Pow2(k) + b
    decreases k
  {
    if k == 0 {
      OrZero(q);
    } else {
      var a, half := q * Pow2(k), q * Pow2(k - 1);
      assert a == 2 * half;
      OrAdds(q, b / 2, k - 1);
    }
  }

  lemma {:induction false} OrZero(a: nat)
    ensures Or(a, 0) == a
  {
    if a > 0 {
      OrZero(a / 2);
    }
  }

  lemma {:induction false} OrBelow(a: nat, b: nat, k: nat)
    requires a < Pow2(k) && b < Pow2(k)
    ensures Or(a, b) < Pow2(k)
    decreases k
  {
    if k > 0 {
      OrBelow(a / 2, b / 2, k - 1);
    }
  }

  lemma Powers()
    ensures Pow2(2) == 4 && Pow2(4) == 16 && Pow2(8) == 256 && Pow2(13) == 8192 && Pow2(16) == 0x1_0000
  {
    assert Pow2(4) == 16;
    assert Pow2(6) == 64;
    assert Pow2(8) == 256;
    assert Pow2(10) == 1024;
    assert Pow2(12) == 4096;
    assert Pow2(14) == 16384;
  }

  /** `x << s | y` in a u8, where `unit` is 2^s. */
  function Pack8(x: Byte, unit: nat, y: Byte): Byte {
    Powers();
    OrBelow(x * unit % 256, y, 8);
    Or(x * unit % 256, y)
  }

  /** `x << s | y` in a u16. */
  function Pack16(x: Half, unit: nat, y: Half): Half {
    Powers();
    OrBelow(x * unit % 0x1_0000, y, 16);
    Or(x * unit % 0x1_0000, y)
  }

  lemma PackAdds(x: nat, k: nat, y: nat, width: nat)
    requires y < Pow2(k) && x * Pow2(k) < width
    ensures Or(x * Pow2(k) % width, y) == x * Pow2(k) + y
  {
    hide Or, Pow2;
    OrAdds(x, y, k);
    SmallMod(x * Pow2(k), width);
  }

  lemma SmallMod(n: nat, width: nat)
    requires n < width
    ensures n % width == n
  {
  }

  function BigEndian(h: Half): (r: seq<Byte>)
    ensures |r| == 2
  {
    [h / 256, h % 256]
  }

  function FromBigEndian(high: Byte, low: Byte): Half {
    var h: int, l: int := high, low;
    h * 256 + l
  }

  // ---------------------------------------------------------------------------
  // Parsing and emitting

  function Parse(data: seq<Byte>): Option<Packet> {
    if |data| < 20 then None
    else
      var version, ihl := data[0] / 16, data[0] % 16;
      if version != 4 || ihl * 4 > |data| then None
      else
        Some(Packet(version, ihl, data[1] / 4, data[1] % 4, FromBigEndian(data[2], data[3]),
                    FromBigEndian(data[4], data[5]), data[6] / 32, FromBigEndian(data[6] % 32, data[7]),
                    data[8], data[9], FromBigEndian(data[10], data[11]), data[12..16], data[16..20], data[ihl * 4..]))
  }

  /** The header with a zero checksum field. */
  function Header(p: Packet): (r: seq<Byte>)
    requires p.Valid()
    ensures |r| == 20 && r[10] == 0 && r[11] == 0
  {
    [Pack8(p.version, 16, p.ihl), Pack8(p.dscp, 4, p.ecn)]
    + BigEndian(p.totalLength) + BigEndian(p.identification)
    + BigEndian(Pack16(p.flags, 8192, p.fragmentOffset))
    + [p.ttl, p.protocol, 0, 0] + p.source + p.destination
  }

  function Emitted(p: Packet): (r: seq<Byte>)
    requires p.Valid()
    ensures |r| == 20 + |p.payload|
  {
    Patched(Header(p), 10, Check(Header(p))) + p.payload
  }

  method ToBytes(p: Packet) returns (r: seq<Byte>)
    requires p.Valid()
    ensures r == Emitted(p) && Check(r[..20]) == 0 && r[20..] == p.payload
  {
    hide Check, Pack8, Pack16;
    r := [Pack8(p.version, 16, p.ihl)];
    r := r + [Pack8(p.dscp, 4, p.ecn)];
    r := r + BigEndian(p.totalLength) + BigEndian(p.identification);
    r := r + BigEndian(Pack16(p.flags, 8192, p.fragmentOffset));
    r := r + [p.ttl] + [p.protocol] + [0, 0] + p.source + p.destination;
    assert r == Header(p);
    var c := CalculateChecksum(r[..20]);
    assert r[..20] == r;
    PatchedChecks(r, 10);
    r := r[10 := c / 256];
    r := r[11 := c % 256];
    ghost var header := r;
    r := r + p.payload;
    assert r[..20] == header;
  }

  // ---------------------------------------------------------------------------
  // Round trip

  /** The bit fields of a packet that fits, in its header bytes. */
  lemma BitFields(p: Packet)
    requires p.Fits()
    ensures Pack8(p.version, 16, p.ihl) == p.version * 16 + p.ihl
    ensures Pack8(p.dscp, 4, p.ecn) == p.dscp * 4 + p.ecn
    ensures Pack16(p.flags, 8192, p.fragmentOffset) == p.flags * 8192 + p.fragmentOffset
  {
    hide Or, Pow2;
    Powers();
    PackAdds(p.version, 4, p.ihl, 256);
    PackAdds(p.dscp, 2, p.ecn, 256);
    PackAdds(p.flags, 13, p.fragmentOffset, 0x1_0000);
  }

  /** The emitted bytes one by one. */
  lemma EmittedBytes(p: Packet)
    requires p.Valid()
    ensures var e, c := Emitted(p), Check(Header(p));
            && e[0] == Pack8(p.version, 16, p.ihl) && e[1] == Pack8(p.dscp, 4, p.ecn)
            && e[2..4] == BigEndian(p.totalLength) && e[4..6] == BigEndian(p.identification)
            && e[6..8] == BigEndian(Pack16(p.flags, 8192, p.fragmentOffset))
            && e[8] == p.ttl && e[9] == p.protocol && e[10..12] == BigEndian(c)
            && e[12..16] == p.source && e[16..20] == p.destination && e[20..] == p.payload
  {
    hide Check, Pack8, Pack16;
  }

  /** The 16-bit field at offset `i`, most significant byte first. */
  function Field(data: seq<Byte>, i: nat): int
    requires i + 1 < |data|
  {
    var high: int, low: int := data[i], data[i + 1];
    256 * high + low
  }

  /** The header format of RFC 791, section 3.1. */
  ghost predicate HasFormat(data: seq<Byte>, p: Packet)
    requires |data| >= 20
  {
    var first: int, second: int, version: int, dscp: int, flags: int :=
      data[0], data[1], p.version, p.dscp, p.flags;
    && first == 16 * version + p.ihl && p.ihl < 16 && second == 4 * dscp + p.ecn && p.ecn < 4
    && Field(data, 2) == p.totalLength && Field(data, 4) == p.identification
    && Field(data, 6) == 8192 * flags + p.fragmentOffset && p.fragmentOffset < 8192
    && data[8] == p.ttl && data[9] == p.protocol && data[12..16] == p.source && data[16..20] == p.destination
  }

  /** parse reads this format, and refuses exactly what is shorter than its header or not of
      version 4. */
  lemma ParsedFormat(data: seq<Byte>)
    ensures Parse(data).None? <==> |data| < 20 || !(64 <= data[0] < 80) || 4 * (data[0] - 64) > |data|
    ensures Parse(data).Some? ==>
              var p := Parse(data).value;
              && HasFormat(data, p) && p.version == 4 && Field(data, 10) == p.checksum && p.payload == data[4 * p.ihl..]
  {
  }

  /** to_bytes writes it, for a packet whose fields fit. */
  lemma EmittedFormat(p: Packet)
    requires p.Valid() && p.Fits()
    ensures HasFormat(Emitted(p), p) && Field(Emitted(p), 10) == Check(Header(p)) && Emitted(p)[20..] == p.payload
  {
    hide Check, Pack8, Pack16, Emitted, Header, Field;
    var e := Emitted(p);
    EmittedBytes(p);
    BitFields(p);
    BigEndianField(e, 2, p.totalLength);
    BigEndianField(e, 4, p.identification);
    BigEndianField(e, 6, Pack16(p.flags, 8192, p.fragmentOffset));
    BigEndianField(e, 10, Check(Header(p)));
  }

  lemma BigEndianField(e: seq<Byte>, i: nat, h: Half)
    requires i + 2 <= |e| && e[i..i + 2] == BigEndian(h)
    ensures Field(e, i) == h
  {
    assert e[i] == e[i..i + 2][0] && e[i + 1] == e[i..i + 2][1];
  }

  /** What parse gives has fields that fit, and a payload that starts after ihl words. */
  lemma ParsedFits(data: seq<Byte>)
    requires Parse(data).Some?
    ensures Parse(data).value.Fits() && |Parse(data).value.payload| == |data| - 4 * Parse(data).value.ihl
  {
  }

  /** parse undoes to_bytes, up to the checksum it filled in, exactly for packets whose fields
      fit and whose header has no options. */
  lemma RoundTripIff(p: Packet)
    requires p.Valid()
    ensures Parse(Emitted(p)) == Some(p.(checksum := Check(Header(p)))) <==> p.Fits() && p.ihl == 5
  {
    hide Check, Pack8, Pack16, Emitted;
    var e := Emitted(p);
    if Parse(e) == Some(p.(checksum := Check(Header(p)))) {
      ParsedFits(e);
    }
    if p.Fits() && p.ihl == 5 {
      RoundTrip(p);
    }
  }

  lemma RoundTrip(p: Packet)
    requires p.Valid() && p.Fits() && p.ihl == 5
    ensures Parse(Emitted(p)) == Some(p.(checksum := Check(Header(p))))
  {
    hide Check, Pack8, Pack16, Emitted, Header;
    var e := Emitted(p);
    EmittedBytes(p);
    BitFields(p);
    assert e[2] == e[2..4][0] && e[3] == e[2..4][1];
    assert e[4] == e[4..6][0] && e[5] == e[4..6][1];
    assert e[6] == e[6..8][0] && e[7] == e[6..8][1];
    assert e[10] == e[10..12][0] && e[11] == e[10..12][1];
    FragmentBits(p.flags, p.fragmentOffset);
  }

  lemma FragmentBits(flags: Byte, offset: Half)
    requires flags < 8 && offset < 8192
    ensures var h: Half := flags * 8192 + offset;
            && h / 256 / 32 == flags
            && (h / 256 % 32) * 256 + h % 256 == offset
  {
  }

  /** A packet with ihl 6, as if it had options. */
  function WithOptions(): Packet {
    Packet(4, 6, 0, 0, 28, 0, 0, 0, 64, 1, 0, [10, 0, 2, 15], [10, 0, 2, 2], [1, 2, 3, 4, 5, 6, 7, 8])
  }

  /** It is parsed back with the first four payload bytes missing. */
  lemma OptionsLosePayload()
    ensures WithOptions().Valid() && Parse(Emitted(WithOptions())).Some?
    ensures Parse(Emitted(WithOptions())).value.payload == [5, 6, 7, 8]
  {
    hide Check, Pack8, Pack16, Emitted, Header;
    var p := WithOptions();
    var e := Emitted(p);
    EmittedBytes(p);
    BitFields(p);
    assert e[24..] == e[20..][4..];
  }
}
