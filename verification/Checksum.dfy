/** The Internet checksum of kernel/src/network/ip.rs, as in RFC 1071, and the ICMP echo reply
    of kernel/src/network/mod.rs. */
module Checksum {
  import opened Common

  const MAX := 0xFFFF

  /** The big-endian word at offset `i`; a last single byte is the high byte. */
  function Word(data: seq<Byte>, i: nat): nat
    requires i < |data|
  {
    var high: int, low: int := data[i], if i + 1 < |data| then data[i + 1] else 0;
    high * 256 + low
  }

  /** The plain sum of the first `k` words. */
  function Sum(data: seq<Byte>, k: nat): nat
    requires 2 * k <= |data| + 1
  {
    if k == 0 then 0 else Sum(data, k - 1) + Word(data, 2 * (k - 1))
  }

  function Words(data: seq<Byte>): nat { (|data| + 1) / 2 }

  /** The one's complement value of a sum: its residue modulo 65535, where only the sum 0 is
      represented by 0. */
  function Residue(n: nat): (r: nat)
    ensures r <= MAX && (r == 0 <==> n == 0)
  {
    if n == 0 then 0 else (n - 1) % MAX + 1
  }

  function Check(data: seq<Byte>): (c: nat)
    ensures c <= MAX
  {
    MAX - Residue(Sum(data, Words(data)))
  }

  /** One addition with the carry folded back in. */
  lemma FoldIsResidue(n: nat, w: nat)
    requires w <= MAX
    ensures Residue(n + w) == if Residue(n) + w > MAX then Residue(n) + w - MAX else Residue(n) + w
  {
    if n > 0 {
      var q := (n - 1) / MAX;
      assert n - 1 == q * MAX + (Residue(n) - 1);
      assert n + w - 1 == q * MAX + (Residue(n) - 1 + w);
      if Residue(n) + w > MAX {
        ModOf(q + 1, Residue(n) - 1 + w - MAX);
        assert n + w - 1 == (q + 1) * MAX + (Residue(n) - 1 + w - MAX);
      } else {
        ModOf(q, Residue(n) - 1 + w);
      }
    }
  }

  lemma ModOf(q: nat, r: nat)
    requires r < MAX
    ensures (q * MAX + r) % MAX == r
  {
  }

  method CalculateChecksum(data: seq<Byte>) returns (c: nat)
    ensures c == Check(data)
  {
    hide Residue;
    var sum := 0;
    for k := 0 to Words(data)
      invariant sum == Residue(Sum(data, k)) && sum <= MAX
    {
      var word := Word(data, 2 * k);
      FoldIsResidue(Sum(data, k), word);
      sum := sum + word;
      if sum > MAX {
        sum := sum % 0x1_0000 + sum / 0x1_0000;
      }
    }
    c := MAX - sum;
  }

  /** A receiver's check gives 0 exactly for the non-zero multiples of 65535. */
  lemma ZeroCheckIff(data: seq<Byte>)
    ensures Check(data) == 0 <==> Sum(data, Words(data)) > 0 && Sum(data, Words(data)) % MAX == 0
  {
    var n := Sum(data, Words(data));
    if n > 0 {
      var q, r := (n - 1) / MAX, (n - 1) % MAX;
      assert n == q * MAX + r + 1;
      if r == MAX - 1 {
        assert n == (q + 1) * MAX + 0;
        ModOf(q + 1, 0);
      } else {
        ModOf(q, r + 1);
      }
    }
  }

  lemma {:induction false} SumOfPrefix(data: seq<Byte>, more: seq<Byte>, k: nat)
    requires 2 * k <= |data|
    ensures Sum(data + more, k) == Sum(data, k)
    decreases k
  {
    if k > 0 {
      SumOfPrefix(data, more, k - 1);
    }
  }

  /** Two more bytes count as one word, the first byte high. */
  lemma AppendWord(data: seq<Byte>, high: Byte, low: Byte)
    requires |data| % 2 == 0
    ensures Sum(data + [high, low], Words(data + [high, low])) == Sum(data, Words(data)) + 256 * high + low
  {
    SumOfPrefix(data, [high, low], Words(data));
  }

  /** A last single byte counts as if a zero byte followed it. */
  lemma OddByteIsPadded(data: seq<Byte>)
    requires |data| % 2 == 1
    ensures Sum(data, Words(data)) == Sum(data + [0], Words(data + [0])) && Check(data) == Check(data + [0])
  {
    hide Residue;
    var k := Words(data) - 1;
    SumOfPrefix(data, [0], k);
    assert Word(data + [0], 2 * k) == Word(data, 2 * k);
  }

  // ---------------------------------------------------------------------------
  // Writing the checksum into the data

  /** The checksum bytes at an even offset, most significant first. */
  function Patched(data: seq<Byte>, at: nat, c: nat): seq<Byte>
    requires at + 1 < |data| && c <= MAX
  {
    data[at := c / 256][at + 1 := c % 256]
  }

  lemma {:induction false} PatchAdds(data: seq<Byte>, at: nat, c: nat, k: nat)
    requires at + 1 < |data| && at % 2 == 0 && data[at] == 0 && data[at + 1] == 0 && c <= MAX && 2 * k <= |data| + 1
    ensures Sum(Patched(data, at, c), k) == Sum(data, k) + if at < 2 * k then c else 0
    decreases k
  {
    if k > 0 {
      PatchAdds(data, at, c, k - 1);
      var i := 2 * (k - 1);
      assert Word(Patched(data, at, c), i) == Word(data, i) + if at == i then c else 0;
    }
  }

  /** Data whose checksum field was zero checks to 0 once its checksum is written there. */
  lemma PatchedChecks(data: seq<Byte>, at: nat)
    requires at + 1 < |data| && at % 2 == 0 && data[at] == 0 && data[at + 1] == 0
    ensures Check(Patched(data, at, Check(data))) == 0
  {
    var c, n := Check(data), Sum(data, Words(data));
    PatchAdds(data, at, c, Words(data));
    FoldIsResidue(n, c);
  }

  /** handle_icmp_packet and send_icmp_reply: an echo request of at least 8 bytes is answered
      with the same bytes but for the type and a checksum that checks to 0. */
  method EchoReply(payload: seq<Byte>) returns (r: Option<seq<Byte>>)
    ensures r.Some? <==> |payload| >= 8 && payload[0] == 8
    ensures r.Some? ==>
              && |r.value| == |payload| && r.value[0] == 0 && r.value[1] == payload[1]
              && r.value[4..] == payload[4..] && Check(r.value) == 0
  {
    hide Check;
    if |payload| < 8 || payload[0] != 8 {
      return None;
    }
    var reply := payload[0 := 0];
    reply := reply[2 := 0];
    reply := reply[3 := 0];
    var c := CalculateChecksum(reply);
    PatchedChecks(reply, 2);
    reply := reply[2 := c / 256];
    reply := reply[3 := c % 256];
    r := Some(reply);
  }
}
