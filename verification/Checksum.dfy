/** The Internet checksum (section 1 of RFC 1071) and the headers of send_ping. */
module Checksum {
  import opened Bytes

  /** Sum of the little-endian 16-bit words, an odd last byte counting by itself. */
  function WordSum(data: seq<byte>): (r: nat)
    ensures r <= 0x8000 * |data|
  {
    if |data| == 0 then 0
    else if |data| == 1 then data[0]
    else Le16(data, 0) + WordSum(data[2..])
  }

  /** The 16-bit number with the same value modulo 65535; 0 for 0 only. */
  function Folded(v: nat): (r: nat)
    ensures r < 0x1_0000
    ensures r == 0 <==> v == 0
  {
    if v == 0 then 0 else (v - 1) % 65535 + 1
  }

  function Complement(v: nat): (r: nat)
    requires v < 0x1_0000
    ensures r < 0x1_0000
  {
    65535 - v
  }

  function ChecksumOf(data: seq<byte>): (r: nat)
    ensures r < 0x1_0000
  {
    Complement(Folded(WordSum(data)))
  }

  lemma FoldStep(v: nat)
    requires v >= 0x1_0000
    ensures v % 0x1_0000 + v / 0x1_0000 < v
    ensures Folded(v % 0x1_0000 + v / 0x1_0000) == Folded(v)
  {
    var h, l := v / 0x1_0000, v % 0x1_0000;
    assert v - 1 == 65535 * h + (l + h - 1);
    ModAdd(h, l + h - 1);
  }

  lemma ModAdd(k: nat, x: nat)
    ensures (65535 * k + x) % 65535 == x % 65535
  {
  }

  lemma {:induction false} SumBound(data: seq<byte>)
    ensures WordSum(data) <= 65535 * ((|data| + 1) / 2)
    decreases |data|
  {
    if |data| >= 2 { SumBound(data[2..]); }
  }

  /** First part of checksum: the sum, in 32 bits, which is enough up to 128 kB. */
  method SumWords(data: seq<byte>) returns (sum: nat)
    requires |data| <= 131072
    ensures sum == WordSum(data)
  {
    SumBound(data);
    sum := 0;
    var i := 0;
    while i < |data| / 2
      invariant 0 <= i <= |data| / 2
      invariant sum + WordSum(data[2 * i..]) == WordSum(data) < 0x1_0000_0000
    {
      SumStep(data, i);
      sum := (sum + Le16(data, 2 * i)) % 0x1_0000_0000;
      i := i + 1;
    }
    if |data| % 2 == 1 { sum := (sum + data[|data| - 1]) % 0x1_0000_0000; }
  }

  lemma SumStep(data: seq<byte>, i: nat)
    requires 2 * i + 2 <= |data|
    ensures WordSum(data[2 * i..]) == Le16(data, 2 * i) + WordSum(data[2 * (i + 1)..])
  {
    assert data[2 * i..][2..] == data[2 * (i + 1)..];
  }

  /** Second part: add the carries back in until 16 bits are left. */
  method FoldCarries(v: nat) returns (sum: nat)
    ensures sum == Folded(v)
  {
    sum := v;
    while sum / 0x1_0000 != 0
      invariant Folded(sum) == Folded(v)
      decreases sum
    {
      FoldStep(sum);
      sum := sum % 0x1_0000 + sum / 0x1_0000;
    }
    FoldedSmall(sum);
  }

  /** checksum. */
  method Checksum(data: seq<byte>) returns (r: nat)
    requires |data| <= 131072
    ensures r == ChecksumOf(data)
  {
    var sum := SumWords(data);
    sum := FoldCarries(sum);
    return Complement(sum);
  }

  lemma FoldedSmall(v: nat)
    requires v < 0x1_0000
    ensures Folded(v) == v
  {
  }

  // ---------------------------------------------------------------------
  // Storing the checksum
  // ---------------------------------------------------------------------

  /** `data` with the 16-bit word at an even offset replaced. */
  function WithWord(data: seq<byte>, k: nat, w: nat): (r: seq<byte>)
    requires k + 2 <= |data| && w < 0x1_0000
    ensures |r| == |data|
  {
    Patch(data, k, ToLe16(w))
  }

  lemma {:induction false} SumWithWord(data: seq<byte>, k: nat, w: nat)
    requires k % 2 == 0 && k + 2 <= |data| && w < 0x1_0000
    ensures WordSum(WithWord(data, k, w)) + Le16(data, k) == WordSum(data) + w
    decreases |data|
  {
    var r := WithWord(data, k, w);
    if k == 0 {
      assert r[2..] == data[2..];
    } else {
      SumWithWord(data[2..], k - 2, w);
      assert r[2..] == WithWord(data[2..], k - 2, w);
    }
  }

  /** Storing the checksum of the data, taken while the field is 0, makes the checksum of the whole 0. */
  lemma StoredChecksumVerifies(data: seq<byte>, k: nat)
    requires k % 2 == 0 && k + 2 <= |data| && Le16(data, k) == 0
    ensures ChecksumOf(WithWord(data, k, ChecksumOf(data))) == 0
  {
    SumWithWord(data, k, ChecksumOf(data));
    var v := WordSum(data);
    FoldComplement(v);
  }

  lemma FoldComplement(v: nat)
    ensures Folded(v + Complement(Folded(v))) == 65535
  {
    if v > 0 {
      var q := (v - 1) / 65535;
      assert v + Complement(Folded(v)) - 1 == 65535 * q + 65534;
      ModAdd(q, 65534);
    }
  }

  lemma FoldedPlus(r: nat, a: nat)
    requires r > 0
    ensures Folded(r + a) == ((r - 1) % 65535 + a) % 65535 + 1
  {
    var q, s := (r - 1) / 65535, (r - 1) % 65535;
    assert r + a - 1 == 65535 * q + (s + a);
    ModAdd(q, s + a);
  }

  lemma Reduced(s: nat, a: nat)
    requires s < 65535 && a <= 65535
    ensures (s + a) % 65535 == if s + a < 65535 then s + a else s + a - 65535
  {
  }

  lemma FoldedEqual(r: nat, a: nat, b: nat)
    requires a < 0x1_0000 && b < 0x1_0000
    ensures Folded(r + a) == Folded(r + b) <==>
              a == b || (r > 0 && ((a == 0 && b == 65535) || (a == 65535 && b == 0)))
  {
    if r > 0 {
      var s := (r - 1) % 65535;
      hide Folded;
      FoldedPlus(r, a);
      FoldedPlus(r, b);
      Reduced(s, a);
      Reduced(s, b);
    }
  }

  /** Changing one word goes unnoticed exactly when it swaps 0 and 0xFFFF beside other data. */
  lemma ChangeUnnoticedIff(data: seq<byte>, k: nat, w: nat)
    requires k % 2 == 0 && k + 2 <= |data| && w < 0x1_0000
    ensures var was, rest := Le16(data, k), WordSum(WithWord(data, k, 0));
            ChecksumOf(WithWord(data, k, w)) == ChecksumOf(data) <==>
              w == was || (rest > 0 && ((was == 0 && w == 65535) || (was == 65535 && w == 0)))
  {
    SumWithWord(data, k, w);
    SumWithWord(data, k, 0);
    FoldedEqual(WordSum(WithWord(data, k, 0)), w, Le16(data, k));
    hide WithWord, Folded, WordSum;
  }

  // ---------------------------------------------------------------------
  // Byte order
  // ---------------------------------------------------------------------

  /** htons. */
  function Swap16(w: nat): (r: nat)
    requires w < 0x1_0000
    ensures r < 0x1_0000
  {
    w / 0x100 + w % 0x100 * 0x100
  }

  /** An odd last byte counts as if a zero followed it (section 1 of RFC 1071). */
  lemma {:induction false} OddIsPadded(data: seq<byte>)
    requires |data| % 2 == 1
    ensures WordSum(data) == WordSum(data + [0]) && ChecksumOf(data) == ChecksumOf(data + [0])
    decreases |data|
  {
    if |data| > 1 {
      OddIsPadded(data[2..]);
      assert (data + [0])[2..] == data[2..] + [0];
    }
  }

  /** Every 16-bit word byte-swapped. */
  function Swapped(data: seq<byte>): (r: seq<byte>)
    requires |data| % 2 == 0
    ensures |r| == |data|
  {
    if |data| == 0 then [] else [data[1], data[0]] + Swapped(data[2..])
  }

  function HighSum(data: seq<byte>): nat
    requires |data| % 2 == 0
  {
    if |data| == 0 then 0 else data[1] as int + HighSum(data[2..])
  }

  /** Swapping every word multiplies the sum by 256, modulo 65535. */
  lemma {:induction false} SwappedSum(data: seq<byte>)
    requires |data| % 2 == 0
    ensures 256 * WordSum(data) == WordSum(Swapped(data)) + 65535 * HighSum(data)
    ensures WordSum(Swapped(data)) == 0 <==> WordSum(data) == 0
    decreases |data|
  {
    if |data| > 0 {
      SwappedSum(data[2..]);
      assert Swapped(data)[2..] == Swapped(data[2..]);
    }
  }

  /** Multiplying by 256 modulo 65535 swaps the bytes of the folded value. */
  lemma FoldedSwap(v: nat, u: nat, h: nat)
    requires 256 * v == u + 65535 * h && (u == 0 <==> v == 0)
    ensures Folded(u) == Swap16(Folded(v))
  {
    if v > 0 {
      var f, q := Folded(v), (v - 1) / 65535;
      assert v == 65535 * q + f;
      var s := Swap16(f);
      assert 256 * f == s + 65535 * (f / 0x100);
      assert s > 0;
      // u - 1 and s - 1 differ by a multiple of 65535, and s - 1 is a remainder.
      var k := 256 * q + f / 0x100 - h;
      assert u - 1 == 65535 * k + (s - 1);
      RemainderIs(u - 1, k, s - 1);
    }
  }

  lemma RemainderIs(x: nat, k: int, r: nat)
    requires x == 65535 * k + r && r < 65535
    ensures x % 65535 == r
  {
  }

  /** Byte-order independence (section 2(B) of RFC 1071). */
  lemma ByteOrderIndependent(data: seq<byte>)
    requires |data| % 2 == 0
    ensures ChecksumOf(Swapped(data)) == Swap16(ChecksumOf(data))
  {
    SwappedSum(data);
    FoldedSwap(WordSum(data), WordSum(Swapped(data)), HighSum(data));
    SwapComplement(Folded(WordSum(data)));
  }

  lemma SwapComplement(f: nat)
    requires f < 0x1_0000
    ensures Swap16(Complement(f)) == Complement(Swap16(f))
  {
    var h, l := f / 0x100, f % 0x100;
    assert Complement(f) == (255 - h) * 0x100 + (255 - l);
    assert Complement(f) / 0x100 == 255 - h && Complement(f) % 0x100 == 255 - l;
  }

  // ---------------------------------------------------------------------
  // send_ping
  // ---------------------------------------------------------------------

  /** htonl. */
  function Swap32(w: nat): (r: nat)
    requires w < 0x1_0000_0000
    ensures r < 0x1_0000_0000
  {
    Swap16(w / 0x1_0000) + Swap16(w % 0x1_0000) * 0x1_0000
  }

  /** struct ip_header in memory. */
  function IpHeader(totalLength: nat, ttl: byte, protocol: byte, check: nat, source: nat, destination: nat)
    : (r: seq<byte>)
    requires totalLength < 0x1_0000 && check < 0x1_0000 && source < 0x1_0000_0000 && destination < 0x1_0000_0000
    ensures |r| == 20
  {
    [0x45, 0] + ToLe16(totalLength) + ToLe16(0) + ToLe16(0) + [ttl, protocol] + ToLe16(check)
    + ToLe32(source) + ToLe32(destination)
  }

  /** struct icmp_header in memory. */
  function IcmpHeader(kind: byte, code: byte, check: nat, identifier: nat, sequence: nat): (r: seq<byte>)
    requires check < 0x1_0000 && identifier < 0x1_0000 && sequence < 0x1_0000
    ensures |r| == 8
  {
    [kind, code] + ToLe16(check) + ToLe16(identifier) + ToLe16(sequence)
  }

  /** In memory, a swapped number is its bytes from the most significant down. */
  lemma NetworkOrder16(w: nat)
    requires w < 0x1_0000
    ensures ToLe16(Swap16(w)) == [w / 0x100, w % 0x100]
  {
  }

  lemma NetworkOrder32(w: nat)
    requires w < 0x1_0000_0000
    ensures ToLe32(Swap32(w)) == [w / 0x100_0000, w / 0x1_0000 % 0x100, w / 0x100 % 0x100, w % 0x100]
  {
    var h, l := w / 0x1_0000, w % 0x1_0000;
    HalvesOf(Swap16(h), Swap16(l));
    NetworkOrder16(h);
    NetworkOrder16(l);
    BytesOf(w);
    hide Swap16, ToLe16, Le16, Le32;
  }

  lemma HalvesOf(low: nat, high: nat)
    requires low < 0x1_0000 && high < 0x1_0000
    ensures (low + high * 0x1_0000) % 0x1_0000 == low && (low + high * 0x1_0000) / 0x1_0000 == high
  {
  }

  lemma BytesOf(w: nat)
    requires w < 0x1_0000_0000
    ensures w / 0x1_0000 / 0x100 == w / 0x100_0000
    ensures w % 0x1_0000 / 0x100 == w / 0x100 % 0x100
    ensures w % 0x1_0000 % 0x100 == w % 0x100
  {
    var d, x := w % 0x100, w / 0x100;
    var c, y := x % 0x100, x / 0x100;
    assert w == 0x1_0000 * y + (0x100 * c + d);
    assert w / 0x1_0000 == y && w % 0x1_0000 == 0x100 * c + d;
  }

  /** The header with its checksum field filled in verifies. */
  lemma IpHeaderVerifies(totalLength: nat, ttl: byte, protocol: byte, source: nat, destination: nat)
    requires totalLength < 0x1_0000 && source < 0x1_0000_0000 && destination < 0x1_0000_0000
    ensures var check := ChecksumOf(IpHeader(totalLength, ttl, protocol, 0, source, destination));
            ChecksumOf(IpHeader(totalLength, ttl, protocol, check, source, destination)) == 0
  {
    hide ChecksumOf;
    var ip := IpHeader(totalLength, ttl, protocol, 0, source, destination);
    assert ip[10] == ToLe16(0)[0] && ip[11] == ToLe16(0)[1];
    StoredChecksumVerifies(ip, 10);
    assert WithWord(ip, 10, ChecksumOf(ip))
        == IpHeader(totalLength, ttl, protocol, ChecksumOf(ip), source, destination);
  }

  lemma IcmpHeaderVerifies(kind: byte, code: byte, identifier: nat, sequence: nat)
    requires identifier < 0x1_0000 && sequence < 0x1_0000
    ensures var check := ChecksumOf(IcmpHeader(kind, code, 0, identifier, sequence));
            ChecksumOf(IcmpHeader(kind, code, check, identifier, sequence)) == 0
  {
    hide ChecksumOf;
    var icmp := IcmpHeader(kind, code, 0, identifier, sequence);
    assert icmp[2] == ToLe16(0)[0] && icmp[3] == ToLe16(0)[1];
    StoredChecksumVerifies(icmp, 2);
    assert WithWord(icmp, 2, ChecksumOf(icmp)) == IcmpHeader(kind, code, ChecksumOf(icmp), identifier, sequence);
  }

  lemma IpHeaderFields(totalLength: nat, ttl: byte, protocol: byte, check: nat, source: nat, destination: nat)
    requires totalLength < 0x1_0000 && check < 0x1_0000 && source < 0x1_0000_0000 && destination < 0x1_0000_0000
    ensures var ip := IpHeader(totalLength, ttl, protocol, check, source, destination);
            && ip[0] == 0x45 && ip[1] == 0 && ip[2..4] == ToLe16(totalLength) && ip[4..8] == ToLe16(0) + ToLe16(0)
            && ip[8] == ttl && ip[9] == protocol
            && ip[12..16] == ToLe32(source) && ip[16..20] == ToLe32(destination)
  {
    hide ToLe16, ToLe32, Le32, Le16;
  }

  /** send_ping builds two headers that verify, whatever the destination, and puts the addresses and
      the length in network order. */
  method BuildPing(dest: nat) returns (packet: seq<byte>)
    requires dest < 0x1_0000_0000
    ensures |packet| == 28
    ensures ChecksumOf(packet[..20]) == 0 && ChecksumOf(packet[20..]) == 0
    ensures packet[..2] == [0x45, 0] && packet[2..4] == [0, 28] && packet[4..8] == [0, 0, 0, 0]
    ensures packet[8..10] == [64, 0] && packet[12..16] == [192, 168, 0, 1]
    ensures packet[16..20] == [dest / 0x100_0000, dest / 0x1_0000 % 0x100, dest / 0x100 % 0x100, dest % 0x100]
    ensures packet[20..22] == [8, 0] && packet[24..28] == [0, 1, 0, 1]
  {
    hide ChecksumOf, IpHeader, IcmpHeader, Swap16, Swap32, ToLe16, ToLe32, Le16, Le32;
    var length, source, destination := Swap16(20 + 8), Swap32(0xC0A80001), Swap32(dest);
    var check := Checksum(IpHeader(length, 64, 0, 0, source, destination));
    IpHeaderVerifies(length, 64, 0, source, destination);
    IpHeaderFields(length, 64, 0, check, source, destination);
    var ip := IpHeader(length, 64, 0, check, source, destination);
    var one := Swap16(1);
    var check2 := Checksum(IcmpHeader(8, 0, 0, one, one));
    IcmpHeaderVerifies(8, 0, one, one);
    IcmpHeaderFields(8, 0, check2, one, one);
    var icmp := IcmpHeader(8, 0, check2, one, one);
    NetworkOrder16(28);
    NetworkOrder16(1);
    ZeroWord();
    NetworkOrder32(0xC0A80001);
    NetworkOrder32(dest);
    HeadersTogether(ip, icmp);
    packet := ip + icmp;
  }

  lemma IcmpHeaderFields(kind: byte, code: byte, check: nat, identifier: nat, sequence: nat)
    requires check < 0x1_0000 && identifier < 0x1_0000 && sequence < 0x1_0000
    ensures var icmp := IcmpHeader(kind, code, check, identifier, sequence);
            icmp[..2] == [kind, code] && icmp[4..8] == ToLe16(identifier) + ToLe16(sequence)
  {
    hide ToLe16, Le16;
  }

  lemma ZeroWord()
    ensures ToLe16(0) == [0, 0]
  {
  }

  lemma HeadersTogether(ip: seq<byte>, icmp: seq<byte>)
    requires |ip| == 20 && |icmp| == 8
    ensures var packet := ip + icmp;
            && packet[..20] == ip && packet[20..] == icmp && packet[..2] == [ip[0], ip[1]]
            && packet[2..4] == ip[2..4] && packet[4..8] == ip[4..8] && packet[8..10] == [ip[8], ip[9]]
            && packet[12..16] == ip[12..16] && packet[16..20] == ip[16..20]
            && packet[20..22] == icmp[..2] && packet[24..28] == icmp[4..8]
  {
  }
}
