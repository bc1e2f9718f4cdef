/**
 Addresses as big-endian byte sequences, the in-place byte loops of internal/store/ipalloc.go, and
 the integer arithmetic those loops refine. The byte-level lemmas hold for any address length; text
 is IPv4 dotted decimal, and CIDR notation is that of section 3.1 of RFC 4632.
 */
module Ipv4 {
  import opened Arith
  import opened Text

  type Byte = x: int | 0 <= x < 256

  type Bytes = seq<Byte>

  /** The big-endian value of a byte sequence. */
  function Value(b: Bytes): nat {
    if b == [] then 0 else 256 * Value(b[..|b| - 1]) + b[|b| - 1]
  }

  /** The n-byte big-endian representation of v modulo 256^n. */
  function BytesOf(v: nat, n: nat): (b: Bytes)
    ensures |b| == n
  {
    if n == 0 then [] else BytesOf(v / 256, n - 1) + [v % 256]
  }

  lemma {:induction false} ValueBound(b: Bytes)
    ensures Value(b) < Pow2(8 * |b|)
  {
    if b != [] {
      ValueBound(b[..|b| - 1]);
      Pow2Byte(|b|);
    }
  }

  lemma {:induction false} ValueInjective(a: Bytes, b: Bytes)
    requires |a| == |b| && Value(a) == Value(b)
    ensures a == b
  {
    if a != [] {
      ValueInjective(a[..|a| - 1], b[..|b| - 1]);
      assert a == a[..|a| - 1] + [a[|a| - 1]];
      assert b == b[..|b| - 1] + [b[|b| - 1]];
    }
  }

  lemma {:induction false} BytesOfValue(v: nat, n: nat)
    requires v < Pow2(8 * n)
    ensures Value(BytesOf(v, n)) == v
    decreases n
  {
    if n > 0 {
      Pow2Byte(n);
      BytesOfValue(v / 256, n - 1);
      assert BytesOf(v, n)[..n - 1] == BytesOf(v / 256, n - 1);
    }
  }

  // ---- incIP ----

  /** Big-endian increment with carry: the meaning of incIP on a byte sequence. */
  function Increment(b: Bytes): (r: Bytes)
    ensures |r| == |b|
  {
    if b == [] then []
    else if b[|b| - 1] < 255 then b[..|b| - 1] + [b[|b| - 1] + 1]
    else Increment(b[..|b| - 1]) + [0]
  }

  lemma IncrementCases(b: Bytes)
    ensures b == [] ==> Increment(b) == []
    ensures b != [] ==> var init, last := b[..|b| - 1], b[|b| - 1];
                        Increment(b) == if last < 255 then init + [last + 1] else Increment(init) + [0]
  {
  }

  lemma {:induction false} IncrementAddsOne(b: Bytes)
    ensures Value(Increment(b)) == (Value(b) + 1) % Pow2(8 * |b|)
  {
    ValueBound(b);
    if b != [] {
      var init, last := b[..|b| - 1], b[|b| - 1];
      Pow2Byte(|b|);
      ValueBound(init);
      if last < 255 {
        assert (b[..|b| - 1] + [last + 1])[..|b| - 1] == init;
        SmallMod(Value(b) + 1, Pow2(8 * |b|));
      } else {
        IncrementAddsOne(init);
        assert Increment(b)[..|b| - 1] == Increment(init);
        ModSplit(Value(init) + 1, 0, Pow2(8 * |init|), 256);
      }
    }
  }

  /** incIP adds one in place, modulo 256^n, propagating the carry from the right. */
  method IncIP(ip: array<Byte>)
    modifies ip
    ensures Value(ip[..]) == (Value(old(ip[..])) + 1) % Pow2(8 * ip.Length)
  {
    hide Value, Pow2, Increment;
    ghost var was := ip[..];
    ghost var carried: Bytes := [];
    var j := ip.Length - 1;
    assert was[..j + 1] == was;
    while j >= 0
      invariant -1 <= j < ip.Length
      invariant ip[..] == was[..j + 1] + carried
      invariant Increment(was) == Increment(was[..j + 1]) + carried
    {
      IncrementCases(was[..j + 1]);
      assert was[..j + 1][..j] == was[..j];
      var up: Byte := if ip[j] == 255 then 0 else ip[j] + 1;
      ip[j] := up;
      assert ip[..] == was[..j] + [up] + carried;
      if ip[j] > 0 {
        break;
      }
      carried := [0] + carried;
      j := j - 1;
    }
    IncrementCases([]);
    assert ip[..] == Increment(was);
    IncrementAddsOne(was);
  }

  // ---- masks ----

  /** Bitwise and. */
  function And(a: nat, b: nat): nat {
    if a == 0 then 0 else 2 * And(a / 2, b / 2) + (if a % 2 == 1 && b % 2 == 1 then 1 else 0)
  }

  /** Bitwise or. */
  function Or(a: nat, b: nat): nat
    decreases a + b
  {
    if a == 0 then b else 2 * Or(a / 2, b / 2) + (if a % 2 == 1 || b % 2 == 1 then 1 else 0)
  }

  /** The number of ones that a prefix of length p puts into byte i. */
  function OnesIn(p: nat, i: nat): (k: nat)
    ensures k <= 8
  {
    if p <= 8 * i then 0 else if p >= 8 * i + 8 then 8 else p - 8 * i
  }

  /** The byte with its k high bits set. */
  function MaskByte(k: nat): (m: Byte)
    requires k <= 8
  {
    Pow2Small();
    256 - Pow2(8 - k)
  }

  /** The number of addresses an n-byte block of prefix length p holds. */
  function BlockSize(p: nat, n: nat): nat
    requires p <= 8 * n
  {
    Pow2(8 * n - p)
  }

  /** A bitwise and with i ones above j zeros clears the low j bits. */
  lemma {:induction false} AndHighBits(x: nat, i: nat, j: nat, m: nat)
    requires x < Pow2(i + j) && m == Pow2(i + j) - Pow2(j)
    ensures And(x, m) == x - x % Pow2(j)
    decreases i + j
  {
    if x == 0 {
    } else if j > 0 {
      assert Pow2(i + j) == 2 * Pow2(i + j - 1) && Pow2(j) == 2 * Pow2(j - 1);
      AndHighBits(x / 2, i, j - 1, m / 2);
      ModHalf(x, Pow2(j - 1));
    } else {
      assert Pow2(i) == 2 * Pow2(i - 1);
      AndHighBits(x / 2, i - 1, 0, m / 2);
    }
  }

  /** A bitwise or with j low ones fills cleared low bits. */
  lemma {:induction false} OrLowBits(y: nat, j: nat, m: nat)
    requires y % Pow2(j) == 0 && m == Pow2(j) - 1
    ensures Or(y, m) == y + m
    decreases j
  {
    if y > 0 {
      if j == 0 {
        OrZero(y);
      } else {
        ModHalf(y, Pow2(j - 1));
        OrLowBits(y / 2, j - 1, m / 2);
      }
    }
  }

  lemma {:induction false} OrZero(y: nat)
    ensures Or(y, 0) == y
  {
    if y > 0 {
      OrZero(y / 2);
    }
  }

  /** What a mask byte keeps of x, and what the broadcast byte makes of it. */
  lemma MaskedByte(x: Byte, k: nat)
    requires k <= 8
    ensures And(x, MaskByte(k)) == x - x % Pow2(8 - k)
    ensures 0 <= x - x % Pow2(8 - k) < 256 && x - x % Pow2(8 - k) + Pow2(8 - k) <= 256
    ensures And(And(x, MaskByte(k)), MaskByte(k)) == And(x, MaskByte(k))
    ensures Or(And(x, MaskByte(k)), 255 - MaskByte(k)) == And(x, MaskByte(k)) + Pow2(8 - k) - 1
  {
    hide And, Or, Pow2;
    Pow2Small();
    AndHighBits(x, k, 8 - k, MaskByte(k));
    RoundDown(x, Pow2(8 - k));
    Pow2Sum(k, 8 - k);
    RoundDownRoom(x, Pow2(8 - k), Pow2(k));
    var y := And(x, MaskByte(k));
    AndHighBits(y, k, 8 - k, MaskByte(k));
    OrLowBits(y, 8 - k, 255 - MaskByte(k));
  }

  /** The address with its host bits cleared. */
  function Masked(b: Bytes, p: nat): (r: Bytes)
    ensures |r| == |b|
  {
    seq(|b|, i requires 0 <= i < |b| => MaskAt(b, p, i))
  }

  /** Byte i of b under the mask of prefix length p. */
  function MaskAt(b: Bytes, p: nat, i: nat): (r: Byte)
    requires i < |b|
  {
    MaskedByte(b[i], OnesIn(p, i));
    And(b[i], MaskByte(OnesIn(p, i)))
  }

  lemma MaskedInit(b: Bytes, p: nat)
    requires b != []
    ensures Masked(b, p)[..|b| - 1] == Masked(b[..|b| - 1], p)
  {
  }

  lemma FullMask(b: Bytes, p: nat)
    requires p >= 8 * |b|
    ensures Masked(b, p) == b
  {
    Pow2Small();
    forall i | 0 <= i < |b| ensures Masked(b, p)[i] == b[i] {
      MaskedByte(b[i], 8);
    }
  }

  lemma BlockStep(p: nat, n: nat)
    requires n > 0 && p <= 8 * (n - 1)
    ensures BlockSize(p, n) == 256 * BlockSize(p, n - 1)
  {
    Pow2Small();
    Pow2Sum(8, 8 * (n - 1) - p);
  }

  lemma LastByte(p: nat, n: nat)
    requires n > 0 && 8 * (n - 1) <= p <= 8 * n
    ensures BlockSize(p, n) == Pow2(8 - OnesIn(p, n - 1))
    ensures Pow2(OnesIn(p, n - 1)) * Pow2(8 - OnesIn(p, n - 1)) == 256
  {
    Pow2Small();
    Pow2Sum(OnesIn(p, n - 1), 8 - OnesIn(p, n - 1));
  }

  /** Masking rounds the value down to a multiple of the block size. */
  lemma {:induction false} MaskedValue(b: Bytes, p: nat)
    requires p <= 8 * |b|
    ensures Value(Masked(b, p)) == Value(b) - Value(b) % BlockSize(p, |b|)
  {
    hide And, Pow2, MaskByte;
    if b != [] {
      var n := |b|;
      var init, last := b[..n - 1], b[n - 1];
      MaskedInit(b, p);
      var k := OnesIn(p, n - 1);
      MaskedByte(last, k);
      Pow2Small();
      if p >= 8 * (n - 1) {
        FullMask(init, p);
        LastByte(p, n);
        ModBelow(Value(init), last, Pow2(8 - k), Pow2(k));
      } else {
        MaskedValue(init, p);
        BlockStep(p, n);
        ModSplit(Value(init), last, BlockSize(p, n - 1), 256);
      }
    }
  }

  /** Contains of net.IPNet: the address and the network agree under the mask. */
  predicate Contains(net: Bytes, p: nat, ip: Bytes)
    requires |net| == |ip|
  {
    forall i :: 0 <= i < |ip| ==> MaskAt(net, p, i) == MaskAt(ip, p, i)
  }

  /** Mask membership is membership of the interval [network, network + block size). */
  lemma ContainsIsInterval(server: Bytes, p: nat, ip: Bytes)
    requires |server| == |ip| && p <= 8 * |ip|
    ensures
      var net := Masked(server, p);
      Contains(net, p, ip) <==> Value(net) <= Value(ip) < Value(net) + BlockSize(p, |ip|)
  {
    var net := Masked(server, p);
    forall i | 0 <= i < |ip| ensures MaskAt(net, p, i) == net[i] {
      MaskedByte(server[i], OnesIn(p, i));
    }
    assert Contains(net, p, ip) <==> Masked(ip, p) == net by {
      assert Masked(ip, p) == net ==> forall i :: 0 <= i < |ip| ==> net[i] == Masked(ip, p)[i];
    }
    if Value(Masked(ip, p)) == Value(net) {
      ValueInjective(Masked(ip, p), net);
    }
    MaskedValue(ip, p);
    MaskedValue(server, p);
    SameBlock(Value(server), Value(ip), BlockSize(p, |ip|));
  }

  // ---- broadcastAddr ----

  /** Byte i of the directed broadcast address: network bits kept, host bits all ones. */
  function BroadcastAt(net: Bytes, p: nat, i: nat): nat
    requires i < |net|
  {
    Or(net[i], 255 - MaskByte(OnesIn(p, i)))
  }

  /** The directed broadcast address of the block that holds server. */
  function Broadcast(server: Bytes, p: nat): (b: Bytes)
    ensures |b| == |server|
  {
    forall i | 0 <= i < |server| ensures BroadcastAt(Masked(server, p), p, i) < 256 {
      MaskedByte(server[i], OnesIn(p, i));
    }
    seq(|server|, i requires 0 <= i < |server| && BroadcastAt(Masked(server, p), p, i) < 256 =>
      BroadcastAt(Masked(server, p), p, i) as Byte)
  }

  lemma BroadcastInit(server: Bytes, p: nat)
    requires server != []
    ensures Broadcast(server, p)[..|server| - 1] == Broadcast(server[..|server| - 1], p)
    ensures Broadcast(server, p)[|server| - 1]
         == Masked(server, p)[|server| - 1] + Pow2(8 - OnesIn(p, |server| - 1)) - 1
  {
    hide And, Or, Pow2, MaskByte;
    var n := |server|;
    MaskedInit(server, p);
    MaskedByte(server[n - 1], OnesIn(p, n - 1));
    assert Broadcast(server, p)[n - 1] == BroadcastAt(Masked(server, p), p, n - 1);
    forall i | 0 <= i < n - 1 ensures Broadcast(server, p)[i] == Broadcast(server[..n - 1], p)[i] {
      assert Masked(server, p)[i] == Masked(server, p)[..n - 1][i];
    }
  }

  lemma BroadcastFull(server: Bytes, p: nat)
    requires p >= 8 * |server|
    ensures Broadcast(server, p) == server
  {
    FullMask(server, p);
    Pow2Small();
    forall i | 0 <= i < |server| ensures Broadcast(server, p)[i] == server[i] {
      OrZero(server[i]);
    }
  }

  /** The broadcast address is the last address of the block. */
  lemma {:induction false} BroadcastValue(server: Bytes, p: nat)
    requires p <= 8 * |server|
    ensures Value(Broadcast(server, p)) == Value(Masked(server, p)) + BlockSize(p, |server|) - 1
  {
    hide Masked, Broadcast, Pow2;
    Pow2Small();
    if server != [] {
      var n := |server|;
      var init := server[..n - 1];
      MaskedInit(server, p);
      BroadcastInit(server, p);
      if p >= 8 * (n - 1) {
        FullMask(init, p);
        BroadcastFull(init, p);
        LastByte(p, n);
      } else {
        BroadcastValue(init, p);
        BlockStep(p, n);
      }
    }
  }

  /** broadcastAddr fills a fresh buffer byte by byte; its value is network + 2^(8n-p) - 1. */
  method BroadcastAddr(server: Bytes, p: nat) returns (b: array<Byte>)
    requires p <= 8 * |server|
    ensures fresh(b) && b.Length == |server|
    ensures Value(b[..]) == Value(Masked(server, p)) + BlockSize(p, |server|) - 1
  {
    var net := Masked(server, p);
    b := new Byte[|net|](_ => 0);
    for i := 0 to |net|
      invariant b[..i] == Broadcast(server, p)[..i]
    {
      assert BroadcastAt(net, p, i) == Broadcast(server, p)[i];
      b[i] := Or(net[i], 255 - MaskByte(OnesIn(p, i)));
    }
    assert b[..] == Broadcast(server, p);
    BroadcastValue(server, p);
  }

  // ---- text ----

  /** Dotted decimal, the key of the allocator's reserved set. */
  function Dotted(ip: Bytes): string {
    if |ip| == 4 then Field(ip[0], Field(ip[1], Field(ip[2], Decimal(ip[3])))) else ""
  }

  function Field(x: Byte, rest: string): string {
    Decimal(x) + "." + rest
  }

  /** One octet: at most 255, no sign, no leading zero. */
  function ParseOctet(s: string): Option<Byte> {
    if s != [] && AllDigits(s) && (|s| > 1 ==> s[0] != '0') && DecimalValue(s) <= 255
    then Some(DecimalValue(s))
    else None
  }

  function ParseIPv4(s: string): (r: Option<Bytes>)
    ensures r.Some? ==> |r.value| == 4
  {
    var f := Split(s, '.');
    if |f| == 4 && forall i :: 0 <= i < 4 ==> ParseOctet(f[i]).Some?
    then Some(seq(4, i requires 0 <= i < 4 && ParseOctet(f[i]).Some? => ParseOctet(f[i]).value))
    else None
  }

  /** An address with a prefix length, as net.ParseCIDR yields it. */
  datatype Cidr = Cidr(ip: Bytes, prefix: nat) {
    predicate Valid() { |ip| == 4 && prefix <= 32 }
  }

  function ParseCIDR(s: string): (r: Option<Cidr>)
    ensures r.Some? ==> r.value.Valid()
  {
    var i := FirstIndex(s, '/');
    if i == |s| then None else
    var ip, bits := ParseIPv4(s[..i]), s[i + 1..];
    if ip.Some? && bits != [] && AllDigits(bits) && DecimalValue(bits) <= 32
    then Some(Cidr(ip.value, DecimalValue(bits)))
    else None
  }

  lemma OctetRoundTrip(x: Byte)
    ensures '.' !in Decimal(x) && '/' !in Decimal(x)
    ensures ParseOctet(Decimal(x)) == Some(x)
  {
    DecimalDenotes(x);
  }

  lemma FieldSplit(x: Byte, rest: string)
    ensures Split(Field(x, rest), '.') == [Decimal(x)] + Split(rest, '.')
    ensures '/' !in rest ==> '/' !in Field(x, rest)
  {
    OctetRoundTrip(x);
    SplitCons(Decimal(x), '.', rest);
  }

  lemma DottedSplit(ip: Bytes)
    requires |ip| == 4
    ensures Split(Dotted(ip), '.') == [Decimal(ip[0]), Decimal(ip[1]), Decimal(ip[2]), Decimal(ip[3])]
    ensures '/' !in Dotted(ip)
  {
    hide Split, Decimal;
    var s3 := Decimal(ip[3]);
    var s2 := Field(ip[2], s3);
    var s1 := Field(ip[1], s2);
    OctetRoundTrip(ip[3]);
    SplitLast(s3, '.');
    FieldSplit(ip[2], s3);
    FieldSplit(ip[1], s2);
    FieldSplit(ip[0], s1);
  }

  /** Dotted decimal reads back to the same bytes. */
  lemma DottedRoundTrip(ip: Bytes)
    requires |ip| == 4
    ensures ParseIPv4(Dotted(ip)) == Some(ip) && '/' !in Dotted(ip)
  {
    DottedSplit(ip);
    var f := Split(Dotted(ip), '.');
    forall i | 0 <= i < 4 ensures ParseOctet(f[i]) == Some(ip[i]) {
      OctetRoundTrip(ip[i]);
    }
    assert ParseIPv4(Dotted(ip)).value == ip;
  }

  /** The reserved-set key determines the address. */
  lemma DottedInjective(a: Bytes, b: Bytes)
    requires |a| == 4 && |b| == 4 && Dotted(a) == Dotted(b)
    ensures a == b
  {
    DottedRoundTrip(a);
    DottedRoundTrip(b);
  }

  /** The text stored for a peer parses back to the allocated address. */
  lemma HostCidrRoundTrip(ip: Bytes)
    requires |ip| == 4
    ensures ParseCIDR(Dotted(ip) + "/32") == Some(Cidr(ip, 32))
  {
    hide Dotted, ParseIPv4, FirstIndex;
    DottedRoundTrip(ip);
    var s := Dotted(ip) + "/32";
    assert s == Dotted(ip) + ['/'] + "32";
    FirstIndexAfter(Dotted(ip), '/', "32");
    assert s[..|Dotted(ip)|] == Dotted(ip) && s[|Dotted(ip)| + 1..] == "32";
    assert DecimalValue("3") == 3 by { assert "3"[..0] == []; }
    assert "32"[..1] == "3";
    assert DecimalValue("32") == 32;
  }

  /** CIDR notation of an address with any prefix length reads back to both. */
  lemma CidrRoundTrip(ip: Bytes, p: nat)
    requires |ip| == 4 && p <= 32
    ensures ParseCIDR(Dotted(ip) + ['/'] + Decimal(p)) == Some(Cidr(ip, p))
  {
    hide Dotted, ParseIPv4, FirstIndex, Decimal;
    DottedRoundTrip(ip);
    DecimalDenotes(p);
    var s := Dotted(ip) + ['/'] + Decimal(p);
    FirstIndexAfter(Dotted(ip), '/', Decimal(p));
    assert s[..|Dotted(ip)|] == Dotted(ip) && s[|Dotted(ip)| + 1..] == Decimal(p);
  }

  /** The text of the default subnet, and of the address after its server. */
  lemma DefaultTexts()
    ensures Dotted([10, 0, 0, 1]) + ['/'] + Decimal(16) == "10.0.0.1/16" && Dotted([10, 0, 0, 2]) == "10.0.0.2"
  {
    assert Decimal(10) == "10" && Decimal(16) == "16" && Decimal(0) == "0" && Decimal(1) == "1" && Decimal(2) == "2";
    assert Field(0, "1") == "0.1" && Field(0, "2") == "0.2";
    assert Field(0, "0.1") == "0.0.1" && Field(0, "0.2") == "0.0.2";
    assert Field(10, "0.0.1") == "10.0.0.1" && Field(10, "0.0.2") == "10.0.0.2";
    assert "10.0.0.1" + ['/'] + "16" == "10.0.0.1/16";
  }

  lemma ValueOfFour(a: Byte, b: Byte, c: Byte, d: Byte)
    ensures Value([a, b, c, d]) == 16_777_216 * a + 65_536 * b + 256 * c + d
  {
    assert [a, b, c, d][..3] == [a, b, c] && [a, b, c][..2] == [a, b] && [a, b][..1] == [a] && [a][..0] == [];
    assert Value([a]) == a;
    assert Value([a, b]) == 256 * a + b;
    assert Value([a, b, c]) == 256 * (256 * a + b) + c;
  }

  /** Only canonical dotted decimal is accepted as an address. */
  lemma ParsedIsDotted(s: string)
    ensures ParseIPv4(s).Some? ==> s == Dotted(ParseIPv4(s).value)
  {
    hide Split, Decimal;
    if ParseIPv4(s).Some? {
      var f := Split(s, '.');
      forall i | 0 <= i < 4 ensures f[i] == Decimal(ParseIPv4(s).value[i]) {
        assert ParseOctet(f[i]).Some?;
        DecimalCanonical(f[i]);
      }
      JoinSplit(s, '.');
      FourJoined(f[0], f[1], f[2], f[3]);
      assert f == [f[0], f[1], f[2], f[3]];
    }
  }

  lemma FourJoined(a: string, b: string, c: string, d: string)
    ensures Join([a, b, c, d], '.') == a + "." + (b + "." + (c + "." + d))
  {
    JoinCons(a, [b, c, d], '.');
    JoinCons(b, [c, d], '.');
    JoinCons(c, [d], '.');
    assert [a] + [b, c, d] == [a, b, c, d] && [b] + [c, d] == [b, c, d] && [c] + [d] == [c, d];
  }

  /** Only an address, a slash and a prefix length of at most 32 in digits are accepted as CIDR notation. */
  lemma ParsedIsCidr(s: string)
    ensures ParseCIDR(s).Some? ==>
      exists bits :: AllDigits(bits) && bits != [] && DecimalValue(bits) == ParseCIDR(s).value.prefix
                     && s == Dotted(ParseCIDR(s).value.ip) + ['/'] + bits
  {
    hide Dotted, ParseIPv4;
    if ParseCIDR(s).Some? {
      var i := FirstIndex(s, '/');
      ParsedIsDotted(s[..i]);
      assert s == s[..i] + ['/'] + s[i + 1..];
    }
  }
}
