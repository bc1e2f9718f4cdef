/**
 txAllocateIP of internal/store/ipalloc.go: the lowest free host address of a CIDR block. The scan
 works on text and bytes; its meaning is stated on integers.
 */
module Allocator {
  import opened Arith
  import opened Text
  import opened Ipv4

  /** The number of IPv4 addresses. */
  const ADDRESSES: nat := 0x1_0000_0000

  datatype AllocError = InvalidSubnet | SubnetExhausted

  /** Endless: the scan goes round the address space for ever and no answer comes. */
  datatype AllocResult = Allocated(cidr: string) | Refused(error: AllocError) | Endless

  // ---- the block as an interval ----

  /** The addresses lo, ..., lo + size - 1 with the server's own address among them. */
  datatype Block = Block(lo: nat, size: nat, server: nat) {
    predicate Valid() {
      lo <= server < lo + size <= ADDRESSES
    }

    /** The block is the whole address space, as prefix length 0 makes it. */
    predicate Everything() {
      lo == 0 && size == ADDRESSES
    }

    /** Network, broadcast and server address. */
    function Reserved(): set<nat>
      requires Valid()
    {
      {lo, lo + size - 1, server}
    }

    predicate Free(taken: set<nat>, v: nat)
      requires Valid()
    {
      lo <= v < lo + size && v !in Reserved() && v !in taken
    }

    /** The first free address at or after v. */
    function LowestFrom(taken: set<nat>, v: nat): (r: Option<nat>)
      requires Valid()
      ensures r.Some? ==> v <= r.value && Free(taken, r.value)
      ensures r.Some? ==> forall w :: v <= w < r.value ==> !Free(taken, w)
      ensures r.None? ==> forall w :: v <= w ==> !Free(taken, w)
      decreases lo + size - v
    {
      if v >= lo + size then None
      else if Free(taken, v) then Some(v)
      else LowestFrom(taken, v + 1)
    }

    /** The lowest free address of the block, if any. */
    function Lowest(taken: set<nat>): (r: Option<nat>)
      requires Valid()
      ensures r.Some? ==> Free(taken, r.value) && forall w :: Free(taken, w) ==> r.value <= w
      ensures r.None? <==> forall w :: !Free(taken, w)
    {
      LowestFrom(taken, lo)
    }

    /** The k-th address the scan looks at, wrapping from 255.255.255.255 to 0.0.0.0. */
    function Visited(k: nat): nat {
      (lo + k) % ADDRESSES
    }

    /** The scan leaves its loop at the k-th address: it lies outside the block, or nobody has reserved it. */
    predicate StopsAt(taken: set<nat>, k: nat)
      requires Valid()
    {
      !(lo <= Visited(k) < lo + size) || Visited(k) !in Reserved() + taken
    }

    /** The scan ends. */
    ghost predicate ScanEnds(taken: set<nat>)
      requires Valid()
    {
      exists k: nat :: StopsAt(taken, k)
    }

    /** The scan is still going on after this many addresses. */
    ghost predicate StillScanning(taken: set<nat>, steps: nat)
      requires Valid()
    {
      forall k: nat :: k < steps ==> !StopsAt(taken, k)
    }

    /** The addresses of the block that a peer may hold. */
    function Usable(): set<nat>
      requires Valid()
    {
      Range(lo, size) - Reserved()
    }
  }

  /** The block a CIDR text with the server address as host bits describes. */
  function BlockOf(s: Cidr): (b: Block)
    requires s.Valid()
    ensures b.Valid()
  {
    BlockBounds(s);
    Block(Value(Masked(s.ip, s.prefix)), BlockSize(s.prefix, 4), Value(s.ip))
  }

  lemma AddressCount()
    ensures Pow2(32) == ADDRESSES
  {
    Pow2Small();
    Pow2Sum(8, 8);
    Pow2Sum(16, 16);
  }

  lemma BlockBounds(s: Cidr)
    requires s.Valid()
    ensures
      var lo, size := Value(Masked(s.ip, s.prefix)), BlockSize(s.prefix, 4);
      && lo <= Value(s.ip) < lo + size <= ADDRESSES
      && (s.prefix >= 1 && lo + size == ADDRESSES ==> lo > 0)
  {
    var p, v := s.prefix, Value(s.ip);
    AddressCount();
    MaskedValue(s.ip, p);
    ValueBound(s.ip);
    RoundDown(v, Pow2(32 - p));
    Pow2Sum(p, 32 - p);
    RoundDownRoom(v, Pow2(32 - p), Pow2(p));
    if p >= 1 {
      assert Pow2(32 - (p - 1)) == 2 * Pow2(32 - p);
      Pow2Sum(p - 1, 32 - (p - 1));
      MulAtLeast(Pow2(p - 1), Pow2(32 - (p - 1)));
    }
  }

  // ---- addresses as text ----

  /** The four bytes of an address. */
  ghost function AddrOf(v: nat): (ip: Bytes)
    ensures |ip| == 4 && (v < ADDRESSES ==> Value(ip) == v)
  {
    if v < ADDRESSES then AddrExists(v); var ip: Bytes :| |ip| == 4 && Value(ip) == v; ip else [0, 0, 0, 0]
  }

  lemma AddrExists(v: nat)
    requires v < ADDRESSES
    ensures exists ip: Bytes :: |ip| == 4 && Value(ip) == v
  {
    AddressCount();
    BytesOfValue(v, 4);
  }

  ghost function AddrText(v: nat): string {
    Dotted(AddrOf(v))
  }

  /** The text stored in wg_allowed_ip. */
  ghost function HostText(v: nat): string {
    AddrText(v) + "/32"
  }

  lemma AddrTextInjective(v: nat, w: nat)
    requires v < ADDRESSES && w < ADDRESSES && AddrText(v) == AddrText(w)
    ensures v == w
  {
    DottedInjective(AddrOf(v), AddrOf(w));
  }

  lemma AddrTextOfBytes(ip: Bytes)
    requires |ip| == 4
    ensures AddrText(Value(ip)) == Dotted(ip) && Value(ip) < ADDRESSES
  {
    AddressCount();
    ValueBound(ip);
    ValueInjective(AddrOf(Value(ip)), ip);
  }

  /** The addresses a wg_allowed_ip text reserves: none when it does not parse. */
  function Denoted(cidr: string): set<nat> {
    match ParseCIDR(cidr)
    case Some(c) => {Value(c.ip)}
    case None => {}
  }

  /** A stored address denotes the integer it was made from. */
  lemma HostTextDenotes(v: nat)
    requires v < ADDRESSES
    ensures Denoted(HostText(v)) == {v}
  {
    HostCidrRoundTrip(AddrOf(v));
  }

  /** The addresses reserved by the rows of the peers table. */
  function TakenBy(rows: seq<string>): set<nat> {
    if rows == [] then {} else TakenBy(rows[..|rows| - 1]) + Denoted(rows[|rows| - 1])
  }

  lemma TakenByNext(rows: seq<string>, i: nat)
    requires i < |rows|
    ensures TakenBy(rows[..i + 1]) == TakenBy(rows[..i]) + Denoted(rows[i])
  {
    assert rows[..i + 1][..i] == rows[..i];
  }

  lemma TakenByAppend(rows: seq<string>, cidr: string)
    ensures TakenBy(rows + [cidr]) == TakenBy(rows) + Denoted(cidr)
  {
    assert (rows + [cidr])[..|rows|] == rows;
  }

  // ---- the reserved map ----

  /** The reserved map holds exactly the texts of a set of addresses. */
  ghost predicate IsImage(texts: set<string>, vals: set<nat>) {
    && (forall v :: v in vals ==> v < ADDRESSES && AddrText(v) in texts)
    && (forall t :: t in texts ==> exists v :: v in vals && t == AddrText(v))
  }

  lemma EmptyImage()
    ensures IsImage({}, {})
  {
  }

  lemma TextAdd(texts: set<string>, vals: set<nat>, ip: Bytes)
    requires IsImage(texts, vals) && |ip| == 4
    ensures IsImage(texts + {Dotted(ip)}, vals + {Value(ip)})
  {
    hide AddrText, Dotted, Value;
    AddrTextOfBytes(ip);
    forall t | t in texts + {Dotted(ip)} ensures exists v :: v in vals + {Value(ip)} && t == AddrText(v) {
      if t in texts {
        var v :| v in vals && t == AddrText(v);
        assert v in vals + {Value(ip)};
      } else {
        assert Value(ip) in vals + {Value(ip)};
      }
    }
  }

  /** A text is reserved exactly when its address is. */
  lemma TextLookup(texts: set<string>, vals: set<nat>, ip: Bytes)
    requires IsImage(texts, vals) && |ip| == 4
    ensures Dotted(ip) in texts <==> Value(ip) in vals
    ensures Dotted(ip) == AddrText(Value(ip)) && Value(ip) < ADDRESSES
  {
    hide AddrText, Dotted, Value;
    AddrTextOfBytes(ip);
    if Dotted(ip) in texts {
      var v :| v in vals && Dotted(ip) == AddrText(v);
      AddrTextInjective(v, Value(ip));
    }
  }

  /** Fills the reserved map: network, broadcast and server, then every row that parses. */
  method ReservedTexts(network: Bytes, broadcast: Bytes, server: Bytes, rows: seq<string>) returns (texts: set<string>)
    requires |network| == |broadcast| == |server| == 4
    ensures IsImage(texts, {Value(network), Value(broadcast), Value(server)} + TakenBy(rows))
  {
    hide IsImage, Dotted, Value;
    texts := BlockTexts(network, broadcast, server);
    ghost var fixed := {Value(network), Value(broadcast), Value(server)};
    ghost var vals := fixed;
    for i := 0 to |rows|
      invariant vals == fixed + TakenBy(rows[..i])
      invariant IsImage(texts, vals)
    {
      TakenByNext(rows, i);
      var c := ParseCIDR(rows[i]);
      if c.Some? {
        TextAdd(texts, vals, c.value.ip);
        texts := texts + {Dotted(c.value.ip)};
        vals := vals + {Value(c.value.ip)};
      }
    }
    assert rows[..|rows|] == rows;
  }

  method BlockTexts(network: Bytes, broadcast: Bytes, server: Bytes) returns (texts: set<string>)
    requires |network| == |broadcast| == |server| == 4
    ensures IsImage(texts, {Value(network), Value(broadcast), Value(server)})
  {
    hide IsImage, Dotted, Value;
    ghost var n, b, v := Value(network), Value(broadcast), Value(server);
    texts := {};
    EmptyImage();
    TextAdd(texts, {}, network);
    texts := texts + {Dotted(network)};
    TextAdd(texts, {} + {n}, broadcast);
    texts := texts + {Dotted(broadcast)};
    TextAdd(texts, {} + {n} + {b}, server);
    texts := texts + {Dotted(server)};
    assert {} + {n} + {b} + {v} == {n, b, v};
  }

  // ---- the scan ----

  /** What txAllocateIP answers when the given addresses are taken. */
  ghost function Allocate(taken: set<nat>, subnet: string): AllocResult {
    match ParseCIDR(subnet)
    case None => Refused(InvalidSubnet)
    case Some(s) =>
      if !BlockOf(s).ScanEnds(taken) then Endless
      else
        match BlockOf(s).Lowest(taken)
        case Some(v) => Allocated(HostText(v))
        case None => Refused(SubnetExhausted)
  }

  /** txAllocateIP, watched for a number of loop iterations: no answer while the scan is still going on. */
  method AllocateIP(rows: seq<string>, subnet: string, steps: nat) returns (r: Option<AllocResult>)
    ensures r.Some? ==> r.value == Allocate(TakenBy(rows), subnet) && !r.value.Endless?
    ensures r.None? <==>
      ParseCIDR(subnet).Some? && BlockOf(ParseCIDR(subnet).value).StillScanning(TakenBy(rows), steps)
  {
    hide Value, Masked, IsImage, Describes, AddrText, ParseCIDR, TakenBy;
    var parsed := ParseCIDR(subnet);
    if parsed.None? {
      return Some(Refused(InvalidSubnet));
    }
    var s := parsed.value;
    var net := Masked(s.ip, s.prefix);
    var broadcast := BroadcastAddr(s.ip, s.prefix);
    InBlock(s);
    var texts := ReservedTexts(net, broadcast[..], s.ip, rows);
    var found := Scan(net, s.prefix, texts, steps, BlockOf(s), TakenBy(rows));
    match found
    case Running => r := None;
    case Found(addr) => r := Some(Allocated(addr + "/32"));
    case Ended => r := Some(Refused(SubnetExhausted));
  }

  /** A network and prefix describe a block: mask membership is membership of its interval. */
  ghost predicate Describes(net: Bytes, prefix: nat, b: Block) {
    && |net| == 4 && Value(net) == b.lo
    && forall ip: Bytes :: |ip| == 4 ==> (Contains(net, prefix, ip) <==> b.lo <= Value(ip) < b.lo + b.size)
  }

  lemma InBlock(s: Cidr)
    requires s.Valid()
    ensures Describes(Masked(s.ip, s.prefix), s.prefix, BlockOf(s))
    ensures s.prefix >= 1 <==> !BlockOf(s).Everything()
  {
    BlockBounds(s);
    AddressCount();
    forall ip: Bytes | |ip| == 4
      ensures Contains(Masked(s.ip, s.prefix), s.prefix, ip) <==>
              BlockOf(s).lo <= Value(ip) < BlockOf(s).lo + BlockOf(s).size
    {
      ContainsIsInterval(s.ip, s.prefix, ip);
    }
  }

  /** The byte loop of net.IPNet.Contains decides membership of the interval. */
  method InNetwork(net: Bytes, prefix: nat, ip: Bytes, ghost b: Block) returns (inside: bool)
    requires Describes(net, prefix, b) && |ip| == 4
    ensures inside <==> b.lo <= Value(ip) < b.lo + b.size
  {
    for i := 0 to 4
      invariant forall j :: 0 <= j < i ==> MaskAt(net, prefix, j) == MaskAt(ip, prefix, j)
    {
      if MaskAt(net, prefix, i) != MaskAt(ip, prefix, i) {
        assert !Contains(net, prefix, ip);
        return false;
      }
    }
    assert Contains(net, prefix, ip);
    return true;
  }

  datatype ScanResult = Running | Found(addr: string) | Ended

  /** Walks the block in place from the network address and stops at the first unreserved text. */
  method Scan(net: Bytes, prefix: nat, texts: set<string>, steps: nat, ghost b: Block, ghost taken: set<nat>)
      returns (r: ScanResult)
    requires b.Valid() && Describes(net, prefix, b) && IsImage(texts, b.Reserved() + taken)
    ensures r.Running? <==> b.StillScanning(taken, steps)
    ensures r.Found? ==> b.Lowest(taken).Some? && r.addr == AddrText(b.Lowest(taken).value)
    ensures r.Ended? ==> b.Lowest(taken).None?
  {
    hide Value, Dotted, AddrText, IsImage, Contains;
    var ip := new Byte[4](i requires 0 <= i < 4 => net[i]);
    assert ip[..] == net;
    for k := 0 to steps
      invariant Value(ip[..]) == b.Visited(k)
      invariant b.StillScanning(taken, k)
    {
      var inside := InNetwork(net, prefix, ip[..], b);
      if !inside {
        assert b.StopsAt(taken, k);
        FirstStop(b, taken, k);
        return Ended;
      }
      TextLookup(texts, b.Reserved() + taken, ip[..]);
      var addr := Dotted(ip[..]);
      if addr !in texts {
        assert b.StopsAt(taken, k);
        FirstStop(b, taken, k);
        return Found(addr);
      }
      NextIP(ip);
    }
    return Running;
  }

  method NextIP(ip: array<Byte>)
    requires ip.Length == 4
    modifies ip
    ensures Value(ip[..]) == (old(Value(ip[..])) + 1) % ADDRESSES
  {
    AddressCount();
    IncIP(ip);
  }

  /** Where the scan first stops is the lowest free address, or outside a block that has none. */
  lemma FirstStop(b: Block, taken: set<nat>, k: nat)
    requires b.Valid() && b.StopsAt(taken, k) && b.StillScanning(taken, k)
    ensures b.Lowest(taken) == if b.lo <= b.Visited(k) < b.lo + b.size then Some(b.Visited(k)) else None
  {
    if k > b.size {
      StopsByEnd(b, taken);
      assert false;
    }
    assert k > 0 ==> !b.StopsAt(taken, 0);
    assert b.lo + k < ADDRESSES ==> b.Visited(k) == b.lo + k;
    forall w | b.lo <= w < b.lo + k && w < b.lo + b.size ensures !b.Free(taken, w) {
      assert b.Visited(w - b.lo) == w;
      assert !b.StopsAt(taken, w - b.lo);
    }
    if k < b.size {
      assert b.Free(taken, b.lo + k);
    } else {
      assert forall w: nat :: !b.Free(taken, w);
    }
  }

  /** The scan stops at the end of the block at the latest, or goes round for ever. */
  lemma StopsByEnd(b: Block, taken: set<nat>)
    requires b.Valid() && b.StillScanning(taken, b.size + 1)
    ensures b.Everything() && b.Lowest(taken).None? && !b.ScanEnds(taken)
  {
    assert !b.StopsAt(taken, b.size);
    forall v | 0 <= v < ADDRESSES ensures v in b.Reserved() + taken {
      assert b.Visited(v) == v;
      assert !b.StopsAt(taken, v);
    }
    forall w: nat ensures !b.Free(taken, w) {
      assert w < ADDRESSES ==> w in b.Reserved() + taken;
    }
    forall k: nat ensures !b.StopsAt(taken, k) {
    }
  }

  /**
   The loop ends exactly when the block is not the whole address space or holds a free address, and
   then within as many addresses as the block has, plus one.
   */
  lemma ScanEndsIff(b: Block, taken: set<nat>)
    requires b.Valid()
    ensures b.ScanEnds(taken) <==> !b.Everything() || b.Lowest(taken).Some?
    ensures b.ScanEnds(taken) <==> !b.StillScanning(taken, b.size + 1)
  {
    if b.Lowest(taken).Some? {
      var v := b.Lowest(taken).value;
      assert b.Visited(v - b.lo) == v;
      assert b.StopsAt(taken, v - b.lo);
    } else if b.StillScanning(taken, b.size + 1) {
      StopsByEnd(b, taken);
    } else if b.Everything() {
      forall k: nat ensures !b.StopsAt(taken, k) {
        assert !b.Free(taken, b.Visited(k));
      }
    }
  }

  /** With prefix length 0 and every usable address taken, the scan never ends. */
  lemma EndlessScan(s: Cidr)
    requires s.Valid() && s.prefix == 0
    ensures !BlockOf(s).ScanEnds(BlockOf(s).Usable())
  {
    var b := BlockOf(s);
    InBlock(s);
    forall v ensures !b.Free(b.Usable(), v) {
    }
    ScanEndsIff(b, b.Usable());
  }

  // ---- exhaustion ----

  /** The n integers from a on. */
  function Range(a: nat, n: nat): (r: set<nat>)
    ensures |r| == n
    ensures forall v :: v in r <==> a <= v < a + n
  {
    if n == 0 then {} else Range(a, n - 1) + {a + n - 1}
  }

  lemma SubsetSize<T>(a: set<T>, b: set<T>)
    requires a <= b
    ensures |b - a| == |b| - |a|
    ensures b - a == {} <==> |a| == |b|
  {
    assert b == a + (b - a);
  }

  lemma UsableSize(b: Block)
    requires b.Valid()
    ensures |b.Usable()| == b.size - |b.Reserved()|
  {
    SubsetSize(b.Reserved(), Range(b.lo, b.size));
  }

  /** An address is free exactly while fewer than size - |{network, broadcast, server}| are taken. */
  lemma FreeIffRoom(b: Block, taken: set<nat>)
    requires b.Valid() && taken <= b.Usable()
    ensures b.Lowest(taken).Some? <==> |taken| < b.size - |b.Reserved()|
  {
    UsableSize(b);
    SubsetSize(taken, b.Usable());
    assert forall v :: v in b.Usable() - taken <==> b.Free(taken, v);
    if b.Usable() - taken != {} {
      var v :| v in b.Usable() - taken;
      assert b.Free(taken, v);
    }
  }

  /** A released address is handed out next, unless a lower one was free anyway. */
  lemma ReleasedIsNext(b: Block, taken: set<nat>, v: nat)
    requires b.Valid() && taken <= b.Usable() && v in taken
    ensures
      var before := b.Lowest(taken);
      b.Lowest(taken - {v}) == Some(if before.Some? && before.value < v then before.value else v)
  {
    assert b.Free(taken - {v}, v);
    forall w ensures b.Free(taken - {v}, w) <==> w == v || b.Free(taken, w) {
    }
  }
}
