/** What every run of upserts and deletes keeps, and exactly when a create succeeds. */
module PeerRuns {
  import opened Arith
  import opened Text
  import opened Ipv4
  import opened Allocator
  import opened PeerStore

  // ---- addresses in the table ----

  /** Every stored address is the text of some IPv4 address. */
  ghost predicate Canonical(t: Table) {
    forall id :: id in t ==> exists v: nat :: v < ADDRESSES && t[id].allowedIP == HostText(v)
  }

  /** Every stored address lies in the block, off the network, broadcast and server addresses. */
  ghost predicate Placed(t: Table, b: Block)
    requires b.Valid()
  {
    forall id :: id in t ==> exists v :: v in b.Usable() && t[id].allowedIP == HostText(v)
  }

  lemma PlacedIsCanonical(t: Table, b: Block)
    requires b.Valid() && Placed(t, b)
    ensures Canonical(t)
  {
    forall id | id in t ensures exists v: nat :: v < ADDRESSES && t[id].allowedIP == HostText(v) {
      var v :| v in b.Usable() && t[id].allowedIP == HostText(v);
    }
  }

  /** The addresses the allocator sees as taken are exactly the stored ones. */
  lemma TakenIsStored(t: Table, v: nat)
    requires Canonical(t) && v < ADDRESSES
    ensures v in Taken(t) <==> exists id :: id in t && t[id].allowedIP == HostText(v)
  {
    hide HostText, Denoted;
    if v in Taken(t) {
      var id :| id in t && v in Denoted(t[id].allowedIP);
      var w: nat :| w < ADDRESSES && t[id].allowedIP == HostText(w);
      HostTextDenotes(w);
    }
    if id :| id in t && t[id].allowedIP == HostText(v) {
      HostTextDenotes(v);
      assert v in Denoted(t[id].allowedIP);
    }
  }

  /** Distinct rows hold distinct addresses, so the taken addresses are as many as the rows. */
  lemma {:induction false} TakenSize(t: Table, b: Block)
    requires b.Valid() && Consistent(t) && Placed(t, b)
    ensures Taken(t) <= b.Usable() && |Taken(t)| == |t|
    decreases |t|
  {
    hide Denoted, Taken, Consistent, Placed;
    NothingTaken();
    if t != map[] {
      var id :| id in t;
      var rest := t - {id};
      var v := OwnAddress(t, b, id);
      TakenSize(rest, b);
      TakenSplit(t, id);
      assert t.Keys == rest.Keys + {id};
    }
  }

  /** A row holds one usable address, which no other row holds. */
  lemma OwnAddress(t: Table, b: Block, id: string) returns (v: nat)
    requires b.Valid() && Consistent(t) && Placed(t, b) && id in t
    ensures Consistent(t - {id}) && Placed(t - {id}, b)
    ensures v in b.Usable() && Denoted(t[id].allowedIP) == {v} && v !in Taken(t - {id})
  {
    hide HostText, Denoted, Taken;
    v :| v in b.Usable() && t[id].allowedIP == HostText(v);
    HostTextDenotes(v);
    PlacedIsCanonical(t - {id}, b);
    TakenIsStored(t - {id}, v);
  }

  // ---- one upsert ----

  /**
   On the create path the address column never collides; the key column collides exactly when an
   empty key is stored already, and the proxy column exactly when the generated id is not fresh.
   */
  lemma CreateClashes(t: Table, req: Request, subnet: string, creds: Creds, now: int, cidr: string)
    requires Canonical(t) && Find(t, req).None? && Allocate(Taken(t), subnet) == Allocated(cidr)
    ensures
      var columns := Clashes(t, Created(req, cidr, creds, now));
      && WGAllowedIP !in columns
      && (WGPublicKey in columns <==> req.wgKey == "" && exists id :: id in t && t[id].wgKey == "")
      && (ProxyUUID in columns <==> exists id :: id in t && t[id].proxyUUID == creds.proxyUUID)
  {
    hide HostText, Denoted, Taken, ParseCIDR;
    var v := BlockOf(ParseCIDR(subnet).value).Lowest(Taken(t)).value;
    assert cidr == HostText(v) && v !in Taken(t);
    TakenIsStored(t, v);
    assert req.id !in t;
  }

  /** Every upsert keeps the schema's constraints. */
  lemma UpsertConsistent(t: Table, req: Request, subnet: string, creds: Creds, now: int)
    requires Consistent(t)
    ensures Consistent(Upsert(t, req, subnet, creds, now).0)
  {
    hide Allocate, Taken;
    WriteConsistent(t, if Find(t, req).Some? then Refreshed(Find(t, req).value, req, now)
      else Created(req, if Allocate(Taken(t), subnet).Allocated? then Allocate(Taken(t), subnet).cidr else "",
                   creds, now));
  }

  /** Every upsert with the block's subnet keeps all addresses placed in it. */
  lemma UpsertPlaced(t: Table, req: Request, subnet: string, creds: Creds, now: int)
    requires ParseCIDR(subnet).Some?
    requires Consistent(t) && Placed(t, BlockOf(ParseCIDR(subnet).value))
    ensures Placed(Upsert(t, req, subnet, creds, now).0, BlockOf(ParseCIDR(subnet).value))
  {
    hide HostText, Denoted, Taken, ParseCIDR, Clashes;
    var b := BlockOf(ParseCIDR(subnet).value);
    var t' := Upsert(t, req, subnet, creds, now).0;
    forall id | id in t' ensures exists v :: v in b.Usable() && t'[id].allowedIP == HostText(v) {
      if id in t && t'[id].allowedIP == t[id].allowedIP {
        var v :| v in b.Usable() && t[id].allowedIP == HostText(v);
      } else {
        assert Find(t, req).None?;
        var v := b.Lowest(Taken(t)).value;
        assert v in b.Usable() && t'[id].allowedIP == HostText(v);
      }
    }
  }

  /** Whatever the subnet, stored addresses stay texts of IPv4 addresses. */
  lemma UpsertCanonical(t: Table, req: Request, subnet: string, creds: Creds, now: int)
    requires KeyedById(t) && Canonical(t)
    ensures Canonical(Upsert(t, req, subnet, creds, now).0)
  {
    hide HostText, Denoted, Taken, ParseCIDR, Clashes;
    var t' := Upsert(t, req, subnet, creds, now).0;
    forall id | id in t' ensures exists v: nat :: v < ADDRESSES && t'[id].allowedIP == HostText(v) {
      if id in t && t'[id].allowedIP == t[id].allowedIP {
        var v: nat :| v < ADDRESSES && t[id].allowedIP == HostText(v);
      } else {
        assert Find(t, req).None?;
        var v := BlockOf(ParseCIDR(subnet).value).Lowest(Taken(t)).value;
        assert t'[id].allowedIP == HostText(v);
      }
    }
  }

  /** What an update may not touch. */
  predicate SameIdentity(p: Peer, q: Peer) {
    && p.id == q.id && p.allowedIP == q.allowedIP && p.createdAt == q.createdAt
    && p.proxyUUID == q.proxyUUID && p.proxyPassword == q.proxyPassword
  }

  /** No upsert removes a row or changes its id, address, proxy credentials or creation time. */
  lemma UpsertKeepsIdentity(t: Table, req: Request, subnet: string, creds: Creds, now: int, id: string)
    requires KeyedById(t) && id in t
    ensures id in Upsert(t, req, subnet, creds, now).0
    ensures SameIdentity(t[id], Upsert(t, req, subnet, creds, now).0[id])
  {
    hide Allocate, Taken, Clashes;
    match Find(t, req)
    case Some(p) =>
      assert p.id in t && t[p.id] == p;
      assert SameIdentity(p, Refreshed(p, req, now));
    case None =>
      assert req.id !in t;
  }

  /** The row carries everything the caller asked for. */
  predicate Carries(p: Peer, req: Request, now: int) {
    && p.name == req.name && p.wallet == req.wallet && p.wgKey == req.wgKey && p.presharedKey == req.presharedKey
    && p.enabled == req.enabled && p.expiresAt == req.expiresAt && p.updatedAt == now
  }

  /**
   A successful upsert is read back: the answered row is in the table, carries the request, and no
   other row changed. A new id appears only with the given credentials and creation time, at an
   address that no row held before and below which none was free.
   */
  lemma StoredIsRead(t: Table, req: Request, subnet: string, creds: Creds, now: int)
    requires ParseCIDR(subnet).Some?
    requires Consistent(t) && Placed(t, BlockOf(ParseCIDR(subnet).value))
    requires Upsert(t, req, subnet, creds, now).1.Stored?
    ensures
      var (t', out) := Upsert(t, req, subnet, creds, now);
      var p := out.peer;
      && t' == t[p.id := p] && Carries(p, req, now)
      && (p.id !in t ==>
            && p.id == req.id && Creds(p.proxyUUID, p.proxyPassword) == creds && p.createdAt == now
            && NextFree(t, BlockOf(ParseCIDR(subnet).value), p.allowedIP))
  {
    hide Taken, HostText, Allocate, ParseCIDR;
    if Find(t, req).None? {
      CreatedAddress(t, subnet);
      var b := BlockOf(ParseCIDR(subnet).value);
      var taken := Taken(t);
      var v := b.Lowest(taken).value;
      PlacedIsCanonical(t, b);
      forall w | w in b.Usable() && w <= v
        ensures w < v <==> exists id :: id in t && t[id].allowedIP == HostText(w)
      {
        TakenIsStored(t, w);
      }
    }
  }

  /** The text of the lowest address of the block that peers may hold and no row holds. */
  ghost predicate NextFree(t: Table, b: Block, text: string)
    requires b.Valid()
  {
    exists v :: v in b.Usable() && text == HostText(v)
                && forall w :: w in b.Usable() && w <= v ==>
                     (w < v <==> exists id :: id in t && t[id].allowedIP == HostText(w))
  }

  lemma CreatedAddress(t: Table, subnet: string)
    requires ParseCIDR(subnet).Some? && Allocate(Taken(t), subnet).Allocated?
    ensures
      var b := BlockOf(ParseCIDR(subnet).value);
      && b.Lowest(Taken(t)).Some? && b.Lowest(Taken(t)).value in b.Usable()
      && Allocate(Taken(t), subnet).cidr == HostText(b.Lowest(Taken(t)).value)
      && forall w :: w in b.Usable() && w <= b.Lowest(Taken(t)).value ==>
           (w < b.Lowest(Taken(t)).value <==> w in Taken(t))
  {
    hide Taken, ParseCIDR, AddrText;
    var b := BlockOf(ParseCIDR(subnet).value);
    var v := b.Lowest(Taken(t)).value;
    forall w | w in b.Usable() && w <= v ensures w < v <==> w in Taken(t) {
      assert b.Free(Taken(t), w) <==> w !in Taken(t);
    }
  }

  /** An unknown id with a known non-empty key updates the peer that holds the key and creates nothing. */
  lemma KnownKeyUpdates(t: Table, req: Request, subnet: string, creds: Creds, now: int, id: string)
    requires Consistent(t) && req.id !in t && id in t && req.wgKey != "" && t[id].wgKey == req.wgKey
    ensures
      var (t', out) := Upsert(t, req, subnet, creds, now);
      && out.Stored? && out.peer.id == id && t'.Keys == t.Keys
      && t' == t[id := out.peer] && SameIdentity(t[id], out.peer) && Carries(out.peer, req, now)
  {
    hide Allocate, Taken;
    assert Find(t, req) == Some(t[id]);
    var p := Refreshed(t[id], req, now);
    forall j | j in t && j != id
      ensures t[j].wgKey != p.wgKey && t[j].allowedIP != p.allowedIP && t[j].proxyUUID != p.proxyUUID
    {
    }
    assert Clashes(t, p) == {};
  }

  /** A known id with a key that no other peer holds updates exactly the row of that id. */
  lemma KnownIdUpdates(t: Table, req: Request, subnet: string, creds: Creds, now: int)
    requires Consistent(t) && req.id in t && forall id :: id in t && t[id].wgKey == req.wgKey ==> id == req.id
    ensures
      var (t', out) := Upsert(t, req, subnet, creds, now);
      && out.Stored? && out.peer.id == req.id && t' == t[req.id := out.peer]
      && SameIdentity(t[req.id], out.peer) && Carries(out.peer, req, now)
  {
    hide Allocate, Taken;
    var p := Refreshed(t[req.id], req, now);
    forall j | j in t && j != req.id
      ensures t[j].wgKey != p.wgKey && t[j].allowedIP != p.allowedIP && t[j].proxyUUID != p.proxyUUID
    {
    }
    assert Clashes(t, p) == {};
  }

  /** Taking over another peer's key fails and changes nothing. */
  lemma TakenKeyRefused(t: Table, req: Request, subnet: string, creds: Creds, now: int, other: string)
    requires Consistent(t) && req.id in t && other in t && other != req.id && t[other].wgKey == req.wgKey
    ensures Upsert(t, req, subnet, creds, now) == (t, Failed(Unique({WGPublicKey})))
  {
    hide Allocate, Taken;
    var p := Refreshed(t[req.id], req, now);
    forall j | j in t && j != req.id
      ensures t[j].allowedIP != p.allowedIP && t[j].proxyUUID != p.proxyUUID
    {
    }
    assert Clashes(t, p) == {WGPublicKey};
  }

  /** An upsert that fails or never answers leaves the table as it was. */
  lemma FailureChangesNothing(t: Table, req: Request, subnet: string, creds: Creds, now: int)
    ensures !Upsert(t, req, subnet, creds, now).1.Stored? ==> Upsert(t, req, subnet, creds, now).0 == t
  {
    hide Allocate, Taken, Clashes;
  }

  /** A UNIQUE refusal is never about the address, and about a non-empty key only when a known id is addressed. */
  lemma RefusalExplained(t: Table, req: Request, subnet: string, creds: Creds, now: int)
    requires ParseCIDR(subnet).Some?
    requires Consistent(t) && Placed(t, BlockOf(ParseCIDR(subnet).value))
    ensures
      var out := Upsert(t, req, subnet, creds, now).1;
      out.Failed? && out.error.Unique? ==>
        && WGAllowedIP !in out.error.columns
        && (WGPublicKey in out.error.columns && req.wgKey != "" ==> req.id in t)
  {
    hide HostText, Denoted, Taken, ParseCIDR;
    if Find(t, req).None? {
      PlacedIsCanonical(t, BlockOf(ParseCIDR(subnet).value));
      if Allocate(Taken(t), subnet).Allocated? {
        CreateClashes(t, req, subnet, creds, now, Allocate(Taken(t), subnet).cidr);
      }
    }
  }

  // ---- capacity ----

  /** What the allocator answers, by room and prefix length. */
  lemma AllocateCases(taken: set<nat>, subnet: string)
    requires ParseCIDR(subnet).Some?
    ensures
      var s := ParseCIDR(subnet).value;
      var lowest := BlockOf(s).Lowest(taken);
      Allocate(taken, subnet) == if lowest.Some? then Allocated(HostText(lowest.value))
                                 else if s.prefix >= 1 then Refused(SubnetExhausted) else Endless
  {
    hide HostText, ParseCIDR;
    ScanEndsIff(BlockOf(ParseCIDR(subnet).value), taken);
    InBlock(ParseCIDR(subnet).value);
  }

  /** The subnet text of a server address and a prefix length. */
  function SubnetText(ip: Bytes, p: nat): string {
    Dotted(ip) + ['/'] + Decimal(p)
  }

  /** The first address of the block of 2^(32-p) addresses around an address. */
  function FirstOf(ip: Bytes, p: nat): int
    requires p <= 32
  {
    Value(ip) - Value(ip) % Pow2(32 - p)
  }

  /** Strictly between the first and the last address of the block, and not the server's own. */
  predicate HostAddress(ip: Bytes, p: nat, v: int)
    requires p <= 32
  {
    FirstOf(ip, p) < v < FirstOf(ip, p) + Pow2(32 - p) - 1 && v != Value(ip)
  }

  /** The block of a subnet text, in numbers. */
  lemma BlockInNumbers(ip: Bytes, p: nat)
    requires |ip| == 4 && p <= 32
    ensures ParseCIDR(SubnetText(ip, p)) == Some(Cidr(ip, p))
    ensures
      var b := BlockOf(Cidr(ip, p));
      && b.size == Pow2(32 - p)
      && b.Reserved() == {FirstOf(ip, p), FirstOf(ip, p) + Pow2(32 - p) - 1, Value(ip)}
      && forall v: nat :: v in b.Usable() <==> HostAddress(ip, p, v)
  {
    hide Value, Dotted, ParseCIDR, Pow2, Decimal, FirstOf, BlockOf;
    CidrRoundTrip(ip, p);
    BlockStart(ip, p);
  }

  lemma BlockStart(ip: Bytes, p: nat)
    requires |ip| == 4 && p <= 32
    ensures
      var b := BlockOf(Cidr(ip, p));
      b.lo == FirstOf(ip, p) && b.size == Pow2(32 - p) && b.server == Value(ip)
  {
    hide Value, Masked, Pow2;
    MaskedValue(ip, p);
  }

  /**
   The allocator on a subnet text, in numbers: the lowest address strictly inside the block that is
   neither the server's nor taken; without one, exhausted for p >= 1 and no answer for p = 0.
   */
  lemma AllocateInNumbers(taken: set<nat>, ip: Bytes, p: nat)
    requires |ip| == 4 && p <= 32
    ensures
      match Allocate(taken, SubnetText(ip, p))
      case Allocated(cidr) =>
        exists v: nat :: HostAddress(ip, p, v) && v !in taken && cidr == HostText(v)
                         && forall w: nat :: HostAddress(ip, p, w) && w < v ==> w in taken
      case Refused(e) => p >= 1 && e == SubnetExhausted && forall w: nat :: HostAddress(ip, p, w) ==> w in taken
      case Endless => p == 0 && forall w: nat :: HostAddress(ip, p, w) ==> w in taken
  {
    hide HostText, HostAddress, ParseCIDR, Allocate, SubnetText, BlockOf;
    BlockInNumbers(ip, p);
    AllocateCases(taken, SubnetText(ip, p));
    var b := BlockOf(Cidr(ip, p));
    forall w: nat ensures HostAddress(ip, p, w) && w !in taken <==> b.Free(taken, w) {
      assert w in b.Usable() <==> HostAddress(ip, p, w);
    }
  }

  /** The first peer of a node with the default subnet. */
  lemma DefaultSubnetStarts()
    ensures Allocate({}, "10.0.0.1/16") == Allocated("10.0.0.2/32")
  {
    hide Allocate, Value, Dotted, Decimal, Pow2, HostText;
    var ip: Bytes := [10, 0, 0, 1];
    DefaultTexts();
    ValueOfFour(10, 0, 0, 1);
    Pow2Small();
    Pow2Sum(8, 8);
    AllocateInNumbers({}, ip, 16);
    assert FirstOf(ip, 16) == 167_772_160;
    assert HostAddress(ip, 16, 167_772_162);
    SecondAddress();
  }

  lemma SecondAddress()
    ensures HostText(167_772_162) == "10.0.0.2/32"
  {
    hide Value, Dotted, AddrOf;
    AddressCount();
    DefaultTexts();
    ValueOfFour(10, 0, 0, 2);
    ValueInjective(AddrOf(167_772_162), [10, 0, 0, 2]);
  }

  /** A create with a fresh non-empty key and a fresh proxy id does exactly what the allocator answers. */
  lemma CreateFollowsAllocator(t: Table, req: Request, subnet: string, creds: Creds, now: int)
    requires Canonical(t) && Find(t, req).None?
    requires req.wgKey != "" && forall id :: id in t ==> t[id].proxyUUID != creds.proxyUUID
    ensures Upsert(t, req, subnet, creds, now).1 ==
      match Allocate(Taken(t), subnet)
      case Allocated(cidr) => Stored(Created(req, cidr, creds, now))
      case Refused(e) => Failed(Allocation(e))
      case Endless => Hangs
  {
    hide Canonical, Find, Taken, Allocate, Clashes;
    if Allocate(Taken(t), subnet).Allocated? {
      var cidr := Allocate(Taken(t), subnet).cidr;
      CreateClashes(t, req, subnet, creds, now, cidr);
      var columns := Clashes(t, Created(req, cidr, creds, now));
      forall c: Column ensures c !in columns {
        assert c.WGPublicKey? || c.WGAllowedIP? || c.ProxyUUID?;
      }
      assert columns == {};
    }
  }

  /**
   A create with a fresh non-empty key and a fresh proxy id succeeds exactly while fewer than
   2^(32-p) - |{network, broadcast, server}| peers exist. Without room it is refused as exhausted for
   every prefix length of at least 1, and never answered for prefix length 0.
   */
  lemma CreateSucceedsIffRoom(t: Table, req: Request, subnet: string, creds: Creds, now: int)
    requires ParseCIDR(subnet).Some?
    requires Consistent(t) && Placed(t, BlockOf(ParseCIDR(subnet).value))
    requires Find(t, req).None? && req.wgKey != "" && forall id :: id in t ==> t[id].proxyUUID != creds.proxyUUID
    ensures
      var b := BlockOf(ParseCIDR(subnet).value);
      var out := Upsert(t, req, subnet, creds, now).1;
      var room := |t| < b.size - |b.Reserved()|;
      && (out.Stored? <==> room)
      && (!room && ParseCIDR(subnet).value.prefix >= 1 ==> out == Failed(Allocation(SubnetExhausted)))
      && (!room && ParseCIDR(subnet).value.prefix == 0 ==> out == Hangs)
  {
    hide Taken, ParseCIDR, Upsert, Allocate, Canonical, HostText;
    var b := BlockOf(ParseCIDR(subnet).value);
    TakenSize(t, b);
    FreeIffRoom(b, Taken(t));
    PlacedIsCanonical(t, b);
    AllocateCases(Taken(t), subnet);
    CreateFollowsAllocator(t, req, subnet, creds, now);
  }

  /**
   The same for a subnet text, in numbers: a create succeeds exactly while the rows and the network,
   broadcast and server addresses together are fewer than 2^(32-p).
   */
  lemma CreateInNumbers(t: Table, req: Request, ip: Bytes, p: nat, creds: Creds, now: int)
    requires |ip| == 4 && p <= 32 && Consistent(t)
    requires forall id :: id in t ==> exists v: nat :: HostAddress(ip, p, v) && t[id].allowedIP == HostText(v)
    requires Find(t, req).None? && req.wgKey != "" && forall id :: id in t ==> t[id].proxyUUID != creds.proxyUUID
    ensures
      var out := Upsert(t, req, SubnetText(ip, p), creds, now).1;
      var fixed := {FirstOf(ip, p), FirstOf(ip, p) + Pow2(32 - p) - 1, Value(ip)};
      && (out.Stored? <==> |t| + |fixed| < Pow2(32 - p))
      && (!out.Stored? ==> out == if p >= 1 then Failed(Allocation(SubnetExhausted)) else Hangs)
  {
    hide HostText, HostAddress, ParseCIDR, SubnetText, BlockOf, Upsert, Find, Consistent, Pow2, Value, FirstOf;
    BlockInNumbers(ip, p);
    var b := BlockOf(Cidr(ip, p));
    forall id | id in t ensures exists v :: v in b.Usable() && t[id].allowedIP == HostText(v) {
      var v: nat :| HostAddress(ip, p, v) && t[id].allowedIP == HostText(v);
      assert v in b.Usable();
    }
    CreateSucceedsIffRoom(t, req, SubnetText(ip, p), creds, now);
  }

  /**
   Some address makes the scan stop, outside the block or unreserved, for every prefix of at least 1,
   and for prefix 0 exactly while there is room.
   */
  lemma ScanTerminatesIff(t: Table, s: Cidr)
    requires s.Valid() && Consistent(t) && Placed(t, BlockOf(s))
    ensures (exists k: nat :: BlockOf(s).StopsAt(Taken(t), k)) <==>
            s.prefix >= 1 || |t| < BlockOf(s).size - |BlockOf(s).Reserved()|
  {
    hide HostText, Denoted, Taken;
    TakenSize(t, BlockOf(s));
    FreeIffRoom(BlockOf(s), Taken(t));
    ScanEndsIff(BlockOf(s), Taken(t));
    InBlock(s);
  }

  /** After a delete the next create succeeds, at the deleted address unless a lower one was free anyway. */
  lemma DeletedAddressIsReused(t: Table, id: string, v: nat, req: Request, subnet: string, creds: Creds, now: int)
    requires ParseCIDR(subnet).Some? && id in t && v < ADDRESSES && t[id].allowedIP == HostText(v)
    requires Consistent(t) && Placed(t, BlockOf(ParseCIDR(subnet).value))
    requires Find(t - {id}, req).None? && req.wgKey != ""
    requires forall j :: j in t - {id} ==> t[j].proxyUUID != creds.proxyUUID
    ensures
      var before := BlockOf(ParseCIDR(subnet).value).Lowest(Taken(t));
      var out := Upsert(t - {id}, req, subnet, creds, now).1;
      out.Stored? && out.peer.allowedIP == HostText(if before.Some? && before.value < v then before.value else v)
  {
    hide HostText, Denoted, Taken, ParseCIDR, Consistent, Placed, Canonical, Allocate, Upsert;
    var b := BlockOf(ParseCIDR(subnet).value);
    var rest := t - {id};
    var w := OwnAddress(t, b, id);
    HostTextDenotes(v);
    TakenSplit(t, id);
    TakenSize(t, b);
    assert w == v && Taken(rest) == Taken(t) - {v};
    ReleasedIsNext(b, Taken(t), v);
    PlacedIsCanonical(rest, b);
    AllocateCases(Taken(rest), subnet);
    CreateFollowsAllocator(rest, req, subnet, creds, now);
  }

  // ---- runs ----

  datatype Op = UpsertOp(req: Request, creds: Creds, now: int) | DeleteOp(id: string)

  ghost function Exec(t: Table, subnet: string, op: Op): Table {
    match op
    case UpsertOp(req, creds, now) => Upsert(t, req, subnet, creds, now).0
    case DeleteOp(id) => t - {id}
  }

  /** The table after a run, oldest operation first. */
  ghost function Run(t: Table, subnet: string, ops: seq<Op>): Table {
    if ops == [] then t else Exec(Run(t, subnet, ops[..|ops| - 1]), subnet, ops[|ops| - 1])
  }

  /** Ids, keys, addresses and proxy ids stay pairwise distinct, and addresses stay in the block, in every run. */
  lemma {:induction false} RunKeepsTable(t: Table, subnet: string, ops: seq<Op>)
    requires ParseCIDR(subnet).Some?
    requires Consistent(t) && Placed(t, BlockOf(ParseCIDR(subnet).value))
    ensures Consistent(Run(t, subnet, ops)) && Placed(Run(t, subnet, ops), BlockOf(ParseCIDR(subnet).value))
  {
    hide Upsert, HostText, ParseCIDR;
    if ops != [] {
      RunKeepsTable(t, subnet, ops[..|ops| - 1]);
      var before := Run(t, subnet, ops[..|ops| - 1]);
      match ops[|ops| - 1]
      case UpsertOp(req, creds, now) =>
        UpsertConsistent(before, req, subnet, creds, now);
        UpsertPlaced(before, req, subnet, creds, now);
      case DeleteOp(id) =>
    }
  }

  /** From creation to deletion a peer's id, address, proxy credentials and creation time are constant. */
  lemma {:induction false} RunKeepsIdentity(t: Table, subnet: string, ops: seq<Op>, id: string)
    requires Consistent(t) && id in t && DeleteOp(id) !in ops
    ensures Consistent(Run(t, subnet, ops))
    ensures id in Run(t, subnet, ops) && SameIdentity(t[id], Run(t, subnet, ops)[id])
  {
    hide Upsert;
    if ops != [] {
      var init := ops[..|ops| - 1];
      RunKeepsIdentity(t, subnet, init, id);
      var before := Run(t, subnet, init);
      match ops[|ops| - 1]
      case UpsertOp(req, creds, now) =>
        UpsertConsistent(before, req, subnet, creds, now);
        UpsertKeepsIdentity(before, req, subnet, creds, now, id);
      case DeleteOp(other) =>
        assert ops[|ops| - 1] in ops;
    }
  }

  // ---- filling a block ----

  /** The k-th of a sequence of creates with ids, keys and proxy ids of their own. */
  function NthCreate(k: nat): Op {
    UpsertOp(Request(Decimal(k), "", "", Decimal(k), "", true, 0), Creds(Decimal(k), ""), 0)
  }

  /** The rows are those of the first k creates. */
  ghost predicate Numbered(t: Table, k: nat) {
    && |t| == k
    && forall id :: id in t ==> exists i: nat :: i < k && id == t[id].wgKey == t[id].proxyUUID == Decimal(i)
  }

  /** For every k up to the capacity of the block, some run of creates from the empty table ends with k rows. */
  lemma {:induction false} BlockCanBeFilled(subnet: string, k: nat) returns (ops: seq<Op>)
    requires ParseCIDR(subnet).Some?
    requires
      var b := BlockOf(ParseCIDR(subnet).value);
      k <= b.size - |b.Reserved()|
    ensures
      var t := Run(map[], subnet, ops);
      && |t| == k && Numbered(t, k) && Consistent(t) && Placed(t, BlockOf(ParseCIDR(subnet).value))
    decreases k
  {
    hide ParseCIDR, BlockOf, Placed, Consistent, Numbered, Upsert;
    if k == 0 {
      ops := [];
      NothingPlaced(BlockOf(ParseCIDR(subnet).value));
    } else {
      var before := BlockCanBeFilled(subnet, k - 1);
      var t := Run(map[], subnet, before);
      ops := before + [NthCreate(k - 1)];
      assert ops[..|before|] == before;
      OneMore(t, subnet, k - 1);
    }
  }

  lemma NothingPlaced(b: Block)
    requires b.Valid()
    ensures Numbered(map[], 0) && Consistent(map[]) && Placed(map[], b)
  {
  }

  lemma OneMore(t: Table, subnet: string, k: nat)
    requires ParseCIDR(subnet).Some? && Numbered(t, k)
    requires Consistent(t) && Placed(t, BlockOf(ParseCIDR(subnet).value))
    requires
      var b := BlockOf(ParseCIDR(subnet).value);
      k < b.size - |b.Reserved()|
    ensures
      var t' := Exec(t, subnet, NthCreate(k));
      && |t'| == k + 1 && Numbered(t', k + 1) && Consistent(t') && Placed(t', BlockOf(ParseCIDR(subnet).value))
  {
    hide ParseCIDR, BlockOf, Placed, Consistent, Numbered, Upsert, Decimal;
    var UpsertOp(req, creds, now) := NthCreate(k);
    UpsertConsistent(t, req, subnet, creds, now);
    UpsertPlaced(t, req, subnet, creds, now);
    var p := NumberStored(t, subnet, k);
    MoreNumbered(t, k, p);
  }

  /** The next create is stored under its number. */
  lemma NumberStored(t: Table, subnet: string, k: nat) returns (p: Peer)
    requires ParseCIDR(subnet).Some? && Numbered(t, k)
    requires Consistent(t) && Placed(t, BlockOf(ParseCIDR(subnet).value))
    requires
      var b := BlockOf(ParseCIDR(subnet).value);
      k < b.size - |b.Reserved()|
    ensures Exec(t, subnet, NthCreate(k)) == t[p.id := p] && p.id !in t && p.id == p.wgKey == p.proxyUUID == Decimal(k)
  {
    hide ParseCIDR, BlockOf, Placed, Consistent, Upsert, Allocate, Taken, Canonical, Find, Decimal, NextFree;
    var UpsertOp(req, creds, now) := NthCreate(k);
    assert |t| == k;
    NewNumber(t, k);
    CreateSucceedsIffRoom(t, req, subnet, creds, now);
    PlacedIsCanonical(t, BlockOf(ParseCIDR(subnet).value));
    CreateFollowsAllocator(t, req, subnet, creds, now);
    StoredIsRead(t, req, subnet, creds, now);
    p := Upsert(t, req, subnet, creds, now).1.peer;
  }

  lemma NewNumber(t: Table, k: nat)
    requires Numbered(t, k)
    ensures
      var UpsertOp(req, creds, _) := NthCreate(k);
      && req.wgKey != "" && Decimal(k) !in t && Find(t, req).None?
      && forall id :: id in t ==> t[id].proxyUUID != creds.proxyUUID
  {
    hide Decimal;
    DecimalDenotes(k);
    forall id | id in t ensures id != Decimal(k) && t[id].wgKey == t[id].proxyUUID == id {
      var i: nat :| i < k && id == t[id].wgKey == t[id].proxyUUID == Decimal(i);
      DecimalDenotes(i);
    }
  }

  lemma MoreNumbered(t: Table, k: nat, p: Peer)
    requires Numbered(t, k) && p.id !in t && p.id == p.wgKey == p.proxyUUID == Decimal(k)
    ensures Numbered(t[p.id := p], k + 1) && |t[p.id := p]| == k + 1
  {
    hide Decimal;
    var t' := t[p.id := p];
    assert t'.Keys == t.Keys + {p.id} && |t'| == k + 1;
    forall id | id in t' ensures exists i: nat :: i < k + 1 && id == t'[id].wgKey == t'[id].proxyUUID == Decimal(i) {
      if id in t {
        var i: nat :| i < k && id == t[id].wgKey == t[id].proxyUUID == Decimal(i);
      }
    }
  }
}
