/**
 The peers table of internal/store/store.go: UpsertPeer as a transaction over a table with UNIQUE
 columns (internal/store/migrations/0001_init.sql), DeletePeer and ListPeers.
 */
module PeerStore {
  import opened Text
  import opened Ipv4
  import opened Allocator

  datatype Peer = Peer(
    id: string, name: string, wallet: string, wgKey: string, allowedIP: string, presharedKey: string,
    proxyUUID: string, proxyPassword: string, enabled: bool, createdAt: int, updatedAt: int, expiresAt: int)

  /** The fields of the incoming peer that UpsertPeer reads. */
  datatype Request = Request(
    id: string, name: string, wallet: string, wgKey: string, presharedKey: string, enabled: bool, expiresAt: int)

  datatype Creds = Creds(proxyUUID: string, proxyPassword: string)

  /** The rows by primary key. */
  type Table = map<string, Peer>

  datatype Column = WGPublicKey | WGAllowedIP | ProxyUUID

  datatype StoreError = Allocation(error: AllocError) | Unique(columns: set<Column>)

  /** Hangs: the call never answers, because its scan never ends. */
  datatype Outcome = Stored(peer: Peer) | Failed(error: StoreError) | Hangs

  // ---- constraints of the schema ----

  /** The UNIQUE columns in which row p collides with a row of another id. */
  ghost function Clashes(t: Table, p: Peer): set<Column> {
    (if exists id :: id in t && id != p.id && t[id].wgKey == p.wgKey then {WGPublicKey} else {})
    + (if exists id :: id in t && id != p.id && t[id].allowedIP == p.allowedIP then {WGAllowedIP} else {})
    + (if exists id :: id in t && id != p.id && t[id].proxyUUID == p.proxyUUID then {ProxyUUID} else {})
  }

  ghost predicate KeyedById(t: Table) {
    forall id :: id in t ==> t[id].id == id
  }

  /** What the schema enforces: the primary key and the three UNIQUE columns. */
  ghost predicate Consistent(t: Table) {
    && KeyedById(t)
    && (forall i, j :: i in t && j in t && i != j ==>
          t[i].wgKey != t[j].wgKey && t[i].allowedIP != t[j].allowedIP && t[i].proxyUUID != t[j].proxyUUID)
  }

  // ---- the transaction as a function of the table ----

  /** The row an upsert addresses: by id, else by a non-empty public key. */
  ghost function Find(t: Table, req: Request): (r: Option<Peer>)
    ensures r.Some? ==> exists id :: id in t && r.value == t[id]
  {
    if req.id in t then Some(t[req.id])
    else if req.wgKey != "" then ByKey(t, req.wgKey)
    else None
  }

  /** SELECT ... WHERE wg_public_key = key. */
  ghost function ByKey(t: Table, key: string): (r: Option<Peer>)
    ensures r.Some? <==> exists id :: id in t && t[id].wgKey == key
    ensures r.Some? ==> exists id :: id in t && r.value == t[id] && t[id].wgKey == key
  {
    if exists id :: id in t && t[id].wgKey == key then
      var id :| id in t && t[id].wgKey == key;
      Some(t[id])
    else None
  }

  /** The update keeps id, address, proxy credentials and creation time. */
  function Refreshed(p: Peer, req: Request, now: int): Peer {
    p.(name := req.name, wallet := req.wallet, wgKey := req.wgKey, presharedKey := req.presharedKey,
       enabled := req.enabled, expiresAt := req.expiresAt, updatedAt := now)
  }

  function Created(req: Request, cidr: string, creds: Creds, now: int): Peer {
    Peer(req.id, req.name, req.wallet, req.wgKey, cidr, req.presharedKey,
         creds.proxyUUID, creds.proxyPassword, req.enabled, now, now, req.expiresAt)
  }

  ghost function Taken(t: Table): set<nat> {
    set id, v | id in t && v in Denoted(t[id].allowedIP) :: v
  }

  /** Writes a row unless a UNIQUE column refuses it; a refused write changes nothing. */
  ghost function Write(t: Table, p: Peer): (Table, Outcome) {
    if Clashes(t, p) == {} then (t[p.id := p], Stored(p)) else (t, Failed(Unique(Clashes(t, p))))
  }

  /** UpsertPeer on the committed table: the new table and the answer. */
  ghost function Upsert(t: Table, req: Request, subnet: string, creds: Creds, now: int): (Table, Outcome) {
    match Find(t, req)
    case Some(p) => Write(t, Refreshed(p, req, now))
    case None =>
      match Allocate(Taken(t), subnet)
      case Refused(e) => (t, Failed(Allocation(e)))
      case Endless => (t, Hangs)
      case Allocated(cidr) => Write(t, Created(req, cidr, creds, now))
  }

  /** The upsert is a create whose scan is still going on after this many addresses. */
  ghost predicate ScansOn(t: Table, req: Request, subnet: string, steps: nat) {
    && Find(t, req).None? && ParseCIDR(subnet).Some?
    && BlockOf(ParseCIDR(subnet).value).StillScanning(Taken(t), steps)
  }

  // ---- the store object ----

  /** Two rows in the order ListPeers promises. */
  predicate InOrder(rows: seq<Peer>) {
    forall i, j :: 0 <= i < j < |rows| ==> rows[i].createdAt <= rows[j].createdAt
  }

  /** A listing holds each row of the table exactly once. */
  ghost predicate Lists(rows: seq<Peer>, t: Table) {
    && |rows| == |t|
    && (forall i :: 0 <= i < |rows| ==> rows[i].id in t && rows[i] == t[rows[i].id])
    && (forall i, j :: 0 <= i < j < |rows| ==> rows[i].id != rows[j].id)
  }

  lemma WriteConsistent(t: Table, p: Peer)
    requires Consistent(t)
    ensures Consistent(Write(t, p).0)
  {
  }

  class Store {
    var peers: Table

    constructor ()
      ensures peers == map[]
    {
      peers := map[];
    }

    /** SELECT wg_allowed_ip FROM peers, in any order. */
    method AllowedIPs() returns (rows: seq<string>)
      ensures TakenBy(rows) == Taken(peers)
    {
      hide Denoted, TakenBy, Taken;
      rows := [];
      var left := peers;
      NothingTaken();
      while left != map[]
        invariant TakenBy(rows) + Taken(left) == Taken(peers)
        decreases |left|
      {
        var id :| id in left;
        TakenSplit(left, id);
        TakenByAppend(rows, left[id].allowedIP);
        rows := rows + [left[id].allowedIP];
        left := left - {id};
      }
    }

    /**
     UpsertPeer: look up, then update in place or allocate and insert, inside one transaction. The
     scan is watched for a number of iterations; there is no answer while it is still going on.
     */
    method UpsertPeer(req: Request, subnet: string, creds: Creds, now: int, steps: nat) returns (out: Option<Outcome>)
      requires Consistent(peers)
      modifies this
      ensures out.Some? ==> (peers, out.value) == Upsert(old(peers), req, subnet, creds, now) && !out.value.Hangs?
      ensures out.None? <==> ScansOn(old(peers), req, subnet, steps)
      ensures out.None? ==> peers == old(peers)
      ensures Consistent(peers)
    {
      hide Allocate, ParseCIDR, Taken, BlockOf;
      var existing: Option<Peer> := None;
      if req.id in peers {
        existing := Some(peers[req.id]);
      }
      if existing.None? && req.wgKey != "" {
        if id :| id in peers && peers[id].wgKey == req.wgKey {
          existing := Some(peers[id]);
        }
      }
      assert existing == Find(peers, req);
      if existing.Some? {
        var updated := Save(Refreshed(existing.value, req, now));
        return Some(updated);
      }
      var rows := AllowedIPs();
      var found := AllocateIP(rows, subnet, steps);
      if found.None? {
        return None;
      }
      if found.value.Refused? {
        return Some(Failed(Allocation(found.value.error)));
      }
      var inserted := Save(Created(req, found.value.cidr, creds, now));
      out := Some(inserted);
    }

    /** The UPDATE or INSERT statement and the commit; a UNIQUE violation rolls back. */
    method Save(p: Peer) returns (out: Outcome)
      requires Consistent(peers)
      modifies this
      ensures (peers, out) == Write(old(peers), p)
      ensures Consistent(peers)
    {
      hide Consistent;
      WriteConsistent(peers, p);
      var columns: set<Column> := {};
      if exists id :: id in peers && id != p.id && peers[id].wgKey == p.wgKey {
        columns := columns + {WGPublicKey};
      }
      if exists id :: id in peers && id != p.id && peers[id].allowedIP == p.allowedIP {
        columns := columns + {WGAllowedIP};
      }
      if exists id :: id in peers && id != p.id && peers[id].proxyUUID == p.proxyUUID {
        columns := columns + {ProxyUUID};
      }
      assert columns == Clashes(peers, p);
      if columns != {} {
        return Failed(Unique(columns));
      }
      peers := peers[p.id := p];
      return Stored(p);
    }

    /** DeletePeer is idempotent. */
    method DeletePeer(id: string)
      requires Consistent(peers)
      modifies this
      ensures peers == old(peers) - {id}
      ensures Consistent(peers)
    {
      peers := peers - {id};
    }

    /** ListPeers: every row once, oldest first. */
    method ListPeers() returns (rows: seq<Peer>)
      requires Consistent(peers)
      ensures Lists(rows, peers) && InOrder(rows)
    {
      hide Lists, InOrder;
      rows := [];
      var left := peers;
      ghost var done: Table := map[];
      NothingListed();
      while left != map[]
        invariant Pending(rows, done, left) && done + left == peers
        decreases |left|
      {
        OldestExists(left);
        var id :| id in left && forall j :: j in left ==> left[id].createdAt <= left[j].createdAt;
        ListNext(rows, done, left, id);
        MoveEntry(done, left, id);
        rows := rows + [left[id]];
        done := done[id := left[id]];
        left := left - {id};
      }
      assert done == peers;
    }
  }

  /** The loop of ListPeers: rows lists what is done, and everything left is younger. */
  ghost predicate Pending(rows: seq<Peer>, done: Table, left: Table) {
    && Lists(rows, done) && InOrder(rows) && KeyedById(left) && done.Keys !! left.Keys
    && forall i, id :: 0 <= i < |rows| && id in left ==> rows[i].createdAt <= left[id].createdAt
  }

  lemma NothingListed()
    ensures Lists([], map[]) && InOrder([])
  {
  }

  lemma ListNext(rows: seq<Peer>, done: Table, left: Table, id: string)
    requires Pending(rows, done, left)
    requires id in left && forall j :: j in left ==> left[id].createdAt <= left[j].createdAt
    ensures Pending(rows + [left[id]], done[id := left[id]], left - {id})
  {
    hide Lists, InOrder;
    var more := rows + [left[id]];
    assert forall i :: 0 <= i < |rows| ==> more[i] == rows[i];
    ListsAppend(rows, done, left[id]);
    InOrderAppend(rows, left[id]);
  }

  lemma MoveEntry<K, V>(done: map<K, V>, left: map<K, V>, k: K)
    requires k in left && k !in done
    ensures done[k := left[k]] + (left - {k}) == done + left
  {
    var a, b := done[k := left[k]] + (left - {k}), done + left;
    assert a.Keys == b.Keys;
    assert forall x :: x in b ==> a[x] == b[x];
  }

  lemma ListsAppend(rows: seq<Peer>, t: Table, p: Peer)
    requires Lists(rows, t) && p.id !in t
    ensures Lists(rows + [p], t[p.id := p])
  {
    assert t[p.id := p].Keys == t.Keys + {p.id};
  }

  lemma InOrderAppend(rows: seq<Peer>, p: Peer)
    requires InOrder(rows) && forall i :: 0 <= i < |rows| ==> rows[i].createdAt <= p.createdAt
    ensures InOrder(rows + [p])
  {
  }

  lemma OldestExists(t: Table)
    requires t != map[]
    ensures exists id :: id in t && forall j :: j in t ==> t[id].createdAt <= t[j].createdAt
  {
    var age := (id: string) => if id in t then t[id].createdAt else 0;
    assert t.Keys != {};
    LeastExists(t.Keys, age);
    var id :| id in t.Keys && forall j :: j in t.Keys ==> age(id) <= age(j);
    assert id in t && forall j :: j in t ==> t[id].createdAt <= t[j].createdAt;
  }

  lemma {:induction false} LeastExists<T(!new)>(s: set<T>, f: T -> int)
    requires s != {}
    ensures exists x :: x in s && forall y :: y in s ==> f(x) <= f(y)
  {
    var x :| x in s;
    var rest := s - {x};
    if rest == {} {
      assert s == {x};
    } else {
      LeastExists(rest, f);
      var z :| z in rest && forall y :: y in rest ==> f(z) <= f(y);
      var best := if f(x) <= f(z) then x else z;
      assert forall y :: y in s ==> f(best) <= f(y);
    }
  }

  lemma NothingTaken()
    ensures TakenBy([]) == {} && Taken(map[]) == {}
  {
  }

  lemma TakenSplit(t: Table, id: string)
    requires id in t
    ensures Taken(t) == Taken(t - {id}) + Denoted(t[id].allowedIP)
  {
    hide Denoted;
    forall v | v in Taken(t) ensures v in Taken(t - {id}) + Denoted(t[id].allowedIP) {
      var j :| j in t && v in Denoted(t[j].allowedIP);
      if j != id {
        assert j in t - {id} && (t - {id})[j] == t[j];
      }
    }
    forall v | v in Taken(t - {id}) ensures v in Taken(t) {
      var j :| j in t - {id} && v in Denoted((t - {id})[j].allowedIP);
      assert j in t;
    }
  }
}
