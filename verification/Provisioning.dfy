/**
 The node service over the store and the WireGuard device: writeServerConf, SyncPeers and Apply
 (internal/wg), UpsertPeer, DeletePeer and ResyncPeers (internal/node/service.go). Calls run one
 after another; the outcome of every input or output is a parameter.
 */
module Provisioning {
  import opened Arith
  import opened Text
  import opened Ipv4
  import opened Allocator
  import opened PeerStore
  import opened PeerRuns

  /** A decoded WireGuard key. */
  datatype Key = Key(bytes: string)

  /** wgtypes.ParseKey: the key a text denotes, if any. Several texts may denote one key. */
  type KeyParser = string -> Option<Key>

  // ---- the device ----

  datatype PeerConfig = PeerConfig(key: Key, psk: Option<Key>, route: Cidr)

  datatype DevicePeer = DevicePeer(psk: Option<Key>, routes: set<Cidr>)

  type Device = map<Key, DevicePeer>

  /**
   Adds one peer configuration with replaced allowed addresses: a route belongs to one peer, so
   installing it takes it from any other; an absent preshared key leaves the previous one.
   */
  function Install(dev: Device, c: PeerConfig): Device {
    var others := map k | k in dev :: dev[k].(routes := dev[k].routes - {c.route});
    var psk := if c.psk.None? && c.key in dev then dev[c.key].psk else c.psk;
    others[c.key := DevicePeer(psk, {c.route})]
  }

  /** The device after replacing all peers by the given configurations. */
  function Configured(cfgs: seq<PeerConfig>): Device {
    if cfgs == [] then map[] else Install(Configured(cfgs[..|cfgs| - 1]), cfgs[|cfgs| - 1])
  }

  /** The configuration of an enabled row, if its key, preshared key and address parse. */
  function ConfigOf(parse: KeyParser, p: Peer): Option<PeerConfig> {
    var key, psk, cidr := parse(p.wgKey), parse(p.presharedKey), ParseCIDR(p.allowedIP);
    if key.None? || (p.presharedKey != "" && psk.None?) || cidr.None? then None
    else Some(PeerConfig(key.value, if p.presharedKey == "" then None else psk,
                         Cidr(Masked(cidr.value.ip, cidr.value.prefix), cidr.value.prefix)))
  }

  /** The texts of a row denote a key, a preshared key if there is one, and an address. */
  predicate Parses(parse: KeyParser, p: Peer) {
    && parse(p.wgKey).Some? && (p.presharedKey == "" || parse(p.presharedKey).Some?)
    && ParseCIDR(p.allowedIP).Some?
  }

  /** All enabled rows parse. */
  ghost predicate AllParse(parse: KeyParser, t: Table) {
    forall id :: id in t && t[id].enabled ==> Parses(parse, t[id])
  }

  function Enabled(rows: seq<Peer>): seq<Peer> {
    if rows == [] then []
    else Enabled(rows[..|rows| - 1]) + (if rows[|rows| - 1].enabled then [rows[|rows| - 1]] else [])
  }

  lemma EnabledNext(rows: seq<Peer>, i: nat)
    requires i < |rows|
    ensures Enabled(rows[..i + 1]) == Enabled(rows[..i]) + (if rows[i].enabled then [rows[i]] else [])
  {
    assert rows[..i + 1][..i] == rows[..i];
  }

  /** cfgs are the configurations of rows, one for one. */
  ghost predicate AreConfigsOf(cfgs: seq<PeerConfig>, parse: KeyParser, rows: seq<Peer>) {
    |cfgs| == |rows| && forall i :: 0 <= i < |rows| ==> ConfigOf(parse, rows[i]) == Some(cfgs[i])
  }

  // ---- calls ----

  /** The table, the peers of the interface file, and the live device. */
  datatype NodeState = NodeState(table: Table, conf: seq<Peer>, device: Device)

  /** The file was written from a listing of the table. */
  ghost predicate FileOf(conf: seq<Peer>, t: Table) {
    exists rows :: Lists(rows, t) && InOrder(rows) && conf == Enabled(rows)
  }

  /** The device was configured from a listing of the table. */
  ghost predicate DeviceOf(parse: KeyParser, dev: Device, t: Table) {
    exists rows, cfgs :: Lists(rows, t) && AreConfigsOf(cfgs, parse, Enabled(rows)) && dev == Configured(cfgs)
  }

  /** File and device were last written from the current table. */
  ghost predicate Applied(parse: KeyParser, s: NodeState) {
    FileOf(s.conf, s.table) && DeviceOf(parse, s.device, s.table)
  }

  datatype Call =
    | UpsertCall(req: Request, creds: Creds, now: int)
    | DeleteCall(id: string)
    | ResyncCall(keep: seq<string>)

  /**
   What a call that returned may have done. A failed upsert or delete leaves the device alone. A
   failed resync has deleted no kept row, and its device is the old one or that of a table on the way.
   */
  ghost predicate Returns(parse: KeyParser, subnet: string, s: NodeState, c: Call, s': NodeState, ok: bool) {
    match c
    case UpsertCall(req, creds, now) =>
      var (t', out) := Upsert(s.table, req, subnet, creds, now);
      s'.table == t' && !out.Hangs? && (if ok then out.Stored? && Applied(parse, s') else s'.device == s.device)
    case DeleteCall(id) =>
      if ok then s'.table == s.table - {id} && Applied(parse, s')
      else s'.device == s.device && (s'.table == s.table || s'.table == s.table - {id})
    case ResyncCall(keep) =>
      && (s.table == Kept(s.table, keep) ==> s' == s)
      && (ok ==> s'.table == Kept(s.table, keep) && (s' == s || Applied(parse, s')))
      && (!ok ==> Between(Kept(s.table, keep), s'.table, s.table))
      && (s'.device == s.device || exists t0 :: Between(s'.table, t0, s.table) && DeviceOf(parse, s'.device, t0))
  }

  // ---- the node ----

  /** Outcomes of one Apply: rendering and writing the file, listing again, and talking to the device. */
  datatype ApplyIO = ApplyIO(confWritten: bool, listed: bool, configured: bool) {
    predicate Works() { confWritten && listed && configured }
  }

  class Node {
    const parse: KeyParser
    const subnet: string
    const store: Store
    var conf: seq<Peer>
    var device: Device

    constructor (parse: KeyParser, subnet: string, store: Store)
      ensures this.parse == parse && this.subnet == subnet && this.store == store
      ensures State() == NodeState(store.peers, [], map[])
      ensures Consistent(store.peers) && Canonical(store.peers) ==> Sound(parse, State())
    {
      EmptySound(parse);
      this.parse, this.subnet, this.store := parse, subnet, store;
      conf, device := [], map[];
    }

    function State(): NodeState
      reads this, store
    {
      NodeState(store.peers, conf, device)
    }

    /** SyncPeers: collects the configurations, then replaces the device's peers in one step. */
    method SyncPeers(rows: seq<Peer>, configured: bool) returns (ok: bool)
      modifies this`device
      ensures ok ==> exists cfgs :: AreConfigsOf(cfgs, parse, Enabled(rows)) && device == Configured(cfgs)
      ensures ok <==> configured && forall p :: p in Enabled(rows) ==> ConfigOf(parse, p).Some?
      ensures !ok ==> device == old(device)
    {
      hide ConfigOf, Configured;
      var cfgs := [];
      for i := 0 to |rows|
        invariant AreConfigsOf(cfgs, parse, Enabled(rows[..i]))
        invariant device == old(device)
      {
        EnabledNext(rows, i);
        if rows[i].enabled {
          var c := ConfigOf(parse, rows[i]);
          if c.None? {
            EnabledMember(rows, i);
            return false;
          }
          cfgs := cfgs + [c.value];
        }
      }
      assert rows[..|rows|] == rows;
      if !configured {
        return false;
      }
      device := Configured(cfgs);
      return true;
    }

    /** Apply: write the interface file from the table, then sync the device with it. */
    method Apply(io: ApplyIO) returns (ok: bool)
      requires Consistent(store.peers)
      modifies this`conf, this`device
      ensures ok ==> Applied(parse, State())
      ensures !ok ==> device == old(device)
      ensures ok <==> io.Works() && AllParse(parse, store.peers)
      ensures if io.confWritten then FileOf(conf, store.peers) else conf == old(conf)
    {
      hide Lists, InOrder, Enabled, Configured, AreConfigsOf, Consistent, AllParse, ConfigOf;
      if !io.confWritten {
        return false;
      }
      var rendered := store.ListPeers();
      conf := Enabled(rendered);
      if !io.listed {
        return false;
      }
      var rows := store.ListPeers();
      ConsistentIsKeyed(store.peers);
      ListingParses(parse, rows, store.peers);
      ok := SyncPeers(rows, io.configured);
    }

    /** UpsertPeer: store first, then apply; an empty id gets a generated one. No answer while the scan goes on. */
    method UpsertPeer(req: Request, freshId: string, creds: Creds, now: int, io: ApplyIO, steps: nat)
        returns (out: Option<Outcome>, ok: bool)
      requires Consistent(store.peers)
      modifies this`conf, this`device, store
      ensures Consistent(store.peers)
      ensures out.Some? ==>
                Returns(parse, subnet, old(State()), UpsertCall(WithId(req, freshId), creds, now), State(), ok)
      ensures out.Some? ==> out.value == Upsert(old(store.peers), WithId(req, freshId), subnet, creds, now).1
      ensures out.None? <==> ScansOn(old(store.peers), WithId(req, freshId), subnet, steps)
      ensures out.None? ==> State() == old(State()) && !ok
      ensures out.Some? ==>
                var id := if req.id == "" then freshId else req.id;
                (store.peers, out.value) == Upsert(old(store.peers), req.(id := id), subnet, creds, now)
      ensures ok <==> out.Some? && out.value.Stored? && io.Works() && AllParse(parse, store.peers)
    {
      hide Upsert, ScansOn, Consistent, Applied, AllParse, FileOf;
      out := store.UpsertPeer(WithId(req, freshId), subnet, creds, now, steps);
      ok := false;
      if out.Some? && out.value.Stored? {
        ok := Apply(io);
      }
    }

    /** DeletePeer: idempotent; the row is gone even when applying fails. */
    method DeletePeer(id: string, deleted: bool, io: ApplyIO) returns (ok: bool)
      requires Consistent(store.peers)
      modifies this`conf, this`device, store
      ensures Consistent(store.peers)
      ensures store.peers == if deleted then old(store.peers) - {id} else old(store.peers)
      ensures Returns(parse, subnet, old(State()), DeleteCall(id), State(), ok)
      ensures ok <==> deleted && io.Works() && AllParse(parse, store.peers)
    {
      hide Applied, AllParse, FileOf;
      if !deleted {
        return false;
      }
      store.DeletePeer(id);
      ok := Apply(io);
    }

    /**
     ResyncPeers: deletes the listed rows whose id is not kept, then names the kept ids that were
     not in the table. io(n) gives the outcomes of the deletion of the n-th listed row.
     */
    method ResyncPeers(keep: seq<string>, listed: bool, io: nat -> (bool, ApplyIO))
        returns (missing: seq<string>, ok: bool)
      requires Consistent(store.peers)
      modifies this`conf, this`device, store
      ensures Consistent(store.peers)
      ensures Returns(parse, subnet, old(State()), ResyncCall(keep), State(), ok)
      ensures ok ==> IsEnumeration(missing, Missing(old(store.peers), keep))
      ensures old(store.peers) == Kept(old(store.peers), keep) ==> (ok <==> listed)
      ensures listed && AllWork(io, |old(store.peers)|) && AllParse(parse, old(store.peers)) ==> ok
      ensures ok ==> listed
    {
      hide Consistent, Lists, Applied, DeviceOf, Ids, Unwanted, Kept, Missing, IsEnumeration, Between, AllParse,
        AllWork, Returns;
      ghost var t := store.peers;
      missing, ok := [], false;
      var want := set id | id in keep;
      NothingIdentified(t, keep, want);
      if !listed {
        StoppedResync(parse, subnet, State(), keep, State(), State(), {}, "");
        return;
      }
      var rows := store.ListPeers();
      var have: set<string> := {};
      for i := 0 to |rows|
        invariant Consistent(store.peers)
        invariant have == Ids(rows[..i])
        invariant store.peers == t - Unwanted(rows[..i], want)
        invariant State() == old(State()) || (t != Kept(t, keep) && Applied(parse, State()))
      {
        IdsNext(rows, want, i);
        have := have + {rows[i].id};
        if rows[i].id !in want {
          var (deleted, apply) := io(i);
          ghost var before := State();
          var done := DeletePeer(rows[i].id, deleted, apply);
          DeleteReturned(parse, subnet, before, rows[i].id, State(), done);
          MinusBoth(t, Unwanted(rows[..i], want), rows[i].id);
          UnwantedRow(t, keep, want, rows, i);
          assert {rows[i].id} - want == {rows[i].id};
          if !done {
            Smooth(parse, t, rows, io, i, Unwanted(rows[..i + 1], want), store.peers);
            PartialResync(t, keep, want, rows[..i]);
            PartialResync(t, keep, want, rows[..i + 1]);
            StoppedResync(parse, subnet, old(State()), keep, before, State(), Unwanted(rows[..i], want), rows[i].id);
            return;
          }
        }
      }
      assert rows[..|rows|] == rows;
      FullResync(t, keep, want, rows);
      FinishedResync(parse, subnet, old(State()), keep, State(), Unwanted(rows, want));
      missing := Enumerate(want - have);
      ok := true;
    }

    /** Names the elements of a set, in the arbitrary order of a map iteration. */
    method Enumerate(elements: set<string>) returns (s: seq<string>)
      ensures IsEnumeration(s, elements)
    {
      s := [];
      var left := elements;
      while left != {}
        invariant IsEnumeration(s, elements - left) && left <= elements
      {
        var x :| x in left;
        s := s + [x];
        left := left - {x};
      }
      assert elements - left == elements;
    }
  }

  /** The first n deletions of a resync go well. */
  ghost predicate AllWork(io: nat -> (bool, ApplyIO), n: nat) {
    forall i: nat :: i < n ==> io(i).0 && io(i).1.Works()
  }

  /** A deletion that fails is one of those that do not go well. */
  lemma Smooth(parse: KeyParser, t: Table, rows: seq<Peer>, io: nat -> (bool, ApplyIO), i: nat, gone: set<string>,
               t': Table)
    requires Lists(rows, t) && i < |rows| && (io(i).0 ==> t' == t - gone)
    requires !(io(i).0 && io(i).1.Works() && AllParse(parse, t'))
    ensures !(AllWork(io, |t|) && AllParse(parse, t))
  {
    hide Parses;
  }

  function WithId(req: Request, freshId: string): Request {
    if req.id == "" then req.(id := freshId) else req
  }

  // ---- resync ----

  /** The rows a resync keeps, unchanged. */
  ghost function Kept(t: Table, keep: seq<string>): Table {
    map id | id in t && id in keep :: t[id]
  }

  /** The ids the gateway lists that the table does not hold. */
  ghost function Missing(t: Table, keep: seq<string>): set<string> {
    set id | id in keep && id !in t
  }

  /** s names each element of a set exactly once. */
  ghost predicate IsEnumeration(s: seq<string>, elements: set<string>) {
    && (forall i :: 0 <= i < |s| ==> s[i] in elements)
    && (forall x :: x in elements ==> x in s)
    && (forall i, j :: 0 <= i < j < |s| ==> s[i] != s[j])
  }

  ghost predicate Between(low: Table, t: Table, high: Table) {
    && (forall id :: id in low ==> id in t && t[id] == low[id])
    && (forall id :: id in t ==> id in high && high[id] == t[id])
  }

  /**
   What a successful resync means for each id: listed rows stay as they were, all others go, and the
   ids named as missing are the listed ones without a row. A failed one changes and loses no listed row.
   */
  lemma ResyncInNames(parse: KeyParser, subnet: string, keep: seq<string>, s: NodeState, s': NodeState, ok: bool,
                      missing: seq<string>, id: string)
    requires Returns(parse, subnet, s, ResyncCall(keep), s', ok)
    requires ok ==> IsEnumeration(missing, Missing(s.table, keep))
    ensures id in s'.table ==> id in s.table && s'.table[id] == s.table[id]
    ensures id in s.table && id in keep ==> id in s'.table
    ensures ok ==> (id in s'.table <==> id in s.table && id in keep)
    ensures ok ==> (id in missing <==> id in keep && id !in s.table)
  {
    hide Applied, DeviceOf;
  }

  /** A second resync with the same list changes nothing, and it misses the same ids. */
  lemma ResyncIsIdempotent(parse: KeyParser, subnet: string, keep: seq<string>, s0: NodeState, s1: NodeState,
                           s2: NodeState, ok: bool)
    requires Returns(parse, subnet, s0, ResyncCall(keep), s1, true)
    requires Returns(parse, subnet, s1, ResyncCall(keep), s2, ok)
    ensures s2 == s1 && s1.table == Kept(s0.table, keep) && Missing(s1.table, keep) == Missing(s0.table, keep)
  {
    hide Applied, DeviceOf;
    assert Kept(Kept(s0.table, keep), keep) == Kept(s0.table, keep);
  }

  ghost function Ids(rows: seq<Peer>): set<string> {
    set k | 0 <= k < |rows| :: rows[k].id
  }

  ghost function Unwanted(rows: seq<Peer>, want: set<string>): set<string> {
    Ids(rows) - want
  }

  lemma NothingIdentified(t: Table, keep: seq<string>, want: set<string>)
    requires want == set id | id in keep
    ensures Ids([]) == {} && Unwanted([], want) == {} && t - {} == t && Between(Kept(t, keep), t, t)
  {
  }

  lemma IdsNext(rows: seq<Peer>, want: set<string>, i: nat)
    requires i < |rows|
    ensures Ids(rows[..i + 1]) == Ids(rows[..i]) + {rows[i].id}
    ensures Unwanted(rows[..i + 1], want) == Unwanted(rows[..i], want) + ({rows[i].id} - want)
  {
    var more := rows[..i + 1];
    assert more[i] == rows[i];
    assert forall k :: 0 <= k < i ==> more[k] == rows[..i][k];
  }

  lemma MinusBoth(t: Table, gone: set<string>, id: string)
    ensures (t - gone) - {id} == t - (gone + {id})
  {
  }

  lemma OnTheWay(parse: KeyParser, s: NodeState, t: Table, gone: set<string>, id: string)
    requires Applied(parse, s) && s.table == t - gone
    ensures DeviceOf(parse, s.device, s.table)
    ensures Between(s.table, s.table, t) && Between(t - (gone + {id}), s.table, t)
  {
  }

  /** A resync that stops in a deletion, with the device of the table before it. */
  lemma StoppedResync(parse: KeyParser, subnet: string, s: NodeState, keep: seq<string>, before: NodeState,
                      s': NodeState, gone: set<string>, id: string)
    requires Between(Kept(s.table, keep), s'.table, s.table) && (s.table != Kept(s.table, keep) || s' == s)
    requires before == s || (Applied(parse, before) && before.table == s.table - gone)
    requires s'.device == before.device && (s'.table == before.table || s'.table == s.table - (gone + {id}))
    ensures Returns(parse, subnet, s, ResyncCall(keep), s', false)
  {
    hide Applied, DeviceOf, Between, Kept;
    if before != s {
      OnTheWay(parse, before, s.table, gone, id);
    }
  }

  lemma FinishedResync(parse: KeyParser, subnet: string, s: NodeState, keep: seq<string>, s': NodeState,
                       gone: set<string>)
    requires s'.table == Kept(s.table, keep) == s.table - gone
    requires s' == s || (s.table != Kept(s.table, keep) && Applied(parse, s'))
    ensures Returns(parse, subnet, s, ResyncCall(keep), s', true)
  {
    hide Applied, DeviceOf, Between, Kept;
    if s' != s {
      OnTheWay(parse, s', s.table, gone, "");
    }
  }

  lemma DeleteReturned(parse: KeyParser, subnet: string, s: NodeState, id: string, s': NodeState, ok: bool)
    requires Returns(parse, subnet, s, DeleteCall(id), s', ok)
    ensures if ok then s'.table == s.table - {id} && Applied(parse, s') else s'.device == s.device
  {
    hide Applied;
  }

  lemma UnwantedRow(t: Table, keep: seq<string>, want: set<string>, rows: seq<Peer>, i: nat)
    requires want == (set id | id in keep) && i < |rows| && rows[i].id !in want && Lists(rows, t)
    ensures t != Kept(t, keep)
  {
    assert rows[i].id in t && rows[i].id !in Kept(t, keep);
  }

  /** Part way through, nothing kept is gone and nothing is changed. */
  lemma PartialResync(t: Table, keep: seq<string>, want: set<string>, rows: seq<Peer>)
    requires want == set id | id in keep
    ensures Between(Kept(t, keep), t - Unwanted(rows, want), t)
  {
  }

  lemma FullResync(t: Table, keep: seq<string>, want: set<string>, rows: seq<Peer>)
    requires want == (set id | id in keep) && Lists(rows, t)
    ensures Ids(rows) == t.Keys
    ensures t - Unwanted(rows, want) == Kept(t, keep) && want - Ids(rows) == Missing(t, keep)
  {
    IdCount(rows);
    SubsetSize(Ids(rows), t.Keys);
  }

  lemma IdCount(rows: seq<Peer>)
    requires forall i, j :: 0 <= i < j < |rows| ==> rows[i].id != rows[j].id
    ensures |Ids(rows)| == |rows|
  {
    var ids := seq(|rows|, i requires 0 <= i < |rows| => rows[i].id);
    var elements := set k | 0 <= k < |ids| :: ids[k];
    DistinctCount(ids, |ids|);
    forall id ensures id in Ids(rows) <==> id in elements {
      if id in Ids(rows) {
        var k :| 0 <= k < |rows| && rows[k].id == id;
        assert ids[k] == id;
      }
      if id in elements {
        var k :| 0 <= k < |ids| && ids[k] == id;
        assert rows[k].id == id;
      }
    }
    assert Ids(rows) == elements;
  }

  lemma {:induction false} DistinctCount<T>(s: seq<T>, n: nat)
    requires n <= |s| && forall i, j :: 0 <= i < j < |s| ==> s[i] != s[j]
    ensures |set k | 0 <= k < n :: s[k]| == n
  {
    var elements := set k | 0 <= k < n :: s[k];
    if n == 0 {
      assert elements == {};
    } else {
      DistinctCount(s, n - 1);
      var fewer := set k | 0 <= k < n - 1 :: s[k];
      assert elements == fewer + {s[n - 1]};
    }
  }

  lemma EnabledMember(rows: seq<Peer>, i: nat)
    requires i < |rows| && rows[i].enabled
    ensures rows[i] in Enabled(rows)
    decreases |rows|
  {
    if i < |rows| - 1 {
      EnabledMember(rows[..|rows| - 1], i);
      assert rows[..|rows| - 1][i] == rows[i];
    }
  }

  // ---- the device mirrors the table ----

  /** Whatever is configured, no route, as a prefix, belongs to two peers. */
  lemma {:induction false} RoutesAreDisjoint(cfgs: seq<PeerConfig>, k: Key, l: Key)
    requires k in Configured(cfgs) && l in Configured(cfgs) && k != l
    ensures Configured(cfgs)[k].routes !! Configured(cfgs)[l].routes
  {
    if cfgs != [] {
      var init := cfgs[..|cfgs| - 1];
      if k in Configured(init) && l in Configured(init) {
        RoutesAreDisjoint(init, k, l);
      }
    }
  }

  ghost predicate DistinctKeys(cfgs: seq<PeerConfig>) {
    forall i, j :: 0 <= i < j < |cfgs| ==> cfgs[i].key != cfgs[j].key
  }

  ghost predicate DistinctRoutes(cfgs: seq<PeerConfig>) {
    forall i, j :: 0 <= i < j < |cfgs| ==> cfgs[i].route != cfgs[j].route
  }

  /** The device holds exactly the configured peers, each with its own preshared key and route. */
  ghost predicate Holds(dev: Device, cfgs: seq<PeerConfig>) {
    HoldsEach(dev, cfgs) && HoldsOnly(dev, cfgs)
  }

  ghost predicate HoldsEach(dev: Device, cfgs: seq<PeerConfig>) {
    forall i :: 0 <= i < |cfgs| ==>
      cfgs[i].key in dev && dev[cfgs[i].key] == DevicePeer(cfgs[i].psk, {cfgs[i].route})
  }

  ghost predicate HoldsOnly(dev: Device, cfgs: seq<PeerConfig>) {
    forall k :: k in dev ==> exists i :: 0 <= i < |cfgs| && cfgs[i].key == k
  }

  lemma {:induction false} DistinctConfigsHold(cfgs: seq<PeerConfig>)
    requires DistinctKeys(cfgs) && DistinctRoutes(cfgs)
    ensures Holds(Configured(cfgs), cfgs)
  {
    if cfgs != [] {
      var n := |cfgs| - 1;
      var init := cfgs[..n];
      DistinctConfigsHold(init);
      InstallHolds(Configured(init), init, cfgs[n]);
      assert init + [cfgs[n]] == cfgs;
    }
  }

  lemma InstallHolds(dev: Device, cfgs: seq<PeerConfig>, c: PeerConfig)
    requires Holds(dev, cfgs)
    requires forall i :: 0 <= i < |cfgs| ==> cfgs[i].key != c.key && cfgs[i].route != c.route
    ensures Holds(Install(dev, c), cfgs + [c])
  {
    var more := cfgs + [c];
    var dev' := Install(dev, c);
    assert c.key !in dev;
    forall i | 0 <= i < |more|
      ensures more[i].key in dev' && dev'[more[i].key] == DevicePeer(more[i].psk, {more[i].route})
    {
      if i < |cfgs| {
        assert {cfgs[i].route} - {c.route} == {cfgs[i].route};
      }
    }
    forall k | k in dev' ensures exists i :: 0 <= i < |more| && more[i].key == k {
      if k == c.key {
        assert more[|cfgs|].key == k;
      } else {
        var i :| 0 <= i < |cfgs| && cfgs[i].key == k;
        assert more[i].key == k;
      }
    }
  }

  /** Rows placed in a block with pairwise distinct addresses get pairwise distinct routes. */
  lemma PlacedRoutesDistinct(parse: KeyParser, p: Peer, q: Peer, v: nat, w: nat)
    requires v < ADDRESSES && w < ADDRESSES && p.allowedIP == HostText(v) && q.allowedIP == HostText(w)
    requires p.allowedIP != q.allowedIP && ConfigOf(parse, p).Some? && ConfigOf(parse, q).Some?
    ensures ConfigOf(parse, p).value.route != ConfigOf(parse, q).value.route
  {
    hide ConfigOf;
    HostRoute(parse, p, v);
    HostRoute(parse, q, w);
  }

  /** The route of a row with a host address is exactly that address. */
  lemma HostRoute(parse: KeyParser, p: Peer, v: nat)
    requires v < ADDRESSES && p.allowedIP == HostText(v) && ConfigOf(parse, p).Some?
    ensures ConfigOf(parse, p).value.route == Cidr(AddrOf(v), 32)
  {
    hide Dotted, Masked, ParseCIDR, Value;
    HostCidrRoundTrip(AddrOf(v));
    FullMask(AddrOf(v), 32);
  }

  lemma RoutesDistinct(parse: KeyParser, t: Table, rows: seq<Peer>, cfgs: seq<PeerConfig>)
    requires Consistent(t) && Canonical(t) && AreConfigsOf(cfgs, parse, rows)
    requires forall i :: 0 <= i < |rows| ==> rows[i].id in t && rows[i] == t[rows[i].id]
    requires forall i, j :: 0 <= i < j < |rows| ==> rows[i].id != rows[j].id
    ensures DistinctRoutes(cfgs)
  {
    hide HostText, ConfigOf;
    forall i, j | 0 <= i < j < |cfgs| ensures cfgs[i].route != cfgs[j].route {
      var v: nat :| v < ADDRESSES && t[rows[i].id].allowedIP == HostText(v);
      var w: nat :| w < ADDRESSES && t[rows[j].id].allowedIP == HostText(w);
      PlacedRoutesDistinct(parse, rows[i], rows[j], v, w);
    }
  }

  lemma {:induction false} EnabledListing(rows: seq<Peer>, t: Table)
    requires forall i :: 0 <= i < |rows| ==> rows[i].id in t && rows[i] == t[rows[i].id]
    requires forall i, j :: 0 <= i < j < |rows| ==> rows[i].id != rows[j].id
    ensures forall i :: 0 <= i < |Enabled(rows)| ==>
              && Enabled(rows)[i].enabled && Enabled(rows)[i] in rows
              && Enabled(rows)[i].id in t && Enabled(rows)[i] == t[Enabled(rows)[i].id]
    ensures forall i, j :: 0 <= i < j < |Enabled(rows)| ==> Enabled(rows)[i].id != Enabled(rows)[j].id
  {
    if rows != [] {
      var n := |rows| - 1;
      var init := rows[..n];
      EnabledListing(init, t);
      forall i | 0 <= i < |Enabled(init)| ensures Enabled(init)[i].id != rows[n].id && Enabled(init)[i] in rows {
        var k :| 0 <= k < n && init[k] == Enabled(init)[i];
        assert rows[k] == init[k];
      }
    }
  }

  /** Distinct enabled rows have keys that denote distinct WireGuard keys. */
  ghost predicate KeysDenoteDistinct(parse: KeyParser, rows: seq<Peer>) {
    forall i, j :: 0 <= i < j < |rows| ==> parse(rows[i].wgKey) != parse(rows[j].wgKey)
  }

  lemma DeviceHoldsIff(parse: KeyParser, t: Table, rows: seq<Peer>, cfgs: seq<PeerConfig>)
    requires Consistent(t) && Canonical(t) && Lists(rows, t) && AreConfigsOf(cfgs, parse, Enabled(rows))
    ensures Holds(Configured(cfgs), cfgs) <==> KeysDenoteDistinct(parse, Enabled(rows))
  {
    hide Lists, Configured, Consistent, Canonical, Holds, AreConfigsOf, Enabled, KeysDenoteDistinct;
    ListsRows(rows, t);
    EnabledListing(rows, t);
    RoutesDistinct(parse, t, Enabled(rows), cfgs);
    HoldsIffKeysDistinct(parse, Enabled(rows), cfgs);
  }

  lemma HoldsIffKeysDistinct(parse: KeyParser, rows: seq<Peer>, cfgs: seq<PeerConfig>)
    requires AreConfigsOf(cfgs, parse, rows) && DistinctRoutes(cfgs)
    ensures Holds(Configured(cfgs), cfgs) <==> KeysDenoteDistinct(parse, rows)
  {
    hide Configured, ConfigOf;
    forall i | 0 <= i < |rows| ensures parse(rows[i].wgKey) == Some(cfgs[i].key) {
      ConfigKey(parse, rows[i]);
    }
    if KeysDenoteDistinct(parse, rows) {
      DistinctConfigsHold(cfgs);
    } else {
      var i, j :| 0 <= i < j < |rows| && parse(rows[i].wgKey) == parse(rows[j].wgKey);
      assert cfgs[i].key == cfgs[j].key && cfgs[i].route != cfgs[j].route;
      assert cfgs[i].route in {cfgs[i].route} && cfgs[i].route !in {cfgs[j].route};
    }
  }

  lemma ConfigKey(parse: KeyParser, p: Peer)
    requires ConfigOf(parse, p).Some?
    ensures parse(p.wgKey) == Some(ConfigOf(parse, p).value.key)
  {
    hide ParseCIDR, Masked;
  }

  lemma ListsRows(rows: seq<Peer>, t: Table)
    requires Lists(rows, t)
    ensures forall i :: 0 <= i < |rows| ==> rows[i].id in t && rows[i] == t[rows[i].id]
    ensures forall i, j :: 0 <= i < j < |rows| ==> rows[i].id != rows[j].id
  {
  }

  /** A row of the table that is enabled. */
  ghost predicate IsEnabledRow(t: Table, p: Peer) {
    p.id in t && t[p.id] == p && p.enabled
  }

  /** The enabled rows of any listing are the enabled rows of the table. */
  lemma EnabledOfListing(rows: seq<Peer>, t: Table, p: Peer)
    requires Lists(rows, t)
    ensures p in Enabled(rows) <==> IsEnabledRow(t, p)
  {
    hide Enabled;
    ListsRows(rows, t);
    EnabledListing(rows, t);
    if IsEnabledRow(t, p) {
      hide Lists;
      FullResync(t, [], {}, rows);
      assert p.id in Ids(rows);
      var k :| 0 <= k < |rows| && rows[k].id == p.id;
      EnabledMember(rows, k);
    }
  }

  /** All enabled rows of any listing parse exactly if all enabled rows of the table do. */
  lemma ListingParses(parse: KeyParser, rows: seq<Peer>, t: Table)
    requires Lists(rows, t) && KeyedById(t)
    ensures (forall p :: p in Enabled(rows) ==> ConfigOf(parse, p).Some?) <==> AllParse(parse, t)
  {
    hide Enabled, Lists;
    forall p ensures p in Enabled(rows) <==> IsEnabledRow(t, p) {
      EnabledOfListing(rows, t, p);
    }
    forall p ensures ConfigOf(parse, p).Some? <==> Parses(parse, p) {
      ConfigIffParses(parse, p);
    }
    hide ConfigOf, Parses;
    if forall p :: p in Enabled(rows) ==> ConfigOf(parse, p).Some? {
      forall id | id in t && t[id].enabled ensures Parses(parse, t[id]) {
        assert IsEnabledRow(t, t[id]);
      }
    }
  }

  /** The device is only ever configured from a table whose enabled rows all parse. */
  lemma AppliedParses(parse: KeyParser, s: NodeState)
    requires Applied(parse, s) && KeyedById(s.table)
    ensures AllParse(parse, s.table)
  {
    hide Lists, Configured, ConfigOf, AllParse, Enabled, FileOf, KeyedById;
    var rows, cfgs :| Lists(rows, s.table) && AreConfigsOf(cfgs, parse, Enabled(rows)) && s.device == Configured(cfgs);
    ListingParses(parse, rows, s.table);
  }

  lemma ConfigIffParses(parse: KeyParser, p: Peer)
    ensures ConfigOf(parse, p).Some? <==> Parses(parse, p)
  {
    hide ParseCIDR, Masked;
  }

  /** No two enabled rows have key texts that denote the same key. */
  ghost predicate EnabledKeysDistinct(parse: KeyParser, t: Table) {
    forall p, q :: IsEnabledRow(t, p) && IsEnabledRow(t, q) && p != q ==> parse(p.wgKey) != parse(q.wgKey)
  }

  /** The device holds exactly the enabled rows, each with its own preshared key and route. */
  ghost predicate DeviceMirrors(dev: Device, parse: KeyParser, t: Table) {
    RowsAreLive(dev, parse, t) && LiveAreRows(dev, parse, t)
  }

  ghost predicate RowsAreLive(dev: Device, parse: KeyParser, t: Table) {
    forall p :: IsEnabledRow(t, p) ==>
      var c := ConfigOf(parse, p);
      c.Some? && c.value.key in dev && dev[c.value.key] == DevicePeer(c.value.psk, {c.value.route})
  }

  ghost predicate LiveAreRows(dev: Device, parse: KeyParser, t: Table) {
    forall k :: k in dev ==> exists p :: IsEnabledRow(t, p) && parse(p.wgKey) == Some(k)
  }

  lemma DistinctOverRowsIff(parse: KeyParser, t: Table, rows: seq<Peer>)
    requires Lists(rows, t)
    ensures KeysDenoteDistinct(parse, Enabled(rows)) <==> EnabledKeysDistinct(parse, t)
  {
    hide Enabled, Lists, IsEnabledRow;
    var on := Enabled(rows);
    forall p ensures p in on <==> IsEnabledRow(t, p) {
      EnabledOfListing(rows, t, p);
    }
    ListsRows(rows, t);
    EnabledListing(rows, t);
    if KeysDenoteDistinct(parse, on) {
      forall p, q | IsEnabledRow(t, p) && IsEnabledRow(t, q) && p != q ensures parse(p.wgKey) != parse(q.wgKey) {
        var i :| 0 <= i < |on| && on[i] == p;
        var j :| 0 <= j < |on| && on[j] == q;
        assert i < j || j < i;
      }
    }
    if EnabledKeysDistinct(parse, t) {
      forall i, j | 0 <= i < j < |on| ensures parse(on[i].wgKey) != parse(on[j].wgKey) {
        assert on[i] in on && on[j] in on && on[i].id != on[j].id;
      }
    }
  }

  lemma HoldsIsMirror(dev: Device, parse: KeyParser, t: Table, rows: seq<Peer>, cfgs: seq<PeerConfig>)
    requires Lists(rows, t) && AreConfigsOf(cfgs, parse, Enabled(rows))
    ensures Holds(dev, cfgs) <==> DeviceMirrors(dev, parse, t)
  {
    hide Enabled, Lists, IsEnabledRow, RowsAreLive, LiveAreRows, HoldsEach, HoldsOnly, AreConfigsOf;
    forall p ensures p in Enabled(rows) <==> IsEnabledRow(t, p) {
      EnabledOfListing(rows, t, p);
    }
    EachIffLive(dev, parse, t, Enabled(rows), cfgs);
    OnlyIffRows(dev, parse, t, Enabled(rows), cfgs);
  }

  lemma EachIffLive(dev: Device, parse: KeyParser, t: Table, on: seq<Peer>, cfgs: seq<PeerConfig>)
    requires AreConfigsOf(cfgs, parse, on) && forall p :: p in on <==> IsEnabledRow(t, p)
    ensures HoldsEach(dev, cfgs) <==> RowsAreLive(dev, parse, t)
  {
    hide IsEnabledRow, ConfigOf;
    if HoldsEach(dev, cfgs) {
      forall p | IsEnabledRow(t, p)
        ensures
          var c := ConfigOf(parse, p);
          c.Some? && c.value.key in dev && dev[c.value.key] == DevicePeer(c.value.psk, {c.value.route})
      {
        var i :| 0 <= i < |on| && on[i] == p;
      }
    }
    if RowsAreLive(dev, parse, t) {
      forall i | 0 <= i < |cfgs|
        ensures cfgs[i].key in dev && dev[cfgs[i].key] == DevicePeer(cfgs[i].psk, {cfgs[i].route})
      {
        assert on[i] in on;
      }
    }
  }

  lemma OnlyIffRows(dev: Device, parse: KeyParser, t: Table, on: seq<Peer>, cfgs: seq<PeerConfig>)
    requires AreConfigsOf(cfgs, parse, on) && forall p :: p in on <==> IsEnabledRow(t, p)
    ensures HoldsOnly(dev, cfgs) <==> LiveAreRows(dev, parse, t)
  {
    hide IsEnabledRow, ConfigOf;
    if HoldsOnly(dev, cfgs) {
      forall k | k in dev ensures exists p :: IsEnabledRow(t, p) && parse(p.wgKey) == Some(k) {
        var i :| 0 <= i < |cfgs| && cfgs[i].key == k;
        ConfigKey(parse, on[i]);
        assert on[i] in on;
      }
    }
    if LiveAreRows(dev, parse, t) {
      forall k | k in dev ensures exists i :: 0 <= i < |cfgs| && cfgs[i].key == k {
        var p :| IsEnabledRow(t, p) && parse(p.wgKey) == Some(k);
        var i :| 0 <= i < |on| && on[i] == p;
        ConfigKey(parse, on[i]);
      }
    }
  }

  /**
   After a successful apply the interface file holds exactly the enabled rows; the live device
   does so too if and only if no two enabled rows have key texts that denote the same key. The
   UNIQUE column compares texts, so it does not rule that out by itself.
   */
  lemma AppliedMirrorsIff(parse: KeyParser, s: NodeState)
    requires Applied(parse, s) && Consistent(s.table) && Canonical(s.table)
    ensures forall p :: p in s.conf <==> IsEnabledRow(s.table, p)
    ensures DeviceMirrors(s.device, parse, s.table) <==> EnabledKeysDistinct(parse, s.table)
  {
    hide Lists, Consistent, Canonical, Configured, AreConfigsOf, Enabled, IsEnabledRow, DeviceMirrors, Holds,
      EnabledKeysDistinct, KeysDenoteDistinct;
    var t := s.table;
    var rendered :| Lists(rendered, t) && InOrder(rendered) && s.conf == Enabled(rendered);
    forall p ensures p in s.conf <==> IsEnabledRow(t, p) {
      EnabledOfListing(rendered, t, p);
    }
    var rows, cfgs :| Lists(rows, t) && AreConfigsOf(cfgs, parse, Enabled(rows)) && s.device == Configured(cfgs);
    DeviceHoldsIff(parse, t, rows, cfgs);
    HoldsIsMirror(s.device, parse, t, rows, cfgs);
    DistinctOverRowsIff(parse, t, rows);
  }

  /** What mirroring means for one row: its own key, its own preshared key, and the host address it was given. */
  lemma MirroredRow(dev: Device, parse: KeyParser, t: Table, p: Peer, v: nat)
    requires DeviceMirrors(dev, parse, t) && IsEnabledRow(t, p) && v < ADDRESSES && p.allowedIP == HostText(v)
    ensures
      && parse(p.wgKey).Some? && parse(p.wgKey).value in dev
      && dev[parse(p.wgKey).value]
         == DevicePeer(if p.presharedKey == "" then None else parse(p.presharedKey), {Cidr(AddrOf(v), 32)})
  {
    hide HostText, AddrOf, IsEnabledRow, Masked, ParseCIDR;
    assert ConfigOf(parse, p).Some?;
    HostRoute(parse, p, v);
  }

  // ---- addresses ----

  /** The addresses a route covers. */
  function Addresses(c: Cidr): set<nat>
    requires c.Valid()
  {
    Range(Value(Masked(c.ip, c.prefix)), BlockSize(c.prefix, 4))
  }

  /** Address v is allowed for this live peer. */
  ghost predicate Allows(p: DevicePeer, v: nat) {
    exists c :: c in p.routes && c.Valid() && v in Addresses(c)
  }

  /** Cryptokey routing: no address is allowed for two live peers. */
  ghost predicate AddressesDisjoint(dev: Device) {
    forall k, l, v :: k in dev && l in dev && k != l && Allows(dev[k], v) ==> !Allows(dev[l], v)
  }

  lemma HostAddresses(v: nat)
    requires v < ADDRESSES
    ensures Cidr(AddrOf(v), 32).Valid() && Addresses(Cidr(AddrOf(v), 32)) == {v}
  {
    hide Value, Masked, AddrOf;
    FullMask(AddrOf(v), 32);
    Pow2Small();
    assert Addresses(Cidr(AddrOf(v), 32)) == Range(v, 1);
  }

  /** Every live route was configured. */
  lemma {:induction false} RouteOrigin(cfgs: seq<PeerConfig>, k: Key, c: Cidr)
    requires k in Configured(cfgs) && c in Configured(cfgs)[k].routes
    ensures exists i :: 0 <= i < |cfgs| && cfgs[i].route == c
  {
    var n := |cfgs| - 1;
    if c != cfgs[n].route {
      RouteOrigin(cfgs[..n], k, c);
      var i :| 0 <= i < n && cfgs[..n][i].route == c;
      assert cfgs[i].route == c;
    }
  }

  /** A device configured from a table of host addresses allows no address for two peers. */
  lemma LiveAddressesDisjoint(parse: KeyParser, dev: Device, t: Table)
    requires DeviceOf(parse, dev, t) && Canonical(t)
    ensures AddressesDisjoint(dev)
  {
    hide Lists, Configured, AreConfigsOf, Canonical, Addresses, Enabled;
    var rows, cfgs :| Lists(rows, t) && AreConfigsOf(cfgs, parse, Enabled(rows)) && dev == Configured(cfgs);
    forall k, l, v | k in dev && l in dev && k != l && Allows(dev[k], v) ensures !Allows(dev[l], v) {
      if Allows(dev[l], v) {
        var c :| c in dev[k].routes && c.Valid() && v in Addresses(c);
        var d :| d in dev[l].routes && d.Valid() && v in Addresses(d);
        OnlyHostRoutes(parse, t, rows, cfgs, k, c, v);
        OnlyHostRoutes(parse, t, rows, cfgs, l, d, v);
        RoutesAreDisjoint(cfgs, k, l);
        assert false;
      }
    }
  }

  lemma OnlyHostRoutes(parse: KeyParser, t: Table, rows: seq<Peer>, cfgs: seq<PeerConfig>, k: Key, c: Cidr, v: nat)
    requires Canonical(t) && Lists(rows, t) && AreConfigsOf(cfgs, parse, Enabled(rows))
    requires k in Configured(cfgs) && c in Configured(cfgs)[k].routes && c.Valid() && v in Addresses(c)
    ensures c == Cidr(AddrOf(v), 32)
  {
    hide Configured, ConfigOf, HostText, AddrOf, Enabled, Addresses;
    RouteOrigin(cfgs, k, c);
    var i :| 0 <= i < |cfgs| && cfgs[i].route == c;
    ListsRows(rows, t);
    EnabledListing(rows, t);
    var p := Enabled(rows)[i];
    var w: nat :| w < ADDRESSES && t[p.id].allowedIP == HostText(w);
    HostRoute(parse, p, w);
    HostAddresses(w);
  }

  /** Every live peer holds at most one route, and got it from a configuration of its own key. */
  lemma {:induction false} RouteOwner(cfgs: seq<PeerConfig>, k: Key, c: Cidr, d: Cidr)
    requires k in Configured(cfgs) && c in Configured(cfgs)[k].routes && d in Configured(cfgs)[k].routes
    ensures c == d && exists i :: 0 <= i < |cfgs| && cfgs[i].route == c && cfgs[i].key == k
  {
    var n := |cfgs| - 1;
    if cfgs[n].key == k {
      assert cfgs[n].route == c;
    } else {
      RouteOwner(cfgs[..n], k, c, d);
      var i :| 0 <= i < n && cfgs[..n][i].route == c && cfgs[..n][i].key == k;
      assert cfgs[i].route == c && cfgs[i].key == k;
    }
  }

  /** Nobody live is allowed this address. */
  ghost predicate Unrouted(dev: Device, v: nat) {
    forall l :: l in dev ==> !Allows(dev[l], v)
  }

  /** Where a host address is allowed, its own row's key holds it. */
  lemma AllowedIsOwn(parse: KeyParser, t: Table, rows: seq<Peer>, cfgs: seq<PeerConfig>, p: Peer, v: nat, l: Key)
    requires Consistent(t) && Canonical(t) && Lists(rows, t) && AreConfigsOf(cfgs, parse, Enabled(rows))
    requires IsEnabledRow(t, p) && v < ADDRESSES && p.allowedIP == HostText(v)
    requires l in Configured(cfgs) && Allows(Configured(cfgs)[l], v)
    ensures parse(p.wgKey) == Some(l) && Cidr(AddrOf(v), 32) in Configured(cfgs)[l].routes
  {
    hide Configured, ConfigOf, HostText, AddrOf, Enabled, Addresses, Lists, Consistent, Canonical;
    var c :| c in Configured(cfgs)[l].routes && c.Valid() && v in Addresses(c);
    OnlyHostRoutes(parse, t, rows, cfgs, l, c, v);
    RouteOwner(cfgs, l, c, c);
    var i :| 0 <= i < |cfgs| && cfgs[i].route == c && cfgs[i].key == l;
    EnabledOfListing(rows, t, p);
    var j :| 0 <= j < |Enabled(rows)| && Enabled(rows)[j] == p;
    HostRoute(parse, p, v);
    ListsRows(rows, t);
    EnabledListing(rows, t);
    RoutesDistinct(parse, t, Enabled(rows), cfgs);
    assert i == j;
    ConfigKey(parse, p);
  }

  /**
   Two enabled rows whose key texts denote one key: on every device configured from the table, the
   address of at least one of them is allowed for nobody.
   */
  lemma SharedKeyLosesPeer(parse: KeyParser, dev: Device, t: Table, p: Peer, q: Peer, v: nat, w: nat)
    requires Consistent(t) && Canonical(t) && DeviceOf(parse, dev, t)
    requires IsEnabledRow(t, p) && IsEnabledRow(t, q) && p != q && parse(p.wgKey) == parse(q.wgKey)
    requires v < ADDRESSES && p.allowedIP == HostText(v) && w < ADDRESSES && q.allowedIP == HostText(w)
    ensures Unrouted(dev, v) || Unrouted(dev, w)
  {
    hide Configured, HostText, AddrOf, Enabled, Lists, Canonical, Allows, AreConfigsOf;
    var rows, cfgs :| Lists(rows, t) && AreConfigsOf(cfgs, parse, Enabled(rows)) && dev == Configured(cfgs);
    if k :| k in dev && Allows(dev[k], v) {
      if l :| l in dev && Allows(dev[l], w) {
        AllowedIsOwn(parse, t, rows, cfgs, p, v, k);
        AllowedIsOwn(parse, t, rows, cfgs, q, w, l);
        RouteOwner(cfgs, k, Cidr(AddrOf(v), 32), Cidr(AddrOf(w), 32));
        SameHost(v, w);
        assert false;
      }
    }
  }

  lemma SameHost(v: nat, w: nat)
    requires v < ADDRESSES && w < ADDRESSES && AddrOf(v) == AddrOf(w)
    ensures v == w && HostText(v) == HostText(w)
  {
    hide Value;
  }

  // ---- runs ----

  /** Calls that ran one after another: the states between them, and which succeeded. */
  ghost predicate IsRun(parse: KeyParser, subnet: string, states: seq<NodeState>, calls: seq<Call>, oks: seq<bool>) {
    && |states| == |calls| + 1 && |oks| == |calls|
    && forall i :: 0 <= i < |calls| ==> Returns(parse, subnet, states[i], calls[i], states[i + 1], oks[i])
  }

  /** A sound table, and a device that is empty or was configured from one. */
  ghost predicate Sound(parse: KeyParser, s: NodeState) {
    && Consistent(s.table) && Canonical(s.table)
    && (s.device == map[] || exists t0 :: Canonical(t0) && DeviceOf(parse, s.device, t0))
  }

  lemma BetweenSound(low: Table, t: Table, high: Table)
    requires Between(low, t, high)
    ensures Canonical(high) ==> Canonical(t)
    ensures Consistent(high) ==> Consistent(t)
  {
    hide HostText;
  }

  lemma ReturnsSound(parse: KeyParser, subnet: string, s: NodeState, c: Call, s': NodeState, ok: bool)
    requires Sound(parse, s) && Returns(parse, subnet, s, c, s', ok)
    ensures Sound(parse, s')
  {
    hide Upsert, Consistent, Canonical, DeviceOf, FileOf, Kept, Between;
    match c
    case UpsertCall(req, creds, now) =>
      ConsistentIsKeyed(s.table);
      UpsertConsistent(s.table, req, subnet, creds, now);
      UpsertCanonical(s.table, req, subnet, creds, now);
    case DeleteCall(id) =>
      SmallerBetween(s.table, id);
      BetweenSound(map[], s.table - {id}, s.table);
    case ResyncCall(keep) =>
      KeptBetween(s.table, keep);
      BetweenSound(Kept(s.table, keep), s'.table, s.table);
      if s'.device != s.device {
        var t0 :| Between(s'.table, t0, s.table) && DeviceOf(parse, s'.device, t0);
        BetweenSound(s'.table, t0, s.table);
      }
  }

  lemma ConsistentIsKeyed(t: Table)
    requires Consistent(t)
    ensures KeyedById(t)
  {
  }

  lemma SmallerBetween(t: Table, id: string)
    ensures Between(map[], t - {id}, t)
  {
  }

  lemma KeptBetween(t: Table, keep: seq<string>)
    ensures Between(Kept(t, keep), Kept(t, keep), t)
  {
  }

  lemma {:induction false} RunIsSound(parse: KeyParser, subnet: string, states: seq<NodeState>, calls: seq<Call>,
                                      oks: seq<bool>, i: nat)
    requires IsRun(parse, subnet, states, calls, oks) && Sound(parse, states[0]) && i < |states|
    ensures Sound(parse, states[i])
  {
    hide Returns, Sound;
    if i > 0 {
      RunIsSound(parse, subnet, states, calls, oks, i - 1);
      ReturnsSound(parse, subnet, states[i - 1], calls[i - 1], states[i], oks[i - 1]);
    }
  }

  /**
   Over every run of upserts, deletes and resyncs, whatever fails on the way: no address is ever
   allowed for two live peers; after every success that changed anything the file holds exactly the
   enabled rows, and the device does so if and only if no two of their key texts denote one key;
   after a failed upsert or delete the live set is what it was.
   */
  lemma RunsMirror(parse: KeyParser, subnet: string, states: seq<NodeState>, calls: seq<Call>, oks: seq<bool>, i: nat)
    requires IsRun(parse, subnet, states, calls, oks) && Sound(parse, states[0]) && i < |calls|
    ensures
      var s, s' := states[i], states[i + 1];
      && Consistent(s'.table) && AddressesDisjoint(s'.device)
      && (oks[i] && (calls[i].ResyncCall? ==> s' != s) ==>
            && (forall p :: p in s'.conf <==> IsEnabledRow(s'.table, p))
            && (DeviceMirrors(s'.device, parse, s'.table) <==> EnabledKeysDistinct(parse, s'.table)))
      && (!oks[i] && !calls[i].ResyncCall? ==> s'.device == s.device)
  {
    hide Upsert, Consistent, Canonical, DeviceOf, FileOf, IsEnabledRow, DeviceMirrors, EnabledKeysDistinct,
      Kept, Between;
    RunIsSound(parse, subnet, states, calls, oks, i + 1);
    var s' := states[i + 1];
    if s'.device != map[] {
      var t0 :| Canonical(t0) && DeviceOf(parse, s'.device, t0);
      LiveAddressesDisjoint(parse, s'.device, t0);
    }
    assert Returns(parse, subnet, states[i], calls[i], s', oks[i]);
    if oks[i] && (calls[i].ResyncCall? ==> s' != states[i]) {
      AppliedMirrorsIff(parse, s');
    }
  }

  /** A node starts sound on any sound table, the empty one among them. */
  lemma EmptySound(parse: KeyParser)
    ensures forall t :: Consistent(t) && Canonical(t) ==> Sound(parse, NodeState(t, [], map[]))
  {
  }
}
