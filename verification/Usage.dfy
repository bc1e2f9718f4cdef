/**
 Usage metering: BuildUsageReport (internal/node/gateway.go:200-240) turns the device's cumulative,
 resettable counters into deltas. The bridge object is proved against a fold; conservation is then
 proved over every run of traffic, resets, key changes, deletes, failed reads and reports.
 */
module Usage {
  import opened Text
  import opened PeerStore

  /** Received and transmitted bytes. */
  datatype Bytes = Bytes(rx: nat, tx: nat)

  function Plus(a: Bytes, b: Bytes): Bytes {
    Bytes(a.rx + b.rx, a.tx + b.tx)
  }

  predicate AtMost(a: Bytes, b: Bytes) {
    a.rx <= b.rx && a.tx <= b.tx
  }

  predicate IsZero(b: Bytes) {
    b.rx == 0 && b.tx == 0
  }

  datatype Transfer = Transfer(wgKey: string, bytes: Bytes, lastHandshake: int)

  datatype PeerUsage = PeerUsage(id: string, delta: Bytes, lastHandshake: int)

  type Samples = map<string, Bytes>

  function At(m: Samples, id: string): Bytes {
    if id in m then m[id] else Bytes(0, 0)
  }

  // ---- the report ----

  /** A counter below its last sample has been reset, and counts from zero again. */
  function Delta(now: nat, last: nat): nat {
    if now < last then now else now - last
  }

  function DeltaOf(now: Bytes, last: Bytes): Bytes {
    Bytes(Delta(now.rx, last.rx), Delta(now.tx, last.tx))
  }

  lemma Units(b: Bytes)
    ensures Plus(b, Bytes(0, 0)) == Plus(Bytes(0, 0), b) == DeltaOf(b, Bytes(0, 0)) == b
    ensures AtMost(Bytes(0, 0), b) && AtMost(b, b) && (IsZero(b) ==> b == Bytes(0, 0))
  {
  }

  /** The id by public key; a later row wins. */
  function IndexOf(rows: seq<Peer>): map<string, string> {
    if rows == [] then map[] else IndexOf(rows[..|rows| - 1])[rows[|rows| - 1].wgKey := rows[|rows| - 1].id]
  }

  /** The samples and the report after a sequence of transfers. */
  function Report(last: Samples, index: map<string, string>, transfers: seq<Transfer>): (Samples, seq<PeerUsage>) {
    if transfers == [] then (last, []) else
    var (samples, usage) := Report(last, index, transfers[..|transfers| - 1]);
    var tr := transfers[|transfers| - 1];
    if tr.wgKey !in index then (samples, usage) else
    var id := index[tr.wgKey];
    var delta := DeltaOf(tr.bytes, At(samples, id));
    (samples[id := tr.bytes], if delta == Bytes(0, 0) then usage else usage + [PeerUsage(id, delta, tr.lastHandshake)])
  }

  class GatewayBridge {
    var lastUsage: Samples

    constructor ()
      ensures lastUsage == map[]
    {
      lastUsage := map[];
    }

    /** BuildUsageReport: an unreadable table reports nothing, and unknown keys are skipped. */
    method BuildUsageReport(listed: bool, rows: seq<Peer>, transfers: seq<Transfer>) returns (usage: seq<PeerUsage>)
      modifies this
      ensures !listed ==> lastUsage == old(lastUsage) && usage == []
      ensures listed ==> (lastUsage, usage) == Report(old(lastUsage), IndexOf(rows), transfers)
    {
      usage := [];
      if !listed {
        return;
      }
      var index: map<string, string> := map[];
      for i := 0 to |rows|
        invariant index == IndexOf(rows[..i])
        invariant lastUsage == old(lastUsage)
      {
        assert rows[..i + 1][..i] == rows[..i];
        index := index[rows[i].wgKey := rows[i].id];
      }
      assert rows[..|rows|] == rows;
      for i := 0 to |transfers|
        invariant (lastUsage, usage) == Report(old(lastUsage), index, transfers[..i])
      {
        assert transfers[..i + 1][..i] == transfers[..i];
        var tr := transfers[i];
        if tr.wgKey !in index {
          continue;
        }
        var id := index[tr.wgKey];
        var prev := At(lastUsage, id);
        var dRx := tr.bytes.rx - prev.rx;
        var dTx := tr.bytes.tx - prev.tx;
        if dRx < 0 {
          dRx := tr.bytes.rx;
        }
        if dTx < 0 {
          dTx := tr.bytes.tx;
        }
        lastUsage := lastUsage[id := tr.bytes];
        if dRx == 0 && dTx == 0 {
          continue;
        }
        usage := usage + [PeerUsage(id, Bytes(dRx, dTx), tr.lastHandshake)];
      }
      assert transfers[..|transfers|] == transfers;
    }
  }

  // ---- the report, per peer ----

  /** What a report charges to one peer. */
  function Charged(usage: seq<PeerUsage>, id: string): Bytes {
    if usage == [] then Bytes(0, 0)
    else Plus(Charged(usage[..|usage| - 1], id),
              if usage[|usage| - 1].id == id then usage[|usage| - 1].delta else Bytes(0, 0))
  }

  lemma ChargedNext(usage: seq<PeerUsage>, u: PeerUsage, id: string)
    ensures Charged(usage + [u], id) == Plus(Charged(usage, id), if u.id == id then u.delta else Bytes(0, 0))
  {
    assert (usage + [u])[..|usage|] == usage;
  }

  ghost predicate OneKeyEach(index: map<string, string>) {
    forall k, l :: k in index && l in index && k != l ==> index[k] != index[l]
  }

  ghost predicate DistinctKeys(transfers: seq<Transfer>) {
    forall i, j :: 0 <= i < j < |transfers| ==> transfers[i].wgKey != transfers[j].wgKey
  }

  /** A transfer changes nothing for a peer whose key it does not carry. */
  lemma OtherPeer(last: Samples, index: map<string, string>, transfers: seq<Transfer>, n: nat, id: string)
    requires |transfers| == n + 1 && (transfers[n].wgKey in index ==> index[transfers[n].wgKey] != id)
    ensures At(Report(last, index, transfers).0, id) == At(Report(last, index, transfers[..n]).0, id)
    ensures Charged(Report(last, index, transfers).1, id) == Charged(Report(last, index, transfers[..n]).1, id)
  {
    hide Charged, DeltaOf;
    var tr := transfers[n];
    var (samples, usage) := Report(last, index, transfers[..n]);
    if tr.wgKey in index {
      var other := index[tr.wgKey];
      ChargedNext(usage, PeerUsage(other, DeltaOf(tr.bytes, At(samples, other)), tr.lastHandshake), id);
    }
  }

  /** A peer whose key is not among the transfers is neither sampled nor charged. */
  lemma {:induction false} UnseenPeer(last: Samples, index: map<string, string>, transfers: seq<Transfer>, id: string)
    requires forall i :: 0 <= i < |transfers| && transfers[i].wgKey in index ==> index[transfers[i].wgKey] != id
    ensures At(Report(last, index, transfers).0, id) == At(last, id)
    ensures Charged(Report(last, index, transfers).1, id) == Bytes(0, 0)
  {
    if transfers != [] {
      hide Report;
      var n := |transfers| - 1;
      UnseenPeer(last, index, transfers[..n], id);
      OtherPeer(last, index, transfers, n, id);
    }
  }

  /** A peer whose key is among the transfers is sampled there and charged the delta, once. */
  lemma {:induction false} SeenPeer(last: Samples, index: map<string, string>, transfers: seq<Transfer>, k: nat)
    requires OneKeyEach(index) && DistinctKeys(transfers) && k < |transfers| && transfers[k].wgKey in index
    ensures
      var id := index[transfers[k].wgKey];
      && At(Report(last, index, transfers).0, id) == transfers[k].bytes
      && Charged(Report(last, index, transfers).1, id) == DeltaOf(transfers[k].bytes, At(last, id))
  {
    hide Charged, Plus, DeltaOf;
    var id := index[transfers[k].wgKey];
    var n := |transfers| - 1;
    var init := transfers[..n];
    assert forall i :: 0 <= i < n ==> init[i] == transfers[i];
    if k == n {
      UnseenPeer(last, index, init, id);
      var (samples, usage) := Report(last, index, init);
      var delta := DeltaOf(transfers[n].bytes, At(samples, id));
      ChargedNext(usage, PeerUsage(id, delta, transfers[n].lastHandshake), id);
      Units(delta);
    } else {
      SeenPeer(last, index, init, k);
      OtherPeer(last, index, transfers, n, id);
    }
  }

  /** What moved since the last sample; a counter below it has started again from zero. */
  predicate Moved(d: Bytes, last: Bytes, now: Bytes) {
    && (if now.rx >= last.rx then last.rx + d.rx == now.rx else d.rx == now.rx)
    && (if now.tx >= last.tx then last.tx + d.tx == now.tx else d.tx == now.tx)
  }

  /** The entry reports a transfer of a known key: its peer, what moved, if anything did, and the handshake. */
  predicate Reports(u: PeerUsage, last: Samples, index: map<string, string>, tr: Transfer) {
    && tr.wgKey in index && u.id == index[tr.wgKey] && u.lastHandshake == tr.lastHandshake
    && Moved(u.delta, At(last, u.id), tr.bytes) && (u.delta.rx > 0 || u.delta.tx > 0)
  }

  /** A report has an entry for exactly the transfers of known keys in which something moved. */
  lemma {:induction false} ReportEntries(last: Samples, index: map<string, string>, transfers: seq<Transfer>,
                                         u: PeerUsage)
    requires OneKeyEach(index) && DistinctKeys(transfers)
    ensures u in Report(last, index, transfers).1 <==>
      exists k :: 0 <= k < |transfers| && Reports(u, last, index, transfers[k])
  {
    hide Reports, DeltaOf, At;
    if transfers != [] {
      var n := |transfers| - 1;
      var init, tr := transfers[..n], transfers[n];
      assert forall i :: 0 <= i < n ==> init[i] == transfers[i];
      ReportEntries(last, index, init, u);
      if tr.wgKey in index {
        UnseenPeer(last, index, init, index[tr.wgKey]);
      }
      LastEntry(last, index, tr, u);
    }
  }

  lemma LastEntry(last: Samples, index: map<string, string>, tr: Transfer, u: PeerUsage)
    ensures Reports(u, last, index, tr) <==>
      tr.wgKey in index && var d := DeltaOf(tr.bytes, At(last, index[tr.wgKey]));
                           d != Bytes(0, 0) && u == PeerUsage(index[tr.wgKey], d, tr.lastHandshake)
  {
    hide Moved, DeltaOf, At;
    if tr.wgKey in index {
      MovedIs(u.delta, At(last, index[tr.wgKey]), tr.bytes);
      SomeMoved(u.delta);
    }
  }

  lemma MovedIs(d: Bytes, last: Bytes, now: Bytes)
    ensures Moved(d, last, now) <==> d == DeltaOf(now, last)
  {
    var e := DeltaOf(now, last);
    assert Moved(e, last, now);
    if Moved(d, last, now) {
      assert d.rx == e.rx && d.tx == e.tx;
    }
  }

  lemma SomeMoved(d: Bytes)
    ensures d != Bytes(0, 0) <==> d.rx > 0 || d.tx > 0
  {
    if d.rx == 0 && d.tx == 0 {
      assert d == Bytes(0, 0);
    }
  }

  /** The index built from a listing of a consistent table maps each stored key to its peer, and holds no other key. */
  lemma IndexOfListing(rows: seq<Peer>, t: Table)
    requires Consistent(t) && Lists(rows, t)
    ensures OneKeyEach(IndexOf(rows))
    ensures forall i :: 0 <= i < |rows| ==> rows[i].wgKey in IndexOf(rows) && IndexOf(rows)[rows[i].wgKey] == rows[i].id
    ensures forall k :: k in IndexOf(rows) ==> exists i :: 0 <= i < |rows| && rows[i].wgKey == k
  {
    hide IndexOf, Consistent, Lists;
    ListedKeysDiffer(rows, t);
    IndexMembers(rows, |rows|);
    assert rows[..|rows|] == rows;
    var index := IndexOf(rows);
    forall k, l | k in index && l in index && k != l ensures index[k] != index[l] {
      var i := IndexSource(rows, k);
      var j := IndexSource(rows, l);
      assert i != j;
    }
    forall k | k in index ensures exists i :: 0 <= i < |rows| && rows[i].wgKey == k {
      var i := IndexSource(rows, k);
    }
  }

  lemma ListedKeysDiffer(rows: seq<Peer>, t: Table)
    requires Consistent(t) && Lists(rows, t)
    ensures forall i, j :: 0 <= i < j < |rows| ==> rows[i].wgKey != rows[j].wgKey && rows[i].id != rows[j].id
  {
  }

  /** The row an index entry comes from. */
  lemma {:induction false} IndexSource(rows: seq<Peer>, k: string) returns (i: nat)
    requires k in IndexOf(rows)
    ensures i < |rows| && rows[i].wgKey == k && rows[i].id == IndexOf(rows)[k]
  {
    var n := |rows| - 1;
    if k == rows[n].wgKey {
      i := n;
    } else {
      i := IndexSource(rows[..n], k);
    }
  }

  lemma {:induction false} IndexMembers(rows: seq<Peer>, n: nat)
    requires n <= |rows| && forall i, j :: 0 <= i < j < |rows| ==> rows[i].wgKey != rows[j].wgKey
    ensures forall i :: 0 <= i < n ==>
              rows[i].wgKey in IndexOf(rows[..n]) && IndexOf(rows[..n])[rows[i].wgKey] == rows[i].id
  {
    if n > 0 {
      IndexMembers(rows, n - 1);
      assert rows[..n][..n - 1] == rows[..n - 1];
    }
  }

  /**
   The device prints keys in one canonical text. A row that holds another text of its key is never
   sampled and never charged.
   */
  lemma OtherTextNeverMetered(canon: string -> string, last: Samples, rows: seq<Peer>, t: Table,
                              transfers: seq<Transfer>, i: nat)
    requires Consistent(t) && Lists(rows, t) && i < |rows| && canon(rows[i].wgKey) != rows[i].wgKey
    requires forall j :: 0 <= j < |transfers| ==> canon(transfers[j].wgKey) == transfers[j].wgKey
    ensures At(Report(last, IndexOf(rows), transfers).0, rows[i].id) == At(last, rows[i].id)
    ensures Charged(Report(last, IndexOf(rows), transfers).1, rows[i].id) == Bytes(0, 0)
  {
    hide Consistent, Lists, IndexOf, Report, Charged, At;
    IndexOfListing(rows, t);
    UnseenPeer(last, IndexOf(rows), transfers, rows[i].id);
  }

  // ---- runs ----

  /**
   The table's keys, the device's counters, the bridge's samples and, while a report is being built,
   the keys it has listed so far; with the accounts of one peer:
   bytes moved while it owned its key, counter values it found on a key it was given, bytes
   reported for it, samples given up when its counter was seen below its last sample, and counter
   values that vanished when its counter was reset or dropped or its key taken away.
   */
  datatype World = World(
    owner: map<string, string>, counters: Samples, last: Samples, listed: Option<map<string, string>>,
    moved: Bytes, inherited: Bytes, reported: Bytes, givenUp: Bytes, vanished: Bytes)

  datatype Event =
    | Traffic(key: string, bytes: Bytes)
    | Reset(key: string)
    | Drop(key: string)
    | Bind(key: string, id: string)
    | Delete(id: string)
    | List
    | Sample(transfers: seq<Transfer>)
    | FailedRead

  /** The rows without any of this peer's keys. */
  function Without(owner: map<string, string>, id: string): map<string, string> {
    map k | k in owner && owner[k] != id :: owner[k]
  }

  /** The transfers read are the device's counters, each key once. */
  ghost predicate Reads(transfers: seq<Transfer>, counters: Samples) {
    && DistinctKeys(transfers)
    && (forall i :: 0 <= i < |transfers| ==>
          transfers[i].wgKey in counters && transfers[i].bytes == counters[transfers[i].wgKey])
    && (forall k :: k in counters ==> exists i :: 0 <= i < |transfers| && transfers[i].wgKey == k)
  }

  /** The samples a report abandons: the previous one, per direction, where the counter fell below it. */
  function Abandoned(now: Bytes, last: Bytes): Bytes {
    Bytes(if now.rx < last.rx then last.rx else 0, if now.tx < last.tx then last.tx else 0)
  }

  /** A peer owns key k, and the device counts it. */
  ghost predicate Owns(w: World, id: string, k: string) {
    k in w.owner && w.owner[k] == id && k in w.counters
  }

  /** What the device counts for a peer under key k. */
  ghost function Counter(w: World, id: string, k: string): Bytes {
    if Owns(w, id, k) then w.counters[k] else Bytes(0, 0)
  }

  /** What the device counts for a peer. */
  ghost function Current(w: World, id: string): Bytes {
    if exists k :: Owns(w, id, k) then
      var k :| Owns(w, id, k);
      w.counters[k]
    else Bytes(0, 0)
  }

  /** The report being built has listed key k for a peer, and the device counts it. */
  ghost predicate Listed(w: World, id: string, k: string) {
    w.listed.Some? && k in w.listed.value && w.listed.value[k] == id && k in w.counters
  }

  /** A key listed for the peer is no longer its own. */
  ghost predicate Stale(w: World, id: string) {
    exists k :: Listed(w, id, k) && !Owns(w, id, k)
  }

  /** One event, with the accounts of peer me. A report lists the rows first and reads the counters later. */
  ghost function Next(w: World, e: Event, me: string): World {
    match e
    case Traffic(k, b) =>
      if k !in w.counters then w
      else w.(counters := w.counters[k := Plus(w.counters[k], b)],
              moved := if k in w.owner && w.owner[k] == me then Plus(w.moved, b) else w.moved)
    case Reset(k) => w.(counters := w.counters[k := Bytes(0, 0)], vanished := Plus(w.vanished, Counter(w, me, k)))
    case Drop(k) => w.(counters := w.counters - {k}, vanished := Plus(w.vanished, Counter(w, me, k)))
    case Bind(k, id) =>
      if k in w.owner then w
      else if id != me then w.(owner := Without(w.owner, id)[k := id])
      else w.(owner := Without(w.owner, me)[k := me], inherited := Plus(w.inherited, At(w.counters, k)),
              vanished := Plus(w.vanished, Current(w, me)))
    case Delete(id) =>
      w.(owner := Without(w.owner, id), vanished := if id == me then Plus(w.vanished, Current(w, me)) else w.vanished)
    case List => w.(listed := Some(w.owner))
    case FailedRead => w.(listed := None)
    case Sample(transfers) =>
      if w.listed.None? || !Reads(transfers, w.counters) then w else
      var (samples, usage) := Report(w.last, w.listed.value, transfers);
      w.(last := samples, listed := None, reported := Plus(w.reported, Charged(usage, me)),
         givenUp := Plus(w.givenUp, Abandoned(At(samples, me), At(w.last, me))))
  }

  ghost function Run(w: World, events: seq<Event>, me: string): World {
    if events == [] then w else Next(Run(w, events[..|events| - 1], me), events[|events| - 1], me)
  }

  /** The reports, with any delta still to come, stay within what was moved plus what was inherited. */
  ghost predicate Covered(w: World, me: string) {
    && AtMost(w.reported, Plus(w.moved, w.inherited))
    && forall k :: Owns(w, me, k) ==>
         AtMost(Plus(w.reported, DeltaOf(w.counters[k], At(w.last, me))), Plus(w.moved, w.inherited))
  }

  /** Reports telescope: they add up to the last sample plus all samples given up. */
  ghost predicate Telescopes(w: World, me: string) {
    w.reported == Plus(At(w.last, me), w.givenUp)
  }

  /** Everything moved or inherited is in the current counter or has vanished. */
  ghost predicate Conserved(w: World, me: string) {
    Plus(w.moved, w.inherited) == Plus(Current(w, me), w.vanished)
  }

  ghost predicate Inv(w: World, me: string) {
    && OneKeyEach(w.owner) && (w.listed.Some? ==> OneKeyEach(w.listed.value))
    && Telescopes(w, me) && Conserved(w, me)
  }

  /** Before anything happened: no samples, and the peer answers for the counter it starts with. */
  ghost predicate Initial(w: World, me: string) {
    && OneKeyEach(w.owner) && w.last == map[] && w.listed == None
    && w.moved == w.reported == w.givenUp == w.vanished == Bytes(0, 0)
    && w.inherited == Current(w, me)
  }

  lemma CurrentIs(w: World, id: string, k: string)
    requires OneKeyEach(w.owner) && Owns(w, id, k)
    ensures Current(w, id) == w.counters[k]
  {
  }

  lemma NextKeeps(w: World, e: Event, me: string)
    requires Inv(w, me)
    ensures Inv(Next(w, e, me), me)
    ensures Covered(w, me) && !(e.Sample? && Stale(w, me)) ==> Covered(Next(w, e, me), me)
  {
    match e
    case Traffic(k, b) => TrafficKeeps(w, k, b, me);
    case Reset(k) => WipeKeeps(w, e, k, me);
    case Drop(k) => WipeKeeps(w, e, k, me);
    case Bind(k, id) => BindKeeps(w, k, id, me);
    case Delete(id) => DeleteKeeps(w, id, me);
    case Sample(transfers) => SampleKeeps(w, transfers, me);
    case List => SameCurrent(w, Next(w, List, me), me);
    case FailedRead => SameCurrent(w, Next(w, FailedRead, me), me);
  }

  /** Where me's counter did not change, neither did what the device counts for it. */
  lemma SameCurrent(w: World, w': World, me: string)
    requires OneKeyEach(w.owner) && OneKeyEach(w'.owner)
    requires forall k :: Owns(w, me, k) <==> Owns(w', me, k)
    requires forall k :: Owns(w, me, k) && Owns(w', me, k) ==> w'.counters[k] == w.counters[k]
    ensures Current(w', me) == Current(w, me)
  {
    hide OneKeyEach;
    if k :| Owns(w, me, k) {
      CurrentIs(w, me, k);
      CurrentIs(w', me, k);
    }
  }

  lemma TrafficKeeps(w: World, k: string, b: Bytes, me: string)
    requires Inv(w, me)
    ensures Inv(Next(w, Traffic(k, b), me), me)
    ensures Covered(w, me) ==> Covered(Next(w, Traffic(k, b), me), me)
  {
    hide OneKeyEach, Current;
    var w' := Next(w, Traffic(k, b), me);
    if Owns(w, me, k) {
      OwnedOnce(w, me, k);
      CurrentIs(w, me, k);
      CurrentIs(w', me, k);
      assert forall l :: Owns(w', me, l) ==> Owns(w, me, l);
    } else {
      SameCurrent(w, w', me);
    }
  }

  lemma WipeKeeps(w: World, e: Event, k: string, me: string)
    requires Inv(w, me) && (e == Reset(k) || e == Drop(k))
    ensures Inv(Next(w, e, me), me)
    ensures Covered(w, me) ==> Covered(Next(w, e, me), me)
  {
    hide OneKeyEach, Current;
    var w' := Next(w, e, me);
    if Owns(w, me, k) {
      OwnedOnce(w, me, k);
      CurrentIs(w, me, k);
      assert forall l :: Owns(w', me, l) ==> Owns(w, me, l);
    }
    if Owns(w', me, k) {
      CurrentIs(w', me, k);
      OwnedOnce(w', me, k);
      if !Owns(w, me, k) {
        NoneOwned(w, w', me, k);
      }
    } else if Owns(w, me, k) {
      NothingCounted(w', me);
    } else {
      SameCurrent(w, w', me);
    }
  }

  lemma NothingCounted(w: World, me: string)
    requires forall k :: !Owns(w, me, k)
    ensures Current(w, me) == Bytes(0, 0)
  {
  }

  lemma NoneOwned(w: World, w': World, me: string, k: string)
    requires OneKeyEach(w.owner) && w'.owner == w.owner && Owns(w', me, k) && !Owns(w, me, k)
    ensures (forall l :: !Owns(w, me, l)) && Current(w, me) == Bytes(0, 0)
  {
  }

  lemma DeleteKeeps(w: World, id: string, me: string)
    requires Inv(w, me)
    ensures Inv(Next(w, Delete(id), me), me)
    ensures Covered(w, me) ==> Covered(Next(w, Delete(id), me), me)
  {
    hide Current;
    var w' := Next(w, Delete(id), me);
    if id == me {
      NothingCounted(w', me);
    } else {
      SameCurrent(w, w', me);
    }
  }

  lemma BindKeeps(w: World, k: string, id: string, me: string)
    requires Inv(w, me)
    ensures Inv(Next(w, Bind(k, id), me), me)
    ensures Covered(w, me) ==> Covered(Next(w, Bind(k, id), me), me)
  {
    hide Current;
    var w' := Next(w, Bind(k, id), me);
    if k !in w.owner {
      if Covered(w, me) {
        forall l | Owns(w', me, l)
          ensures AtMost(Plus(w'.reported, DeltaOf(w'.counters[l], At(w'.last, me))), Plus(w'.moved, w'.inherited))
        {
          assert l != k ==> Owns(w, me, l);
        }
      }
      if id != me {
        SameCurrent(w, w', me);
      } else if k in w.counters {
        CurrentIs(w', me, k);
      } else {
        NothingCounted(w', me);
      }
    }
  }

  lemma SampleKeeps(w: World, transfers: seq<Transfer>, me: string)
    requires Inv(w, me)
    ensures Inv(Next(w, Sample(transfers), me), me)
    ensures Covered(w, me) && !Stale(w, me) ==> Covered(Next(w, Sample(transfers), me), me)
  {
    hide Report, Charged, OneKeyEach, Current;
    if w.listed.Some? && Reads(transfers, w.counters) {
      var w' := Next(w, Sample(transfers), me);
      SameCurrent(w, w', me);
      if k :| Listed(w, me, k) {
        var i :| 0 <= i < |transfers| && transfers[i].wgKey == k;
        SeenPeer(w.last, w.listed.value, transfers, i);
        assert At(w'.last, me) == w.counters[k];
        assert w'.reported == Plus(w.reported, DeltaOf(w.counters[k], At(w.last, me)));
        if Covered(w, me) && !Stale(w, me) {
          assert Owns(w, me, k);
          OwnedOnce(w, me, k);
          assert forall l :: Owns(w', me, l) ==> Owns(w, me, l);
        }
      } else {
        UnlistedUnseen(w, transfers, me);
        UnseenPeer(w.last, w.listed.value, transfers, me);
        assert forall l :: Owns(w', me, l) ==> Owns(w, me, l);
      }
    }
  }

  lemma OwnedOnce(w: World, id: string, k: string)
    requires OneKeyEach(w.owner) && Owns(w, id, k)
    ensures forall l :: Owns(w, id, l) ==> l == k
  {
  }

  lemma UnlistedUnseen(w: World, transfers: seq<Transfer>, id: string)
    requires w.listed.Some? && Reads(transfers, w.counters) && forall k :: !Listed(w, id, k)
    ensures
      var index := w.listed.value;
      forall i :: 0 <= i < |transfers| && transfers[i].wgKey in index ==> index[transfers[i].wgKey] != id
  {
    var index := w.listed.value;
    forall i | 0 <= i < |transfers| && transfers[i].wgKey in index ensures index[transfers[i].wgKey] != id {
      assert !Listed(w, id, transfers[i].wgKey);
    }
  }

  /** No traffic, no sample and no report yet. */
  ghost function Unused(owner: map<string, string>, counters: Samples, inherited: Bytes): World {
    World(owner, counters, map[], None, Bytes(0, 0), inherited, Bytes(0, 0), Bytes(0, 0), Bytes(0, 0))
  }

  lemma InitialInv(w: World, me: string)
    requires Initial(w, me)
    ensures Inv(w, me) && Covered(w, me)
  {
    hide OneKeyEach, Current, At, Plus, DeltaOf, AtMost;
    Units(w.inherited);
    Units(Bytes(0, 0));
    NeverSampled(me);
    forall k | Owns(w, me, k) ensures w.counters[k] == w.inherited {
      CurrentIs(w, me, k);
    }
  }

  lemma NeverSampled(id: string)
    ensures At(map[], id) == Bytes(0, 0)
  {
  }

  lemma {:induction false} RunKeeps(w: World, events: seq<Event>, me: string)
    requires Initial(w, me)
    ensures Inv(Run(w, events, me), me)
  {
    hide Inv, Next, Initial;
    if events == [] {
      InitialInv(w, me);
    } else {
      RunKeeps(w, events[..|events| - 1], me);
      NextKeeps(Run(w, events[..|events| - 1], me), events[|events| - 1], me);
    }
  }

  /** Whenever counters are read, no key listed for the peer has changed hands since. */
  ghost predicate NoStaleRead(w: World, events: seq<Event>, me: string) {
    forall i :: 0 <= i < |events| && events[i].Sample? ==> !Stale(Run(w, events[..i], me), me)
  }

  lemma {:induction false} RunCovered(w: World, events: seq<Event>, me: string)
    requires Initial(w, me) && NoStaleRead(w, events, me)
    ensures Covered(Run(w, events, me), me)
  {
    hide Inv, Next, Initial, Stale, Covered, Run;
    if events == [] {
      NoEvents(w, me);
      InitialInv(w, me);
    } else {
      var n := |events| - 1;
      var init := events[..n];
      forall i | 0 <= i < n && init[i].Sample? ensures !Stale(Run(w, init[..i], me), me) {
        assert init[..i] == events[..i] && init[i] == events[i];
      }
      RunCovered(w, init, me);
      RunKeeps(w, init, me);
      LastEvent(w, events, me);
      NextKeeps(Run(w, init, me), events[n], me);
    }
  }

  // ---- theorems ----

  /**
   Over every run in which no key listed for the peer has changed hands when the counters are read,
   the deltas reported for it add up to at most the bytes it moved plus the counter values it found
   on the keys it was given, its starting counter included.
   */
  lemma NeverOverReported(w: World, events: seq<Event>, me: string)
    requires Initial(w, me) && NoStaleRead(w, events, me)
    ensures
      var end := Run(w, events, me);
      AtMost(end.reported, Plus(end.moved, end.inherited))
  {
    hide OneKeyEach, Initial, Run, Owns, NoStaleRead;
    RunCovered(w, events, me);
  }

  /** After some traffic on a key, the report being built keeps within what was moved and inherited. */
  ghost predicate Keeps(w: World, me: string, k: string, b: Bytes, transfers: seq<Transfer>) {
    var w1 := Next(w, Traffic(k, b), me);
    Reads(transfers, w1.counters) ==>
      var w2 := Next(w1, Sample(transfers), me);
      AtMost(w2.reported, Plus(w2.moved, w2.inherited))
  }

  /**
   In every state the bound has held so far, the report being built keeps it whatever traffic comes
   before the counters are read, if and only if no key listed for the peer has changed hands.
   */
  lemma ReadKeepsBoundIff(w: World, me: string)
    requires Inv(w, me) && Covered(w, me)
    ensures (forall k, b, transfers :: Keeps(w, me, k, b, transfers)) <==> !Stale(w, me)
  {
    hide Inv, Covered, Keeps;
    if Stale(w, me) {
      var k :| Listed(w, me, k) && !Owns(w, me, k);
      StaleReadBreaks(w, me, k);
    } else {
      forall k, b, transfers ensures Keeps(w, me, k, b, transfers) {
        FreshReadKeeps(w, me, k, b, transfers);
      }
    }
  }

  lemma FreshReadKeeps(w: World, me: string, k: string, b: Bytes, transfers: seq<Transfer>)
    requires Inv(w, me) && Covered(w, me) && !Stale(w, me)
    ensures Keeps(w, me, k, b, transfers)
  {
    hide Inv;
    NextKeeps(w, Traffic(k, b), me);
    var w1 := Next(w, Traffic(k, b), me);
    assert forall l :: Listed(w1, me, l) ==> Listed(w, me, l);
    assert forall l :: Owns(w, me, l) ==> Owns(w1, me, l);
    NextKeeps(w1, Sample(transfers), me);
  }

  lemma StaleReadBreaks(w: World, me: string, k: string)
    requires Inv(w, me) && Listed(w, me, k) && !Owns(w, me, k)
    ensures exists b, transfers :: !Keeps(w, me, k, b, transfers)
  {
    hide Report, Charged, Current, Reads, OneKeyEach, Conserved;
    var owed := Plus(w.moved, w.inherited);
    var b := Bytes(owed.rx + At(w.last, me).rx + 1, 0);
    var w1 := Next(w, Traffic(k, b), me);
    var transfers := Listing(w1.counters);
    var i := ListingHas(transfers, w1.counters, k);
    SeenPeer(w1.last, w1.listed.value, transfers, i);
    var w2 := Next(w1, Sample(transfers), me);
    assert w2.reported.rx >= DeltaOf(w1.counters[k], At(w.last, me)).rx > owed.rx;
    assert !Keeps(w, me, k, b, transfers);
  }

  /** Counters can be read. */
  lemma {:induction false} Listing(counters: Samples) returns (transfers: seq<Transfer>)
    ensures Reads(transfers, counters)
    decreases |counters|
  {
    if counters == map[] {
      transfers := [];
    } else {
      var k :| k in counters;
      var rest := counters - {k};
      var fewer := Listing(rest);
      transfers := fewer + [Transfer(k, counters[k], 0)];
      ReadsMore(fewer, counters, k);
    }
  }

  lemma ReadsMore(fewer: seq<Transfer>, counters: Samples, k: string)
    requires k in counters && Reads(fewer, counters - {k})
    ensures Reads(fewer + [Transfer(k, counters[k], 0)], counters)
  {
    var transfers := fewer + [Transfer(k, counters[k], 0)];
    assert forall i :: 0 <= i < |fewer| ==> transfers[i] == fewer[i];
    assert transfers[|fewer|].wgKey == k;
    forall l | l in counters ensures exists i :: 0 <= i < |transfers| && transfers[i].wgKey == l {
      if l != k {
        assert l in counters - {k};
        var i :| 0 <= i < |fewer| && fewer[i].wgKey == l;
        assert transfers[i].wgKey == l;
      }
    }
  }

  lemma ListingHas(transfers: seq<Transfer>, counters: Samples, k: string) returns (i: nat)
    requires Reads(transfers, counters) && k in counters
    ensures DistinctKeys(transfers) && i < |transfers| && transfers[i].wgKey == k && transfers[i].bytes == counters[k]
  {
    i :| 0 <= i < |transfers| && transfers[i].wgKey == k;
  }

  /** Hence, if every further key it is given starts at zero, it is charged at most its starting counter more. */
  lemma FreshKeysNeverOverReport(w: World, events: seq<Event>, me: string)
    requires Initial(w, me) && NoStaleRead(w, events, me)
    requires forall i :: 0 <= i < |events| && events[i].Bind? && events[i].id == me ==>
               At(Run(w, events[..i], me).counters, events[i].key) == Bytes(0, 0)
    ensures AtMost(Run(w, events, me).reported, Plus(Run(w, events, me).moved, w.inherited))
  {
    hide Run, Initial, NoStaleRead;
    NeverOverReported(w, events, me);
    NothingInherited(w, events, me);
  }

  lemma {:induction false} NothingInherited(w: World, events: seq<Event>, me: string)
    requires forall i :: 0 <= i < |events| && events[i].Bind? && events[i].id == me ==>
               At(Run(w, events[..i], me).counters, events[i].key) == Bytes(0, 0)
    ensures Run(w, events, me).inherited == w.inherited
  {
    hide Report, Charged, Reads, Current;
    if events != [] {
      var n := |events| - 1;
      var init := events[..n];
      forall i | 0 <= i < n && init[i].Bind? && init[i].id == me
        ensures At(Run(w, init[..i], me).counters, init[i].key) == Bytes(0, 0)
      {
        assert init[..i] == events[..i] && init[i] == events[i];
      }
      NothingInherited(w, init, me);
    }
  }

  /**
   The two balances of a peer, exact in every run. What it moved and inherited is in its current
   counter or vanished with an earlier one; what was reported for it is its last sample and the
   samples given up. So the bytes not reported are those of the current counter and of the vanished
   ones that no sample covers.
   */
  lemma Balance(w: World, events: seq<Event>, me: string)
    requires Initial(w, me)
    ensures
      var end := Run(w, events, me);
      && Plus(end.moved, end.inherited) == Plus(Current(end, me), end.vanished)
      && end.reported == Plus(At(end.last, me), end.givenUp)
  {
    hide OneKeyEach, Initial, Run, Owns, Current;
    RunKeeps(w, events, me);
  }

  /** The last sample of peer me before event i. */
  ghost function SampleBefore(w: World, events: seq<Event>, me: string, i: nat): Bytes
    requires i <= |events|
  {
    At(Run(w, events[..i], me).last, me)
  }

  /** No event made the peer's last sample smaller, in either direction. */
  ghost predicate NeverFalls(w: World, events: seq<Event>, me: string) {
    forall i :: 0 <= i < |events| ==> AtMost(SampleBefore(w, events, me, i), SampleBefore(w, events, me, i + 1))
  }

  lemma {:induction false} GivenUpIff(w: World, events: seq<Event>, me: string)
    requires IsZero(w.givenUp)
    ensures IsZero(Run(w, events, me).givenUp) <==> NeverFalls(w, events, me)
  {
    hide Next, Run, Report, Charged;
    var n := |events| - 1;
    if events == [] {
      NoEvents(w, me);
    } else {
      var init := events[..n];
      GivenUpIff(w, init, me);
      LastEvent(w, events, me);
      assert init[..n] == init && events[..n + 1] == events;
      forall i | 0 <= i <= n ensures SampleBefore(w, init, me, i) == SampleBefore(w, events, me, i) {
        assert init[..i] == events[..i];
      }
      assert NeverFalls(w, events, me) <==>
        NeverFalls(w, init, me) && AtMost(SampleBefore(w, events, me, n), SampleBefore(w, events, me, n + 1)) by {
        assert NeverFalls(w, events, me) ==> forall i :: 0 <= i < n ==>
          AtMost(SampleBefore(w, events, me, i), SampleBefore(w, events, me, i + 1));
      }
      GivenUpStep(Run(w, init, me), events[n], me);
    }
  }

  lemma NoEvents(w: World, me: string)
    ensures Run(w, [], me) == w
  {
  }

  lemma LastEvent(w: World, events: seq<Event>, me: string)
    requires events != []
    ensures Run(w, events, me) == Next(Run(w, events[..|events| - 1], me), events[|events| - 1], me)
  {
    hide Next;
  }

  lemma GivenUpStep(w: World, e: Event, me: string)
    ensures
      var w' := Next(w, e, me);
      IsZero(w'.givenUp) <==> IsZero(w.givenUp) && AtMost(At(w.last, me), At(w'.last, me))
  {
    hide Report, Charged, Current, Reads, At, Plus, Abandoned, AtMost, IsZero, Without, Counter;
    AtMostSelf(At(w.last, me));
    if e.Sample? && w.listed.Some? && Reads(e.transfers, w.counters) {
      AbandonedZero(w.givenUp, At(Next(w, e, me).last, me), At(w.last, me));
    }
  }

  lemma AtMostSelf(a: Bytes)
    ensures AtMost(a, a)
  {
  }

  lemma AbandonedZero(sum: Bytes, now: Bytes, last: Bytes)
    ensures IsZero(Plus(sum, Abandoned(now, last))) <==> IsZero(sum) && AtMost(last, now)
  {
    if AtMost(last, now) {
      assert IsZero(Abandoned(now, last));
    } else if now.rx < last.rx {
      assert Abandoned(now, last).rx > 0;
    } else {
      assert Abandoned(now, last).tx > 0;
    }
  }

  /** What was reported for a peer equals its last sample if and only if no sample was below the one before. */
  lemma ReportsTelescope(w: World, events: seq<Event>, me: string)
    requires Initial(w, me)
    ensures
      var end := Run(w, events, me);
      end.reported == At(end.last, me) <==> NeverFalls(w, events, me)
  {
    hide Run, NeverFalls, Current, OneKeyEach;
    Balance(w, events, me);
    GivenUpIff(w, events, me);
  }

  /** No counter of the peer is reset or dropped, it is given no further key, and no read is stale. */
  ghost predicate Undisturbed(w: World, events: seq<Event>, me: string) {
    forall i :: 0 <= i < |events| ==> !Disturbs(Run(w, events[..i], me), events[i], me)
  }

  /** The event resets or drops a counter of the peer's key, gives it a key, or reads for a stale listing. */
  ghost predicate Disturbs(w: World, e: Event, me: string) {
    || ((e.Reset? || e.Drop?) && e.key in w.owner && w.owner[e.key] == me)
    || (e.Bind? && e.id == me)
    || (e.Sample? && Stale(w, me))
  }

  /** No sample was given up so far, and the counter is not behind its last sample. */
  ghost predicate Steady(w: World, me: string) {
    && IsZero(w.givenUp)
    && forall k :: Owns(w, me, k) ==> AtMost(At(w.last, me), w.counters[k])
  }

  lemma SteadyStep(w: World, e: Event, me: string)
    requires OneKeyEach(w.owner) && (w.listed.Some? ==> OneKeyEach(w.listed.value))
    requires Steady(w, me) && !Disturbs(w, e, me)
    ensures Steady(Next(w, e, me), me)
    ensures !(e.Delete? && e.id == me) && IsZero(w.vanished) ==> IsZero(Next(w, e, me).vanished)
  {
    hide Report, Charged, OneKeyEach, Current, At, Plus, AtMost, IsZero, Abandoned;
    if e.Sample? {
      SteadySample(w, e.transfers, me);
    } else {
      var w' := Next(w, e, me);
      Units(w.vanished);
      forall k | Owns(w', me, k) ensures AtMost(At(w'.last, me), w'.counters[k]) {
        assert Owns(w, me, k);
        if e.Traffic? {
          MoreIsMore(At(w.last, me), w.counters[k], e.bytes);
        }
      }
    }
  }

  lemma MoreIsMore(a: Bytes, b: Bytes, c: Bytes)
    requires AtMost(a, b)
    ensures AtMost(a, Plus(b, c))
  {
  }

  lemma SteadySample(w: World, transfers: seq<Transfer>, me: string)
    requires OneKeyEach(w.owner) && (w.listed.Some? ==> OneKeyEach(w.listed.value))
    requires Steady(w, me) && !Stale(w, me)
    ensures Steady(Next(w, Sample(transfers), me), me) && Next(w, Sample(transfers), me).vanished == w.vanished
  {
    hide Report, Charged, OneKeyEach, At, Plus, AtMost, IsZero, Abandoned, DeltaOf, Current;
    if w.listed.Some? && Reads(transfers, w.counters) {
      var w' := Next(w, Sample(transfers), me);
      AbandonedZero(w.givenUp, At(w'.last, me), At(w.last, me));
      AtMostSelf(At(w.last, me));
      if k :| Listed(w, me, k) {
        assert Owns(w, me, k);
        var i :| 0 <= i < |transfers| && transfers[i].wgKey == k;
        SeenPeer(w.last, w.listed.value, transfers, i);
        OwnedOnce(w', me, k);
        AtMostSelf(w.counters[k]);
      } else {
        UnlistedUnseen(w, transfers, me);
        UnseenPeer(w.last, w.listed.value, transfers, me);
        assert forall k :: Owns(w', me, k) ==> Owns(w, me, k);
      }
    }
  }

  lemma InitialSteady(w: World, me: string)
    requires Initial(w, me)
    ensures Steady(w, me) && IsZero(w.vanished)
  {
    hide OneKeyEach, Current, At, AtMost;
    NeverSampled(me);
    forall k | Owns(w, me, k) ensures AtMost(At(w.last, me), w.counters[k]) {
      Units(w.counters[k]);
    }
  }

  lemma {:induction false} SteadyRun(w: World, events: seq<Event>, me: string)
    requires Initial(w, me) && Undisturbed(w, events, me)
    ensures Steady(Run(w, events, me), me)
    ensures Delete(me) !in events ==> IsZero(Run(w, events, me).vanished)
  {
    hide Next, Run, Disturbs, Current, At, AtMost, OneKeyEach, Steady;
    if events == [] {
      NoEvents(w, me);
      InitialSteady(w, me);
    } else {
      var n := |events| - 1;
      var init := events[..n];
      forall i | 0 <= i < n ensures !Disturbs(Run(w, init[..i], me), init[i], me) {
        assert init[..i] == events[..i] && init[i] == events[i];
      }
      SteadyRun(w, init, me);
      RunKeeps(w, init, me);
      LastEvent(w, events, me);
      assert !Disturbs(Run(w, events[..n], me), events[n], me);
      assert events[n] in events && forall e :: e in init ==> e in events;
      SteadyStep(Run(w, init, me), events[n], me);
    }
  }

  /** Without a reset, a drop or a further key, what was reported is exactly the last sampled counter. */
  lemma ReportedIsLastSample(w: World, events: seq<Event>, me: string)
    requires Initial(w, me) && Undisturbed(w, events, me)
    ensures
      var end := Run(w, events, me);
      end.reported == At(end.last, me)
  {
    hide Run, Undisturbed, Current, Owns, OneKeyEach, At, Plus, AtMost, IsZero;
    SteadyRun(w, events, me);
    Balance(w, events, me);
    var end := Run(w, events, me);
    Units(end.givenUp);
    Units(At(end.last, me));
  }

  /**
   If moreover the peer still exists and the run ends with a report, everything it moved, with the
   counter it started with, has been reported.
   */
  lemma EverythingIsReported(w: World, events: seq<Event>, transfers: seq<Transfer>, me: string)
    requires Initial(w, me) && Undisturbed(w, events, me) && Delete(me) !in events
    requires Reads(transfers, Run(w, events, me).counters) && exists k :: Owns(Run(w, events, me), me, k)
    ensures
      var end := Next(Next(Run(w, events, me), List, me), Sample(transfers), me);
      end.reported == Plus(end.moved, end.inherited)
  {
    hide Run, Undisturbed, Current, OneKeyEach, Report, Charged, Initial, At, Plus, AtMost, IsZero, Abandoned, DeltaOf;
    SteadyRun(w, events, me);
    RunKeeps(w, events, me);
    var k :| Owns(Run(w, events, me), me, k);
    var now := Next(Run(w, events, me), List, me);
    NextKeeps(Run(w, events, me), List, me);
    assert Owns(now, me, k);
    CurrentIs(now, me, k);
    var i :| 0 <= i < |transfers| && transfers[i].wgKey == k;
    SeenPeer(now.last, now.owner, transfers, i);
    SteadySample(now, transfers, me);
    NextKeeps(now, Sample(transfers), me);
    var end := Next(now, Sample(transfers), me);
    Units(end.givenUp);
    Units(At(end.last, me));
    Units(now.vanished);
    Units(now.counters[k]);
  }

  /** A key handed to another peer without restarting its counter charges the new peer for the old one's bytes. */
  lemma InheritedCounterIsCharged(k: string, other: string, me: string, n: Bytes)
    requires other != me && n != Bytes(0, 0)
    ensures
      var w := Unused(map[k := other], map[k := Bytes(0, 0)], Bytes(0, 0));
      var end := Run(w, [Traffic(k, n), Delete(other), Bind(k, me), List, Sample([Transfer(k, n, 0)])], me);
      Initial(w, me) && end.moved == Bytes(0, 0) && end.reported == n
  {
    hide Report, Charged, Run, Current, Plus, At;
    Units(n);
    Units(Bytes(0, 0));
    FoundOnKey(k, n);
    var w := Unused(map[k := other], map[k := Bytes(0, 0)], Bytes(0, 0));
    NothingCounted(w, me);
    var w1 := Next(w, Traffic(k, n), me);
    assert w1 == Unused(map[k := other], map[k := n], Bytes(0, 0));
    var w2 := Next(w1, Delete(other), me);
    assert Without(w1.owner, other) == map[];
    assert w2 == Unused(map[], map[k := n], Bytes(0, 0));
    NothingCounted(w2, me);
    var w3 := Next(w2, Bind(k, me), me);
    assert Without(w2.owner, me) == map[];
    assert w3 == Unused(map[k := me], map[k := n], n);
    var sample := Sample([Transfer(k, n, 0)]);
    var three := [Traffic(k, n), Delete(other), Bind(k, me)];
    ThreeSteps(w, Traffic(k, n), Delete(other), Bind(k, me), me);
    StepsBefore(w, three, List, me);
    StepsBefore(w, three + [List], sample, me);
    assert three + [List] + [sample] == [Traffic(k, n), Delete(other), Bind(k, me), List, sample];
    FirstSample(w3.(listed := Some(map[k := me])), k, me, n);
  }

  /**
   A key that is deleted, restarted and given to another peer while a report has listed it for its
   former owner charges the former owner for the new one's bytes.
   */
  lemma StaleListingIsCharged(k: string, other: string, me: string, n: Bytes)
    requires other != me && n != Bytes(0, 0)
    ensures
      var w := Unused(map[k := me], map[k := Bytes(0, 0)], Bytes(0, 0));
      var end := Run(w, [List, Delete(me), Reset(k), Bind(k, other), Traffic(k, n), Sample([Transfer(k, n, 0)])], me);
      Initial(w, me) && end.moved == end.inherited == Bytes(0, 0) && end.reported == n
  {
    hide Report, Charged, Run, Current, Plus, At;
    Units(n);
    Units(Bytes(0, 0));
    var w := Unused(map[k := me], map[k := Bytes(0, 0)], Bytes(0, 0));
    assert Owns(w, me, k);
    CurrentIs(w, me, k);
    var index := Some(map[k := me]);
    var w1 := Next(w, List, me);
    assert w1 == w.(listed := index);
    CurrentIs(w1, me, k);
    var w2 := Next(w1, Delete(me), me);
    assert Without(w1.owner, me) == map[];
    assert w2 == w1.(owner := map[]);
    var w3 := Next(w2, Reset(k), me);
    assert w3 == w2;
    var w4 := Next(w3, Bind(k, other), me);
    assert Without(w3.owner, other) == map[];
    assert w4 == w3.(owner := map[k := other]);
    var w5 := Next(w4, Traffic(k, n), me);
    assert w5 == w4.(counters := map[k := n]);
    var sample := Sample([Transfer(k, n, 0)]);
    var three := [List, Delete(me), Reset(k)];
    ThreeSteps(w, List, Delete(me), Reset(k), me);
    StepsBefore(w, three, Bind(k, other), me);
    StepsBefore(w, three + [Bind(k, other)], Traffic(k, n), me);
    StepsBefore(w, three + [Bind(k, other)] + [Traffic(k, n)], sample, me);
    assert three + [Bind(k, other)] + [Traffic(k, n)] + [sample]
        == [List, Delete(me), Reset(k), Bind(k, other), Traffic(k, n), sample];
    FirstSample(w5, k, me, n);
  }

  lemma FoundOnKey(k: string, n: Bytes)
    ensures At(map[k := n], k) == n
  {
  }

  lemma SingletonReads(k: string, me: string, n: Bytes)
    ensures Reads([Transfer(k, n, 0)], map[k := n]) && OneKeyEach(map[k := me])
  {
    assert [Transfer(k, n, 0)][0].wgKey == k;
  }

  lemma SampleStep(w: World, transfers: seq<Transfer>, me: string)
    requires w.listed.Some? && Reads(transfers, w.counters)
    ensures
      var w' := Next(w, Sample(transfers), me);
      && w'.reported == Plus(w.reported, Charged(Report(w.last, w.listed.value, transfers).1, me))
      && w'.moved == w.moved && w'.inherited == w.inherited
  {
  }

  lemma FirstDelta(id: string, n: Bytes)
    ensures Plus(Bytes(0, 0), DeltaOf(n, At(map[], id))) == n
  {
  }

  lemma FirstSample(w: World, k: string, me: string, n: Bytes)
    requires w.listed == Some(map[k := me]) && w.counters == map[k := n] && w.last == map[]
    requires w.reported == w.moved == Bytes(0, 0)
    ensures
      var w' := Next(w, Sample([Transfer(k, n, 0)]), me);
      w'.reported == n && w'.moved == Bytes(0, 0) && w'.inherited == w.inherited
  {
    hide Report, Charged, Reads, OneKeyEach, Next, At, DeltaOf, Plus;
    var transfers := [Transfer(k, n, 0)];
    SingletonReads(k, me, n);
    SampleStep(w, transfers, me);
    SeenPeer(map[], map[k := me], transfers, 0);
    FirstDelta(me, n);
    assert transfers[0].wgKey == k && transfers[0].bytes == n;
  }

  lemma StepsBefore(w: World, events: seq<Event>, e: Event, me: string)
    ensures Run(w, events + [e], me) == Next(Run(w, events, me), e, me)
  {
    hide Next;
    assert (events + [e])[..|events|] == events;
  }

  lemma ThreeSteps(w: World, a: Event, b: Event, c: Event, me: string)
    ensures Run(w, [a, b, c], me) == Next(Next(Next(w, a, me), b, me), c, me)
  {
    hide Next;
    assert [a, b, c][..2] == [a, b] && [a, b][..1] == [a] && [a][..0] == [];
    assert Run(w, [a], me) == Next(w, a, me);
    assert Run(w, [a, b], me) == Next(Next(w, a, me), b, me);
  }
}
