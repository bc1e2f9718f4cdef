/**
 The credential ledger: Rotate and archiveCurrent (internal/carriers/rotate.go) over
 InsertCarrierCredential and DeactivateExpiredCarrierCredentials (internal/store/carriers.go).
 Clock readings are parameters in nanoseconds; the hash is any function.
 */
module RotationLedger {
  import opened Text
  import opened CarrierSecrets

  datatype Transport = VLESSReality | Hysteria2 | ShortID

  /** A ledger row; an expiry of 0 means none. */
  datatype Row = Row(transport: Transport, hash: string, createdAt: int, expiresAt: int, active: bool, peer: string)

  type Ledger = seq<Row>

  const SECOND: nat := 1_000_000_000

  const DAY: nat := 24 * 3600 * SECOND

  /** What the three recorded transports currently use; nothing when stealth is off or not initialised. */
  function Materials(g: Manager): seq<(Transport, string)> {
    if !g.enabled || g.secrets.None? then []
    else [(VLESSReality, g.secrets.value.vless), (Hysteria2, g.secrets.value.hysteria2),
          (ShortID, g.secrets.value.shortID)]
  }

  /** One rotation: its clock readings, grace period and label, how many inserts succeed, and what else happens. */
  datatype Rotation = Rotation(
    t0: nat, t1: nat, t2: nat, grace: int, peer: string, inserts: nat, cleaned: bool,
    made: Secrets, cert: Pair, fallback: Secrets, left: nat, starts: bool)

  function Now(r: Rotation): int {
    r.t0 / SECOND
  }

  /** The expiry of what this rotation replaces: the default grace period is a day. */
  function Expiry(r: Rotation): int {
    (r.t1 + (if r.grace <= 0 then DAY else r.grace)) / SECOND
  }

  /** Appends a row per non-empty material while inserts succeed; tells how many successes remain, if none failed. */
  function Record(rows: Ledger, items: seq<(Transport, string)>, hash: string -> string,
                  created: int, expires: int, peer: string, inserts: nat): (Option<nat>, Ledger)
    decreases |items|
  {
    if items == [] then (Some(inserts), rows)
    else if items[0].1 == "" then Record(rows, items[1..], hash, created, expires, peer, inserts)
    else if inserts == 0 then (None, rows)
    else Record(rows + [Row(items[0].0, hash(items[0].1), created, expires, true, peer)],
                items[1..], hash, created, expires, peer, inserts - 1)
  }

  /** An active row whose expiry has come becomes inactive; every other row stays as it is. */
  function Expire(row: Row, now: int): Row {
    if row.active && row.expiresAt > 0 && row.expiresAt <= now then row.(active := false) else row
  }

  function Deactivate(rows: Ledger, now: int): (r: Ledger)
    ensures |r| == |rows|
  {
    seq(|rows|, i requires 0 <= i < |rows| => Expire(rows[i], now))
  }

  /** Rotate: archive the current hashes, rotate, record the new hashes, clean up. */
  function Rotate(rows: Ledger, g: Manager, hash: string -> string, r: Rotation): (bool, Ledger, Manager) {
    var (left1, rows1) := Record(rows, Materials(g), hash, r.t2 / SECOND, Expiry(r), r.peer, r.inserts);
    if left1.None? then (false, rows1, g) else
    var (ok, g') := RotateAll(WithLeft(g, r.left), r.made, r.cert, r.fallback, r.starts);
    if !ok then (false, rows1, g') else
    var (left2, rows2) := Record(rows1, Materials(g'), hash, Now(r), 0, r.peer, left1.value);
    if left2.None? then (false, rows2, g') else
    (true, if r.cleaned then Deactivate(rows2, Now(r)) else rows2, g')
  }

  // ---- the same as objects ----

  class CredentialStore {
    var rows: Ledger
    var inserts: nat

    /** InsertCarrierCredential. */
    method Insert(row: Row) returns (ok: bool)
      modifies this
      ensures ok == (old(inserts) > 0)
      ensures ok ==> rows == old(rows) + [row] && inserts == old(inserts) - 1
      ensures !ok ==> rows == old(rows) && inserts == old(inserts)
    {
      if inserts == 0 {
        return false;
      }
      rows, inserts := rows + [row], inserts - 1;
      return true;
    }

    /** DeactivateExpiredCarrierCredentials: one bulk update. */
    method DeactivateExpired(now: int)
      modifies this`rows
      ensures rows == Deactivate(old(rows), now) && Extends(old(rows), rows)
      ensures forall i :: 0 <= i < |rows| ==>
                (rows[i].active <==> old(rows)[i].active && !(0 < old(rows)[i].expiresAt <= now))
    {
      DeactivateRetires(rows, now);
      var was := rows;
      rows := seq(|was|, i requires 0 <= i < |was| => Expire(was[i], now));
    }

    /** The loop over the three materials shared by archiving and recording. */
    method RecordAll(items: seq<(Transport, string)>, hash: string -> string, created: int, expires: int, peer: string)
        returns (ok: bool)
      modifies this
      ensures (if ok then Some(inserts) else None, rows)
           == Record(old(rows), items, hash, created, expires, peer, old(inserts))
    {
      for k := 0 to |items|
        invariant Record(rows, items[k..], hash, created, expires, peer, inserts)
               == Record(old(rows), items, hash, created, expires, peer, old(inserts))
      {
        assert items[k..][0] == items[k] && items[k..][1..] == items[k + 1..];
        if items[k].1 == "" {
          continue;
        }
        ok := Insert(Row(items[k].0, hash(items[k].1), created, expires, true, peer));
        if !ok {
          return;
        }
      }
      return true;
    }
  }

  class Rotator {
    const store: CredentialStore
    const stealth: StealthManager

    constructor (store: CredentialStore, stealth: StealthManager)
      ensures this.store == store && this.stealth == stealth
    {
      this.store, this.stealth := store, stealth;
    }

    method RotateCarriers(hash: string -> string, r: Rotation) returns (ok: bool)
      requires stealth.Valid() && store.inserts == r.inserts && stealth.st.disk.left == r.left
      modifies store, stealth, stealth.st
      ensures (ok, store.rows, stealth.View()) == Rotate(old(store.rows), old(stealth.View()), hash, r)
    {
      hide RotateAll, Record;
      ghost var g := stealth.View();
      ok := store.RecordAll(Materials(stealth.View()), hash, r.t2 / SECOND, Expiry(r), r.peer);
      if !ok {
        return;
      }
      assert WithLeft(g, r.left) == stealth.View();
      ok := stealth.RotateAllSecrets(r.made, r.cert, r.fallback, r.starts);
      if !ok {
        return;
      }
      ok := store.RecordAll(Materials(stealth.View()), hash, Now(r), 0, r.peer);
      if !ok {
        return;
      }
      if r.cleaned {
        store.DeactivateExpired(Now(r));
      }
    }
  }

  // ---- what a rotation adds ----

  /** later extends earlier: no row is removed or changed, except that an active row may have become inactive. */
  ghost predicate Extends(earlier: Ledger, later: Ledger) {
    |earlier| <= |later| && forall i :: 0 <= i < |earlier| ==> SameOrRetired(earlier[i], later[i])
  }

  predicate SameOrRetired(was: Row, now: Row) {
    was == now || (was.active && was.expiresAt > 0 && now == was.(active := false))
  }

  lemma ExtendsTransitive(a: Ledger, b: Ledger, c: Ledger)
    requires Extends(a, b) && Extends(b, c)
    ensures Extends(a, c)
  {
    forall i | 0 <= i < |a| ensures SameOrRetired(a[i], c[i]) {
      assert SameOrRetired(a[i], b[i]) && SameOrRetired(b[i], c[i]);
    }
  }

  lemma {:induction false} RecordAppends(rows: Ledger, items: seq<(Transport, string)>, hash: string -> string,
                                         created: int, expires: int, peer: string, inserts: nat)
    ensures
      var (left, rows') := Record(rows, items, hash, created, expires, peer, inserts);
      && rows <= rows'
      && (forall i :: |rows| <= i < |rows'| ==> rows'[i].active && rows'[i].expiresAt == expires)
      && (left.Some? ==> forall k :: 0 <= k < |items| && items[k].1 != "" ==>
            Row(items[k].0, hash(items[k].1), created, expires, true, peer) in rows'[|rows|..])
    decreases |items|
  {
    if items != [] {
      if items[0].1 == "" {
        RecordAppends(rows, items[1..], hash, created, expires, peer, inserts);
        assert forall k :: 0 < k < |items| ==> items[k] == items[1..][k - 1];
      } else if inserts > 0 {
        var row := Row(items[0].0, hash(items[0].1), created, expires, true, peer);
        RecordAppends(rows + [row], items[1..], hash, created, expires, peer, inserts - 1);
        var rows' := Record(rows, items, hash, created, expires, peer, inserts).1;
        assert rows'[|rows|] == row && rows'[|rows|..][0] == row;
        assert rows'[|rows|..][1..] == rows'[|rows| + 1..];
        assert forall k :: 0 < k < |items| ==> items[k] == items[1..][k - 1];
        assert forall x :: x in rows'[|rows| + 1..] ==> x in rows'[|rows|..];
      }
    }
  }

  lemma DeactivateRetires(rows: Ledger, now: int)
    ensures Extends(rows, Deactivate(rows, now))
    ensures forall i :: 0 <= i < |rows| ==>
              (Deactivate(rows, now)[i].active <==> rows[i].active && !(0 < rows[i].expiresAt <= now))
  {
  }

  lemma PrefixExtends(a: Ledger, b: Ledger)
    requires a <= b
    ensures Extends(a, b)
  {
  }

  /** When rows were written, when they expire, and their label. */
  datatype Stamp = Stamp(created: int, expires: int, peer: string)

  function Replaced(r: Rotation): Stamp {
    Stamp(r.t2 / SECOND, Expiry(r), r.peer)
  }

  function Introduced(r: Rotation): Stamp {
    Stamp(Now(r), 0, r.peer)
  }

  /** A row for this material exists. */
  ghost predicate Recorded(rows: Ledger, transport: Transport, hash: string, stamp: Stamp) {
    exists i :: 0 <= i < |rows| && rows[i].transport == transport && rows[i].hash == hash
                && Stamp(rows[i].createdAt, rows[i].expiresAt, rows[i].peer) == stamp
  }

  /** Every material is recorded with this expiry. */
  ghost predicate AllRecorded(rows: Ledger, items: seq<(Transport, string)>, hash: string -> string, stamp: Stamp) {
    forall k :: 0 <= k < |items| && items[k].1 != "" ==> Recorded(rows, items[k].0, hash(items[k].1), stamp)
  }

  /** A row without expiry is active. */
  ghost predicate UnexpiringActive(rows: Ledger) {
    forall i :: 0 <= i < |rows| && rows[i].expiresAt == 0 ==> rows[i].active
  }

  lemma RecordRecords(rows: Ledger, items: seq<(Transport, string)>, hash: string -> string,
                      created: int, expires: int, peer: string, inserts: nat)
    ensures
      var (left, rows') := Record(rows, items, hash, created, expires, peer, inserts);
      && Extends(rows, rows') && (UnexpiringActive(rows) ==> UnexpiringActive(rows'))
      && (left.Some? ==> AllRecorded(rows', items, hash, Stamp(created, expires, peer)))
  {
    hide Record;
    RecordAppends(rows, items, hash, created, expires, peer, inserts);
    var (left, rows') := Record(rows, items, hash, created, expires, peer, inserts);
    PrefixExtends(rows, rows');
    if left.Some? {
      forall k | 0 <= k < |items| && items[k].1 != ""
        ensures Recorded(rows', items[k].0, hash(items[k].1), Stamp(created, expires, peer))
      {
        var row := Row(items[k].0, hash(items[k].1), created, expires, true, peer);
        var i :| 0 <= i < |rows'[|rows|..]| && rows'[|rows|..][i] == row;
        assert rows'[|rows| + i] == row;
      }
    }
  }

  /** What is recorded stays recorded, as the ledger only grows and rows change nothing but their active flag. */
  lemma RecordedStays(a: Ledger, b: Ledger, items: seq<(Transport, string)>, hash: string -> string, stamp: Stamp)
    requires Extends(a, b) && AllRecorded(a, items, hash, stamp)
    ensures AllRecorded(b, items, hash, stamp)
  {
    forall k | 0 <= k < |items| && items[k].1 != ""
      ensures Recorded(b, items[k].0, hash(items[k].1), stamp)
    {
      var i :| 0 <= i < |a| && a[i].transport == items[k].0 && a[i].hash == hash(items[k].1)
               && Stamp(a[i].createdAt, a[i].expiresAt, a[i].peer) == stamp;
      assert SameOrRetired(a[i], b[i]);
    }
  }

  /** Rotations generate non-empty secrets. */
  predicate Generates(r: Rotation) {
    AllNonEmpty(r.made) && AllNonEmpty(r.fallback)
  }

  /** One rotation, successful or not. */
  lemma RotateEffect(rows: Ledger, g: Manager, hash: string -> string, r: Rotation)
    requires Inv(g) && Generates(r)
    ensures
      var (ok, rows', g') := Rotate(rows, g, hash, r);
      && Extends(rows, rows') && Inv(g') && g'.enabled == g.enabled
      && (UnexpiringActive(rows) ==> UnexpiringActive(rows'))
      && (ok ==> && AllRecorded(rows', Materials(g), hash, Replaced(r))
                 && AllRecorded(rows', Materials(g'), hash, Introduced(r)))
      && (ok && r.cleaned ==> forall i :: 0 <= i < |rows'| && rows'[i].active ==> !(0 < rows'[i].expiresAt <= Now(r)))
  {
    hide RotateAll, Record, Extends, UnexpiringActive, AllRecorded, Materials;
    RecordRecords(rows, Materials(g), hash, r.t2 / SECOND, Expiry(r), r.peer, r.inserts);
    var (left1, rows1) := Record(rows, Materials(g), hash, r.t2 / SECOND, Expiry(r), r.peer, r.inserts);
    if left1.Some? {
      RotateAllEffect(WithLeft(g, r.left), r.made, r.cert, r.fallback, r.starts);
      RotateAllEnabled(WithLeft(g, r.left), r.made, r.cert, r.fallback, r.starts);
      var (ok, g') := RotateAll(WithLeft(g, r.left), r.made, r.cert, r.fallback, r.starts);
      if ok {
        RecordRecords(rows1, Materials(g'), hash, Now(r), 0, r.peer, left1.value);
        var (left2, rows2) := Record(rows1, Materials(g'), hash, Now(r), 0, r.peer, left1.value);
        ExtendsTransitive(rows, rows1, rows2);
        if left2.Some? {
          RecordedStays(rows1, rows2, Materials(g), hash, Replaced(r));
          if r.cleaned {
            CleanupEffect(rows, rows2, Materials(g), Materials(g'), hash, r);
          }
        }
      }
    }
  }

  /**
   The rows a successful rotation leaves while stealth is enabled, transport by transport: the new
   VLESS id, Hysteria2 password and short id without expiry, the replaced ones with it.
   */
  lemma RotationRecordsSecrets(rows: Ledger, g: Manager, hash: string -> string, r: Rotation)
    requires Inv(g) && Generates(r) && g.enabled && Rotate(rows, g, hash, r).0
    ensures
      var rows' := Rotate(rows, g, hash, r).1;
      && Recorded(rows', VLESSReality, hash(r.made.vless), Introduced(r))
      && Recorded(rows', Hysteria2, hash(r.made.hysteria2), Introduced(r))
      && Recorded(rows', ShortID, hash(r.made.shortID), Introduced(r))
      && (g.secrets.Some? ==>
            && Recorded(rows', VLESSReality, hash(g.secrets.value.vless), Replaced(r))
            && Recorded(rows', Hysteria2, hash(g.secrets.value.hysteria2), Replaced(r))
            && Recorded(rows', ShortID, hash(g.secrets.value.shortID), Replaced(r)))
  {
    hide RotateAll, Record, Recorded;
    RotateEffect(rows, g, hash, r);
    RotateAllEffect(WithLeft(g, r.left), r.made, r.cert, r.fallback, r.starts);
    var (_, rows', g') := Rotate(rows, g, hash, r);
    var after := Materials(g');
    assert |after| == 3 && after[0].1 == r.made.vless && after[1].1 == r.made.hysteria2 && after[2].1 == r.made.shortID;
    if g.secrets.Some? {
      var before := Materials(g);
      assert before[0].1 != "" && before[1].1 != "" && before[2].1 != "";
    }
  }

  lemma CleanupEffect(rows: Ledger, rows2: Ledger, before: seq<(Transport, string)>, after: seq<(Transport, string)>,
                      hash: string -> string, r: Rotation)
    requires Extends(rows, rows2)
    requires AllRecorded(rows2, before, hash, Replaced(r)) && AllRecorded(rows2, after, hash, Introduced(r))
    ensures
      var rows' := Deactivate(rows2, Now(r));
      && Extends(rows, rows') && (UnexpiringActive(rows2) ==> UnexpiringActive(rows'))
      && AllRecorded(rows', before, hash, Replaced(r)) && AllRecorded(rows', after, hash, Introduced(r))
      && (forall i :: 0 <= i < |rows'| && rows'[i].active ==> !(0 < rows'[i].expiresAt <= Now(r)))
  {
    hide Extends, AllRecorded;
    DeactivateRetires(rows2, Now(r));
    var rows' := Deactivate(rows2, Now(r));
    ExtendsTransitive(rows, rows2, rows');
    RecordedStays(rows2, rows', before, hash, Replaced(r));
    RecordedStays(rows2, rows', after, hash, Introduced(r));
  }

  lemma RotateAllEnabled(g: Manager, made: Secrets, cert: Pair, fallback: Secrets, starts: bool)
    ensures RotateAll(g, made, cert, fallback, starts).1.enabled == g.enabled
  {
    hide LoadSecrets, LoadCert, Set;
  }

  // ---- one rotation in numbers ----

  /** A whole number of seconds, rounded down from nanoseconds. */
  predicate Seconds(s: int, ns: int) {
    s * 1_000_000_000 <= ns < (s + 1) * 1_000_000_000
  }

  /** The rows of the three secrets of s. */
  function RowsOf(s: Secrets, hash: string -> string, created: int, expires: int, peer: string): (rows: Ledger)
    ensures |rows| == 3
  {
    [Row(VLESSReality, hash(s.vless), created, expires, true, peer),
     Row(Hysteria2, hash(s.hysteria2), created, expires, true, peer),
     Row(ShortID, hash(s.shortID), created, expires, true, peer)]
  }

  /** Recording three secrets takes three inserts; with fewer the rows so far stay. */
  lemma RecordThree(rows: Ledger, s: Secrets, hash: string -> string, created: int, expires: int, peer: string,
                    inserts: nat)
    requires s.vless != "" && s.hysteria2 != "" && s.shortID != ""
    ensures
      var items := [(VLESSReality, s.vless), (Hysteria2, s.hysteria2), (ShortID, s.shortID)];
      var all := RowsOf(s, hash, created, expires, peer);
      Record(rows, items, hash, created, expires, peer, inserts)
      == if inserts >= 3 then (Some(inserts - 3), rows + all) else (None, rows + all[..inserts])
  {
    var items := [(VLESSReality, s.vless), (Hysteria2, s.hysteria2), (ShortID, s.shortID)];
    var all := RowsOf(s, hash, created, expires, peer);
    var rows1, rows2 := rows + all[..1], rows + all[..2];
    assert rows1 == rows + [all[0]] && rows2 == rows1 + [all[1]] && rows + all == rows2 + [all[2]];
    if inserts == 0 {
      assert rows + all[..0] == rows;
    } else {
      assert Record(rows, items, hash, created, expires, peer, inserts)
          == Record(rows1, items[1..], hash, created, expires, peer, inserts - 1);
      if inserts > 1 {
        assert Record(rows1, items[1..], hash, created, expires, peer, inserts - 1)
            == Record(rows2, items[2..], hash, created, expires, peer, inserts - 2);
        if inserts > 2 {
          assert Record(rows2, items[2..], hash, created, expires, peer, inserts - 2)
              == Record(rows + all, [], hash, created, expires, peer, inserts - 3);
        }
      }
    }
  }

  /**
   Exactly when a rotation of loaded secrets succeeds while stealth is enabled, and exactly what it
   writes: six rows, the replaced secrets expiring when the grace period ends (a day, if none is given).
   One that fails leaves those of the six it got to: the first three when the rotation itself failed.
   */
  lemma RotationInNumbers(rows: Ledger, g: Manager, hash: string -> string, r: Rotation)
    requires Inv(g) && Held(g) && Generates(r) && g.enabled && g.secrets.Some?
    ensures
      var (ok, rows', g') := Rotate(rows, g, hash, r);
      && (ok <==> r.inserts >= 6 && r.left >= 8 && (g.served.Some? ==> r.starts))
      && exists written, ends, now ::
           && Seconds(written, r.t2) && Seconds(now, r.t0)
           && Seconds(ends, r.t1 + if r.grace > 0 then r.grace else 86_400_000_000_000)
           && var six := RowsOf(g.secrets.value, hash, written, ends, r.peer) + RowsOf(r.made, hash, now, 0, r.peer);
           if ok then Cleaned(rows + six, r.cleaned, now, rows') else
           var rotated := r.left >= 8 && (g.served.Some? ==> r.starts);
           rows' == rows + six[..if rotated || r.inserts < 3 then r.inserts else 3]
  {
    hide RotateAll, Record, Held, RowsOf;
    var s := g.secrets.value;
    var written, ends, now := r.t2 / SECOND, Expiry(r), Now(r);
    RecordThree(rows, s, hash, written, ends, r.peer, r.inserts);
    HeldIgnoresBudget(g, r.left);
    RotateAllOutcome(WithLeft(g, r.left), r.made, r.cert, r.fallback, r.starts);
    RotateAllEffect(WithLeft(g, r.left), r.made, r.cert, r.fallback, r.starts);
    RotateAllEnabled(WithLeft(g, r.left), r.made, r.cert, r.fallback, r.starts);
    var (ok, g') := RotateAll(WithLeft(g, r.left), r.made, r.cert, r.fallback, r.starts);
    if ok && r.inserts >= 3 {
      var rows1 := rows + RowsOf(s, hash, written, ends, r.peer);
      RecordThree(rows1, g'.secrets.value, hash, now, 0, r.peer, r.inserts - 3);
      SameRows(g'.secrets.value, r.made, hash, now, 0, r.peer);
    }
    FirstRows(rows, RowsOf(s, hash, written, ends, r.peer), RowsOf(r.made, hash, now, 0, r.peer));
    assert Seconds(written, r.t2) && Seconds(now, r.t0);
    assert Seconds(ends, r.t1 + if r.grace > 0 then r.grace else 86_400_000_000_000);
  }

  /** What cleaning up, if it works, leaves of the rows. */
  ghost predicate Cleaned(all: Ledger, cleaned: bool, now: int, rows: Ledger) {
    && |rows| == |all|
    && forall i :: 0 <= i < |all| ==>
         rows[i] == if cleaned && 0 < all[i].expiresAt <= now && all[i].active then all[i].(active := false) else all[i]
  }

  lemma FirstRows(rows: Ledger, a: Ledger, b: Ledger)
    requires |a| == |b| == 3
    ensures rows + (a + b) == rows + a + b
    ensures forall n :: 0 <= n <= 3 ==> rows + (a + b)[..n] == rows + a[..n]
    ensures forall n :: 3 <= n <= 6 ==> rows + (a + b)[..n] == rows + a + b[..n - 3]
    ensures a[..3] == a
  {
    forall n | 0 <= n <= 3 ensures rows + (a + b)[..n] == rows + a[..n] {
      assert (a + b)[..n] == a[..n];
    }
    forall n | 3 <= n <= 6 ensures rows + (a + b)[..n] == rows + a + b[..n - 3] {
      assert (a + b)[..n] == a + b[..n - 3];
    }
  }

  lemma SameRows(s: Secrets, t: Secrets, hash: string -> string, created: int, expires: int, peer: string)
    requires s.vless == t.vless && s.hysteria2 == t.hysteria2 && s.shortID == t.shortID
    ensures RowsOf(s, hash, created, expires, peer) == RowsOf(t, hash, created, expires, peer)
  {
  }

  /** Without stealth a rotation records nothing. */
  lemma DisabledRecordsNothing(rows: Ledger, g: Manager, hash: string -> string, r: Rotation)
    requires !g.enabled
    ensures |Rotate(rows, g, hash, r).1| == |rows|
  {
    hide RotateAll;
    RotateAllEnabled(WithLeft(g, r.left), r.made, r.cert, r.fallback, r.starts);
  }

  // ---- runs ----

  /** The ledger and the manager after a sequence of rotations. */
  function RunRotations(rows: Ledger, g: Manager, hash: string -> string, rs: seq<Rotation>): (Ledger, Manager) {
    if rs == [] then (rows, g) else
    var (rows1, g1) := RunRotations(rows, g, hash, rs[..|rs| - 1]);
    var (_, rows2, g2) := Rotate(rows1, g1, hash, rs[|rs| - 1]);
    (rows2, g2)
  }

  /** Rotation k of the run succeeds. */
  predicate Succeeds(rows: Ledger, g: Manager, hash: string -> string, rs: seq<Rotation>, k: nat)
    requires k < |rs|
  {
    var (rows1, g1) := RunRotations(rows, g, hash, rs[..k]);
    Rotate(rows1, g1, hash, rs[k]).0
  }

  predicate AllGenerate(rs: seq<Rotation>) {
    forall i :: 0 <= i < |rs| ==> Generates(rs[i])
  }

  lemma {:induction false} RunInvariant(rows: Ledger, g: Manager, hash: string -> string, rs: seq<Rotation>)
    requires Inv(g) && AllGenerate(rs)
    ensures
      var (rows', g') := RunRotations(rows, g, hash, rs);
      && Inv(g') && g'.enabled == g.enabled && (UnexpiringActive(rows) ==> UnexpiringActive(rows'))
  {
    hide Rotate, UnexpiringActive;
    if rs != [] {
      var n := |rs| - 1;
      RunInvariant(rows, g, hash, rs[..n]);
      var (rows1, g1) := RunRotations(rows, g, hash, rs[..n]);
      RotateEffect(rows1, g1, hash, rs[n]);
    }
  }

  /** Whatever succeeds or fails, rows are never removed, changed or reactivated between any two points of a run. */
  lemma {:induction false} LedgerOnlyGrows(rows: Ledger, g: Manager, hash: string -> string, rs: seq<Rotation>, k: nat)
    requires Inv(g) && AllGenerate(rs) && k <= |rs|
    ensures Extends(RunRotations(rows, g, hash, rs[..k]).0, RunRotations(rows, g, hash, rs).0)
  {
    hide Rotate, Extends;
    if k == |rs| {
      assert rs[..k] == rs;
      PrefixExtends(RunRotations(rows, g, hash, rs).0, RunRotations(rows, g, hash, rs).0);
    } else {
      var n := |rs| - 1;
      LedgerOnlyGrows(rows, g, hash, rs[..n], k);
      assert rs[..n][..k] == rs[..k];
      RunInvariant(rows, g, hash, rs[..n]);
      var (rows1, g1) := RunRotations(rows, g, hash, rs[..n]);
      RotateEffect(rows1, g1, hash, rs[n]);
      ExtendsTransitive(RunRotations(rows, g, hash, rs[..k]).0, rows1, RunRotations(rows, g, hash, rs).0);
    }
  }

  /**
   After rotation k succeeded, however the run goes on: the secrets it replaced have rows expiring at
   its time plus its grace period, and the secrets it introduced have rows without expiry.
   */
  lemma RotationIsRecorded(rows: Ledger, g: Manager, hash: string -> string, rs: seq<Rotation>, k: nat)
    requires Inv(g) && AllGenerate(rs) && k < |rs| && Succeeds(rows, g, hash, rs, k)
    ensures
      var end := RunRotations(rows, g, hash, rs).0;
      && AllRecorded(end, Materials(RunRotations(rows, g, hash, rs[..k]).1), hash, Replaced(rs[k]))
      && AllRecorded(end, Materials(RunRotations(rows, g, hash, rs[..k + 1]).1), hash, Introduced(rs[k]))
  {
    hide Rotate, Extends, AllRecorded, Materials;
    assert rs[..k + 1][..k] == rs[..k];
    RunInvariant(rows, g, hash, rs[..k]);
    var (rows1, g1) := RunRotations(rows, g, hash, rs[..k]);
    RotateEffect(rows1, g1, hash, rs[k]);
    LedgerOnlyGrows(rows, g, hash, rs, k + 1);
    var (rows2, g2) := RunRotations(rows, g, hash, rs[..k + 1]);
    var end := RunRotations(rows, g, hash, rs).0;
    RecordedStays(rows2, end, Materials(g1), hash, Replaced(rs[k]));
    RecordedStays(rows2, end, Materials(g2), hash, Introduced(rs[k]));
  }

  /** Rows without expiry stay active for ever, so a replaced secret keeps the active row it was introduced with. */
  lemma IntroducedStaysActive(g: Manager, hash: string -> string, rs: seq<Rotation>, k: nat, m: nat)
    requires Inv(g) && AllGenerate(rs) && k < |rs| && Succeeds([], g, hash, rs, k)
    requires
      var items := Materials(RunRotations([], g, hash, rs[..k + 1]).1);
      m < |items| && items[m].1 != ""
    ensures
      var end := RunRotations([], g, hash, rs).0;
      var (transport, secret) := Materials(RunRotations([], g, hash, rs[..k + 1]).1)[m];
      exists i :: 0 <= i < |end| && end[i].transport == transport && end[i].hash == hash(secret)
                  && end[i].expiresAt == 0 && end[i].active
  {
    hide Rotate, RunRotations, Materials;
    RotationIsRecorded([], g, hash, rs, k);
    RunInvariant([], g, hash, rs);
    var end := RunRotations([], g, hash, rs).0;
    var items := Materials(RunRotations([], g, hash, rs[..k + 1]).1);
    assert Recorded(end, items[m].0, hash(items[m].1), Introduced(rs[k]));
  }

  // ---- exact activity ----

  /** Every row is active exactly while its expiry, if any, lies after the given time. */
  ghost predicate ActiveExactly(rows: Ledger, now: int) {
    forall i :: 0 <= i < |rows| ==>
      rows[i].expiresAt >= 0 && (rows[i].active <==> rows[i].expiresAt == 0 || rows[i].expiresAt > now)
  }

  /** All rotations succeed and clean up, at non-decreasing times. */
  ghost predicate Orderly(g: Manager, hash: string -> string, rs: seq<Rotation>) {
    && (forall k :: 0 <= k < |rs| ==> rs[k].cleaned && Succeeds([], g, hash, rs, k))
    && (forall j, k :: 0 <= j < k < |rs| ==> Now(rs[j]) <= Now(rs[k]))
  }

  lemma OrderlyInit(g: Manager, hash: string -> string, rs: seq<Rotation>)
    requires Orderly(g, hash, rs) && rs != []
    ensures
      var n, init := |rs| - 1, rs[..|rs| - 1];
      && Orderly(g, hash, init) && (n > 0 ==> Now(init[n - 1]) <= Now(rs[n]))
      && rs[n].cleaned && var (rows1, g1) := RunRotations([], g, hash, init); Rotate(rows1, g1, hash, rs[n]).0
  {
    hide Rotate, Now, RunRotations;
    var n := |rs| - 1;
    var init := rs[..n];
    forall k | 0 <= k < n ensures init[k].cleaned && Succeeds([], g, hash, init, k) {
      assert init[..k] == rs[..k] && Succeeds([], g, hash, rs, k);
    }
    assert forall k :: 0 <= k < n ==> init[k] == rs[k];
    assert Succeeds([], g, hash, rs, n);
  }

  /** After an orderly run a row is active if and only if it never expires or expires after the last rotation. */
  lemma {:induction false} ActivityIsExact(g: Manager, hash: string -> string, rs: seq<Rotation>)
    requires Inv(g) && AllGenerate(rs) && rs != [] && Orderly(g, hash, rs)
    ensures ActiveExactly(RunRotations([], g, hash, rs).0, Now(rs[|rs| - 1]))
  {
    hide Rotate, Inv, Orderly, Now;
    var n := |rs| - 1;
    var init := rs[..n];
    var (rows1, g1) := RunRotations([], g, hash, init);
    OrderlyInit(g, hash, rs);
    if n > 0 {
      ActivityIsExact(g, hash, init);
    }
    OrderlyStep(rows1, g1, hash, rs[n], if n > 0 then Now(init[n - 1]) else Now(rs[n]));
  }

  lemma OrderlyStep(rows: Ledger, g: Manager, hash: string -> string, r: Rotation, before: int)
    requires ActiveExactly(rows, before) && before <= Now(r) && r.cleaned && Rotate(rows, g, hash, r).0
    ensures ActiveExactly(Rotate(rows, g, hash, r).1, Now(r))
  {
    hide RotateAll, Record, Materials;
    assert Expiry(r) >= 0;
    var (left1, rows1) := Record(rows, Materials(g), hash, r.t2 / SECOND, Expiry(r), r.peer, r.inserts);
    RecordAppends(rows, Materials(g), hash, r.t2 / SECOND, Expiry(r), r.peer, r.inserts);
    var g' := RotateAll(WithLeft(g, r.left), r.made, r.cert, r.fallback, r.starts).1;
    RecordAppends(rows1, Materials(g'), hash, Now(r), 0, r.peer, left1.value);
    var rows2 := Record(rows1, Materials(g'), hash, Now(r), 0, r.peer, left1.value).1;
    DeactivateRetires(rows2, Now(r));
    forall i | 0 <= i < |rows2|
      ensures
        var row := Deactivate(rows2, Now(r))[i];
        row.expiresAt >= 0 && (row.active <==> row.expiresAt == 0 || row.expiresAt > Now(r))
    {
      assert i < |rows| ==> rows2[i] == rows[i];
      assert |rows| <= i < |rows1| ==> rows2[i] == rows1[i];
    }
  }

  // ---- short ids rotated on their own ----

  /** One short-id rotation by the node: the new id, whether it gets stored, and whether a restart works. */
  datatype ShortRotation = ShortRotation(shortID: string, left: nat, starts: bool)

  /** The node's manager after a sequence of short-id rotations. They record nothing in the ledger. */
  function RunShort(node: Manager, shorts: seq<ShortRotation>): Manager {
    if shorts == [] then node else
    var s := shorts[|shorts| - 1];
    RotateReality(WithLeft(RunShort(node, shorts[..|shorts| - 1]), s.left), s.shortID, s.starts).1
  }

  /** An active row without expiry exists for this short id. */
  ghost predicate Current(rows: Ledger, hash: string) {
    exists i :: 0 <= i < |rows| && rows[i].transport == ShortID && rows[i].hash == hash && rows[i].expiresAt == 0
                && rows[i].active
  }

  lemma {:induction false} ShortIDAfter(node: Manager, shorts: seq<ShortRotation>)
    requires node.secrets.Some?
    ensures
      var end := RunShort(node, shorts);
      && end.secrets.Some?
      && ((forall k :: 0 <= k < |shorts| ==> shorts[k].left == 0) ==>
            end.secrets.value.shortID == node.secrets.value.shortID)
      && ((exists k :: 0 <= k < |shorts| && shorts[k].left > 0) ==>
            exists k :: 0 <= k < |shorts| && end.secrets.value.shortID == shorts[k].shortID)
  {
    if shorts != [] {
      var n := |shorts| - 1;
      var init := shorts[..n];
      ShortIDAfter(node, init);
      assert forall k :: 0 <= k < n ==> init[k] == shorts[k];
      if shorts[n].left > 0 {
        assert RunShort(node, shorts).secrets.value.shortID == shorts[n].shortID;
      } else if k :| 0 <= k < n && init[k].left > 0 {
        var j :| 0 <= j < n && RunShort(node, init).secrets.value.shortID == init[j].shortID;
        assert shorts[j] == init[j];
      }
    }
  }

  /**
   After a successful full rotation, and once the node has loaded it, the node's current short id has
   an active row without expiry if and only if no short id has been stored on its own since.
   */
  lemma ShortIDRecordedIff(rows: Ledger, g: Manager, hash: string -> string, r: Rotation, node: Manager,
                           shorts: seq<ShortRotation>)
    requires Inv(g) && Generates(r) && g.enabled && UnexpiringActive(rows) && Rotate(rows, g, hash, r).0
    requires node.secrets.Some? && node.secrets.value.shortID == r.made.shortID
    requires forall k, i :: 0 <= k < |shorts| && 0 <= i < |Rotate(rows, g, hash, r).1| ==>
               Rotate(rows, g, hash, r).1[i].hash != hash(shorts[k].shortID)
    ensures
      var end := RunShort(node, shorts);
      && end.secrets.Some?
      && (Current(Rotate(rows, g, hash, r).1, hash(end.secrets.value.shortID)) <==>
            forall k :: 0 <= k < |shorts| ==> shorts[k].left == 0)
  {
    hide Rotate, Inv, RunShort;
    RotationRecordsSecrets(rows, g, hash, r);
    RotateEffect(rows, g, hash, r);
    ShortIDAfter(node, shorts);
  }
}
