/**
 Bounded streaming of internal/drop/client.go: the two readers that enforce a byte limit, the copy
 and verify loop of AddAndPin, and readBounded, against every way a source may split its bytes.
 */
module Streaming {
  import opened Text
  import Ipv4

  type Bytes = seq<Ipv4.Byte>

  datatype ReadError = NoError | EOF | ByteLimit | Broken(code: nat)

  /** One planned read: how many bytes it offers at most, and whether the end comes together with the last byte. */
  datatype Move = Move(size: nat, endNow: bool)

  /**
   A source of bytes: what is left, how the next reads are split (empty reads, any chunk sizes, the
   end together with data or after it), and how it ends. Once the plan is used up, reads are greedy.
   */
  datatype Source = Source(rest: Bytes, plan: seq<Move>, ending: ReadError) {
    predicate Valid() { ending.EOF? || ending.Broken? }
  }

  function Min(a: nat, b: nat): nat {
    if a < b then a else b
  }

  /** One Read call with room for cap bytes: the bytes, the error and the source afterwards. */
  function SourceRead(s: Source, cap: nat): (Bytes, ReadError, Source) {
    var size := if s.plan == [] then cap else Min(s.plan[0].size, cap);
    var n := Min(size, |s.rest|);
    var s' := s.(rest := s.rest[n..], plan := if s.plan == [] then [] else s.plan[1..]);
    var ends := if s.plan == [] then s.rest == [] else s'.rest == [] && s.plan[0].endNow;
    (s.rest[..n], if ends then s.ending else NoError, s')
  }

  // ---- the two limiting readers ----

  /** boundedReader: n of at most max bytes have been passed on. */
  datatype Bounded = Bounded(src: Source, max: nat, n: nat) {
    predicate Valid() { src.Valid() && n <= max }
  }

  function BoundedRead(b: Bounded, cap: nat): (Bytes, ReadError, Bounded)
    requires b.Valid()
  {
    if b.n == b.max then
      var (extra, err, src) := SourceRead(b.src, 1);
      ([], if extra != [] then ByteLimit else err, b.(src := src))
    else
      var (data, err, src) := SourceRead(b.src, Min(cap, b.max - b.n));
      (data, err, Bounded(src, b.max, b.n + |data|))
  }

  /** limitReadCloser: remaining bytes may still be passed on. */
  datatype Limited = Limited(src: Source, remaining: nat)

  function LimitedRead(l: Limited, cap: nat): (Bytes, ReadError, Limited) {
    if l.remaining == 0 then
      var (extra, err, src) := SourceRead(l.src, 1);
      ([], if extra != [] then ByteLimit else err, l.(src := src))
    else
      var (data, err, src) := SourceRead(l.src, Min(cap, l.remaining));
      (data, err, Limited(src, l.remaining - |data|))
  }

  class BoundedReader {
    var state: Bounded

    constructor (src: Source, max: nat)
      ensures state == Bounded(src, max, 0)
    {
      state := Bounded(src, max, 0);
    }

    method Read(cap: nat) returns (data: Bytes, err: ReadError)
      requires state.Valid()
      modifies this
      ensures (data, err, state) == BoundedRead(old(state), cap)
      ensures state.Valid()
    {
      if state.n == state.max {
        var (extra, e, src) := SourceRead(state.src, 1);
        state := state.(src := src);
        if |extra| > 0 {
          return [], ByteLimit;
        }
        return [], e;
      }
      var room := cap;
      if room > state.max - state.n {
        room := state.max - state.n;
      }
      var (d, e, src) := SourceRead(state.src, room);
      state := Bounded(src, state.max, state.n + |d|);
      return d, e;
    }
  }

  class LimitReadCloser {
    var state: Limited

    constructor (src: Source, remaining: nat)
      ensures state == Limited(src, remaining)
    {
      state := Limited(src, remaining);
    }

    method Read(cap: nat) returns (data: Bytes, err: ReadError)
      modifies this
      ensures (data, err, state) == LimitedRead(old(state), cap)
    {
      if state.remaining == 0 {
        var (extra, e, src) := SourceRead(state.src, 1);
        state := state.(src := src);
        if |extra| > 0 {
          return [], ByteLimit;
        }
        return [], e;
      }
      var room := cap;
      if room > state.remaining {
        room := state.remaining;
      }
      var (d, e, src) := SourceRead(state.src, room);
      state := Limited(src, state.remaining - |d|);
      return d, e;
    }
  }

  /** A run of Read calls on the bounded reader: everything each call returned, and the reader afterwards. */
  function BoundedReads(b: Bounded, caps: seq<nat>): (seq<(Bytes, ReadError)>, Bounded)
    requires b.Valid()
    decreases |caps|
  {
    if caps == [] then ([], b) else
    var (data, err, b') := BoundedRead(b, caps[0]);
    var (more, end) := BoundedReads(b', caps[1..]);
    ([(data, err)] + more, end)
  }

  function LimitedReads(l: Limited, caps: seq<nat>): (seq<(Bytes, ReadError)>, Limited)
    decreases |caps|
  {
    if caps == [] then ([], l) else
    var (data, err, l') := LimitedRead(l, caps[0]);
    var (more, end) := LimitedReads(l', caps[1..]);
    ([(data, err)] + more, end)
  }

  /** The two readers answer every sequence of calls alike, with remaining = max - n throughout. */
  lemma {:induction false} ReadersAgree(b: Bounded, l: Limited, caps: seq<nat>)
    requires b.Valid() && l == Limited(b.src, b.max - b.n)
    ensures BoundedReads(b, caps).0 == LimitedReads(l, caps).0
    ensures
      var b' := BoundedReads(b, caps).1;
      b'.Valid() && LimitedReads(l, caps).1 == Limited(b'.src, b'.max - b'.n)
    decreases |caps|
  {
    if caps != [] {
      ReadersAgree(BoundedRead(b, caps[0]).2, LimitedRead(l, caps[0]).2, caps[1..]);
    }
  }

  // ---- io.Copy ----

  /** The buffer size of io.Copy. */
  const BUFFER: nat := 32768

  function Work(s: Source): nat {
    |s.plan| + |s.rest|
  }

  lemma ReadProgress(s: Source, cap: nat)
    requires s.Valid() && cap > 0
    ensures SourceRead(s, cap).1 == NoError ==> Work(SourceRead(s, cap).2) < Work(s)
    ensures SourceRead(s, cap).2.Valid()
  {
  }

  lemma BoundedProgress(b: Bounded, cap: nat)
    requires b.Valid() && cap > 0
    ensures
      var (_, err, b') := BoundedRead(b, cap);
      b'.Valid() && (err == NoError ==> Work(b'.src) < Work(b.src))
  {
    ReadProgress(b.src, if b.n == b.max then 1 else Min(cap, b.max - b.n));
  }

  /** io.Copy from a bounded reader: the bytes forwarded, the error it returns, and the reader afterwards. */
  function Copy(b: Bounded): (r: (Bytes, ReadError, Bounded))
    requires b.Valid()
    decreases Work(b.src)
  {
    BoundedProgress(b, BUFFER);
    var (data, err, b') := BoundedRead(b, BUFFER);
    if err == EOF then (data, NoError, b')
    else if err != NoError then (data, err, b')
    else
      var (more, e, end) := Copy(b');
      (data + more, e, end)
  }

  /** Bytes sent earlier, in front of a copy's result. */
  function After(sent: Bytes, r: (Bytes, ReadError, Bounded)): (Bytes, ReadError, Bounded) {
    (sent + r.0, r.1, r.2)
  }

  lemma CopyStep(b: Bounded, sent: Bytes)
    requires b.Valid()
    ensures
      var (data, err, b') := BoundedRead(b, BUFFER);
      && b'.Valid() && (err == NoError ==> Work(b'.src) < Work(b.src))
      && After(sent, Copy(b)) == if err == NoError then After(sent + data, Copy(b'))
                                 else (sent + data, if err == EOF then NoError else err, b')
  {
    hide BoundedRead;
    BoundedProgress(b, BUFFER);
    var (data, err, b') := BoundedRead(b, BUFFER);
    if err == NoError {
      assert sent + (data + Copy(b').0) == sent + data + Copy(b').0;
    }
  }

  method CopyLoop(r: BoundedReader) returns (sent: Bytes, err: ReadError)
    requires r.state.Valid()
    modifies r
    ensures (sent, err, r.state) == Copy(old(r.state))
    ensures r.state.Valid()
  {
    hide Copy, BoundedRead, SourceRead;
    sent, err := [], NoError;
    ghost var whole := Copy(r.state);
    assert [] + whole.0 == whole.0;
    while true
      invariant r.state.Valid() && err == NoError
      invariant whole == After(sent, Copy(r.state))
      decreases Work(r.state.src)
    {
      CopyStep(r.state, sent);
      var data, e := r.Read(BUFFER);
      sent := sent + data;
      if e != NoError {
        if e != EOF {
          err := e;
        }
        break;
      }
    }
  }

  /** What one bounded read passes on, and what its error means. */
  lemma BoundedReadFacts(b: Bounded, cap: nat)
    requires b.Valid() && cap > 0
    ensures
      var (data, err, b') := BoundedRead(b, cap);
      var room := b.max - b.n;
      && |data| <= room && |data| <= |b.src.rest| && data == b.src.rest[..|data|]
      && b'.Valid() && b'.max == b.max && b'.n == b.n + |data|
      && (err == ByteLimit ==> room == 0 && b.src.rest != [])
      && (err == EOF || err.Broken? ==> err == b.src.ending && data == b.src.rest)
      && (err == NoError ==> b'.src.rest == b.src.rest[|data|..] && b'.src.ending == b.src.ending)
  {
  }

  /**
   Whatever the split: the first min(length, limit) bytes are forwarded, a longer source gives
   ErrByteLimit, and otherwise the source's own ending decides.
   */
  lemma {:induction false} CopyForwards(b: Bounded)
    requires b.Valid()
    ensures
      var room := b.max - b.n;
      var (sent, err, b') := Copy(b);
      && sent == b.src.rest[..Min(|b.src.rest|, room)]
      && b'.n == b.n + |sent|
      && err == if |b.src.rest| > room then ByteLimit else if b.src.ending == EOF then NoError else b.src.ending
    decreases Work(b.src)
  {
    hide Copy, BoundedRead, SourceRead;
    CopyStep(b, []);
    BoundedReadFacts(b, BUFFER);
    var (data, err, b') := BoundedRead(b, BUFFER);
    assert [] + Copy(b).0 == Copy(b).0 && [] + data == data;
    if err == NoError {
      CopyForwards(b');
      var rest, k := b.src.rest, Min(|b'.src.rest|, b'.max - b'.n);
      assert data + rest[|data|..][..k] == rest[..|data| + k];
    }
  }

  // ---- AddAndPin ----

  datatype UploadError = ErrByteLimit | ErrSizeMismatch | ErrHashMismatch | ErrSource(error: ReadError)

  datatype UploadResult = Accepted(size: nat) | Rejected(error: UploadError)

  function LowerChar(c: char): char {
    if 'A' <= c <= 'Z' then (c as int + 32) as char else c
  }

  function Lower(s: string): string {
    seq(|s|, i requires 0 <= i < |s| => LowerChar(s[i]))
  }

  /** The optional digest check: any letter case and surrounding spaces are accepted. */
  predicate DigestMatches(digest: Bytes -> string, body: Bytes, expected: string) {
    expected == "" || Lower(digest(body)) == Lower(TrimSpace(expected))
  }

  predicate IsHex(c: char) {
    '0' <= c <= '9' || 'a' <= c <= 'f'
  }

  /** The same hexadecimal digit, written with a small or a capital letter. */
  predicate SameDigit(c: char, d: char) {
    c == d || ('a' <= d <= 'f' && c as int == d as int - 32)
  }

  /** Against a digest printed in lower-case hexadecimal, exactly its own digits match, in either letter case. */
  lemma DigestIsCompared(digest: Bytes -> string, body: Bytes, left: string, expected: string, right: string)
    requires forall i :: 0 <= i < |digest(body)| ==> IsHex(digest(body)[i])
    requires Blank(left) && Blank(right)
    requires expected != "" && !IsSpace(expected[0]) && !IsSpace(expected[|expected| - 1])
    ensures
      var d := digest(body);
      DigestMatches(digest, body, left + expected + right) <==>
        |expected| == |d| && forall i :: 0 <= i < |d| ==> SameDigit(expected[i], d[i])
  {
    hide TrimSpace, IsSpace;
    TrimBlank(left, expected, right);
    var d := digest(body);
    forall i | 0 <= i < |d| && i < |expected|
      ensures Lower(d)[i] == Lower(expected)[i] <==> SameDigit(expected[i], d[i])
    {
      assert IsHex(d[i]);
    }
    assert Lower(d) == Lower(expected) <==>
             |d| == |expected| && forall i :: 0 <= i < |d| ==> Lower(d)[i] == Lower(expected)[i];
  }

  /**
   The streaming part of AddAndPin, with the digest of the bytes sent as a parameter. An upload is
   accepted exactly when the whole body has the declared size, fits the limit and matches the digest;
   at most the declared number of bytes is ever forwarded.
   */
  method AddAndPin(body: Source, declared: int, maxBytes: int, sha256: string, digest: Bytes -> string)
      returns (result: UploadResult, sent: Bytes)
    requires body.Valid()
    ensures declared < 0 || declared > maxBytes ==> result == Rejected(ErrByteLimit) && sent == []
    ensures 0 <= declared <= maxBytes ==>
      && sent == body.rest[..Min(|body.rest|, declared)]
      && (result.Accepted? <==>
            |body.rest| == declared && body.ending == EOF && DigestMatches(digest, body.rest, sha256))
      && (|body.rest| > declared ==> result == Rejected(ErrByteLimit))
      && (|body.rest| < declared && body.ending == EOF ==> result == Rejected(ErrSizeMismatch))
      && (|body.rest| == declared && body.ending == EOF && result.Rejected? ==> result.error == ErrHashMismatch)
      && (|body.rest| <= declared && body.ending != EOF ==> result == Rejected(ErrSource(body.ending)))
      && (result.Accepted? ==> result.size == declared)
  {
    if declared < 0 || maxBytes < 0 || declared > maxBytes {
      return Rejected(ErrByteLimit), [];
    }
    var bounded := new BoundedReader(body, declared);
    var err;
    CopyForwards(bounded.state);
    sent, err := CopyLoop(bounded);
    if err == ByteLimit {
      return Rejected(ErrByteLimit), sent;
    }
    if err != NoError {
      return Rejected(ErrSource(err)), sent;
    }
    if bounded.state.n != declared {
      return Rejected(ErrSizeMismatch), sent;
    }
    assert sent == body.rest;
    if sha256 != "" && Lower(digest(sent)) != Lower(TrimSpace(sha256)) {
      return Rejected(ErrHashMismatch), sent;
    }
    return Accepted(declared), sent;
  }

  // ---- readBounded ----

  const MAX_RESPONSE: nat := 1048576

  /** io.ReadAll over io.LimitReader with room for left more bytes; None when the source broke. */
  function ReadAll(s: Source, left: nat): Option<Bytes>
    requires s.Valid()
    decreases Work(s)
  {
    if left == 0 then Some([]) else
    var cap := Min(BUFFER, left);
    ReadProgress(s, cap);
    var (data, err, s') := SourceRead(s, cap);
    if err == EOF then Some(data)
    else if err != NoError then None
    else Prepend(data, ReadAll(s', left - |data|))
  }

  function Prepend(data: Bytes, r: Option<Bytes>): Option<Bytes> {
    if r.Some? then Some(data + r.value) else None
  }

  lemma ReadAllStep(s: Source, left: nat)
    requires s.Valid()
    ensures left == 0 ==> ReadAll(s, left) == Some([])
    ensures
      var (data, err, s') := SourceRead(s, Min(BUFFER, left));
      && |data| <= left && s'.Valid()
      && (left > 0 ==> ReadAll(s, left) == if err == EOF then Some(data) else if err != NoError then None
                                           else Prepend(data, ReadAll(s', left - |data|)))
  {
  }

  method ReadAllLoop(src: Source, limit: nat) returns (r: Option<Bytes>)
    requires src.Valid()
    ensures r == ReadAll(src, limit)
  {
    hide ReadAll, SourceRead, Work;
    var s, left: nat, got := src, limit, [];
    ghost var whole := ReadAll(src, limit);
    assert whole.Some? ==> [] + whole.value == whole.value;
    while left > 0
      invariant s.Valid()
      invariant whole == Prepend(got, ReadAll(s, left))
      decreases Work(s)
    {
      var cap := Min(BUFFER, left);
      ReadAllStep(s, left);
      ReadProgress(s, cap);
      var (data, err, s') := SourceRead(s, cap);
      if err == EOF {
        return Some(got + data);
      }
      if err != NoError {
        return None;
      }
      ghost var more := ReadAll(s', left - |data|);
      assert more.Some? ==> got + (data + more.value) == got + data + more.value;
      s, left, got := s', left - |data|, got + data;
    }
    ReadAllStep(s, left);
    assert got + [] == got;
    return Some(got);
  }

  /** A source no longer than the limit is read whole or breaks; a longer one fills the limit or breaks. */
  lemma {:induction false} ReadAllReads(s: Source, left: nat)
    requires s.Valid()
    ensures |s.rest| < left ==> ReadAll(s, left) == if s.ending == EOF then Some(s.rest) else None
    ensures |s.rest| >= left ==> ReadAll(s, left) == Some(s.rest[..left]) || ReadAll(s, left) == None
    decreases Work(s)
  {
    hide SourceRead;
    if left > 0 {
      var cap := Min(BUFFER, left);
      ReadProgress(s, cap);
      ReadFacts(s, cap);
      var (data, err, s') := SourceRead(s, cap);
      if err == NoError {
        ReadAllReads(s', left - |data|);
        assert |s.rest| >= left ==> data + s'.rest[..left - |data|] == s.rest[..left];
      } else {
        assert data + [] == data;
      }
    }
  }

  lemma ReadFacts(s: Source, cap: nat)
    requires s.Valid()
    ensures
      var (data, err, s') := SourceRead(s, cap);
      && |data| <= cap && s.rest == data + s'.rest && s'.ending == s.ending
      && (err == NoError || (err == s.ending && s'.rest == []))
  {
  }

  /** readBounded succeeds exactly on complete responses of at most the limit, and returns them whole. */
  method ReadBounded(src: Source) returns (r: Option<Bytes>)
    requires src.Valid()
    ensures r.Some? <==> |src.rest| <= 1_048_576 && src.ending == EOF
    ensures r.Some? ==> r.value == src.rest
  {
    ReadAllReads(src, MAX_RESPONSE + 1);
    var data := ReadAllLoop(src, MAX_RESPONSE + 1);
    if data.None? || |data.value| > MAX_RESPONSE {
      return None;
    }
    return data;
  }
}
