/**
 Sentinel rules compiled to Unbound fragments (internal/sentinel/policy/policy.go): the block and
 allow fragments that render writes, read back line by line. Letter case and printability beyond
 ASCII are parameters.
 */
module SentinelPolicy {
  import opened Text

  datatype Rule = Rule(target: string, action: string, enabled: bool)

  /** Lower-casing a character, as any mapping that settles after one step and leaves spaces and dots alone. */
  ghost predicate LowerLaws(lower: char -> char) {
    forall c :: lower(lower(c)) == lower(c) && (IsSpace(lower(c)) <==> IsSpace(c)) && (lower(c) == '.' <==> c == '.')
  }

  function Lower(lower: char -> char, s: string): (r: string)
    ensures |r| == |s|
  {
    seq(|s|, i requires 0 <= i < |s| => lower(s[i]))
  }

  // ---- zones ----

  /** The name without its trailing dot. */
  function Base(lower: char -> char, host: string): string {
    TrimSuffix(TrimSpace(Lower(lower, host)), ".")
  }

  /** dnsZone. */
  function DnsZone(lower: char -> char, host: string): string {
    Base(lower, host) + "."
  }

  /** Normalising a zone again changes nothing. */
  lemma DnsZoneIdempotent(lower: char -> char, host: string)
    requires LowerLaws(lower)
    ensures DnsZone(lower, DnsZone(lower, host)) == DnsZone(lower, host)
  {
    hide TrimSpace, IsSpace;
    DotIsNoSpace();
    var trimmed := TrimSpace(Lower(lower, host));
    var base := Base(lower, host);
    var zone := base + ".";
    LowerTrimmed(lower, host);
    assert forall i :: 0 <= i < |base| ==> base[i] == trimmed[i];
    assert Lower(lower, zone) == zone;
    TrimSpaceEnds(Lower(lower, host));
    assert zone[0] == if base == [] then '.' else trimmed[0];
    TrimSpaceFixed(zone);
    assert TrimSuffix(zone, ".") == base;
  }

  /** The base of a name, character by character: spaces around it and one dot after it do not count. */
  lemma BaseOf(lower: char -> char, left: string, name: string, dot: string, right: string)
    requires LowerLaws(lower) && Blank(left) && Blank(right) && (dot == "." || (dot == "" && name != ""))
    requires name != "" ==> !IsSpace(name[0]) && (dot == "" ==> !IsSpace(name[|name| - 1]) && name[|name| - 1] != '.')
    ensures
      var base := Base(lower, left + name + dot + right);
      |base| == |name| && forall i :: 0 <= i < |name| ==> base[i] == lower(name[i])
  {
    hide TrimSpace, IsSpace, LowerLaws;
    DotIsNoSpace();
    var whole := name + dot;
    var l, w, r := Lower(lower, left), Lower(lower, whole), Lower(lower, right);
    LowerBlank(lower, left);
    LowerBlank(lower, right);
    LowerChar(lower, whole[0]);
    LowerChar(lower, whole[|whole| - 1]);
    assert left + name + dot + right == left + whole + right;
    assert Lower(lower, left + whole + right) == l + w + r;
    TrimBlank(l, w, r);
    assert w[|w| - 1..] == [w[|w| - 1]];
  }

  lemma LowerChar(lower: char -> char, c: char)
    requires LowerLaws(lower)
    ensures (IsSpace(lower(c)) <==> IsSpace(c)) && (lower(c) == '.' <==> c == '.')
  {
  }

  lemma LowerBlank(lower: char -> char, s: string)
    requires LowerLaws(lower) && Blank(s)
    ensures Blank(Lower(lower, s))
  {
    hide IsSpace, LowerLaws;
    forall i | 0 <= i < |s| ensures IsSpace(Lower(lower, s)[i]) {
      LowerChar(lower, s[i]);
    }
  }

  lemma DotIsNoSpace()
    ensures !IsSpace('.')
  {
  }

  /** Trimming keeps a contiguous part, so lower-cased text stays lower-cased. */
  lemma LowerTrimmed(lower: char -> char, host: string)
    requires LowerLaws(lower)
    ensures var t := TrimSpace(Lower(lower, host)); forall i :: 0 <= i < |t| ==> lower(t[i]) == t[i]
  {
    hide TrimLeft, TrimRight, IsSpace;
    var s := Lower(lower, host);
    var l := TrimLeft(s);
    var t := TrimRight(l);
    forall i | 0 <= i < |t| ensures lower(t[i]) == t[i] {
      assert t[i] == l[i] == s[|s| - |l| + i];
    }
  }

  // ---- %q ----

  function HexDigit(d: nat): char
    requires d < 16
  {
    if d < 10 then ('0' as int + d) as char else ('a' as int + d - 10) as char
  }

  function HexValue(c: char): Option<nat> {
    if '0' <= c <= '9' then Some(c as int - '0' as int)
    else if 'a' <= c <= 'f' then Some(c as int - 'a' as int + 10)
    else None
  }

  function Pow16(k: nat): (r: nat)
    ensures r >= 1
  {
    if k == 0 then 1 else 16 * Pow16(k - 1)
  }

  /** k hexadecimal digits of n. */
  function Hex(n: nat, k: nat): (s: string)
    ensures |s| == k
  {
    if k == 0 then [] else Hex(n / 16, k - 1) + [HexDigit(n % 16)]
  }

  function ParseHex(s: string): Option<nat> {
    if s == [] then Some(0) else
    var high, low := ParseHex(s[..|s| - 1]), HexValue(s[|s| - 1]);
    if high.None? || low.None? then None else Some(16 * high.value + low.value)
  }

  lemma {:induction false} HexRoundTrip(n: nat, k: nat)
    requires n < Pow16(k)
    ensures ParseHex(Hex(n, k)) == Some(n)
    ensures forall i :: 0 <= i < k ==> HexValue(Hex(n, k)[i]).Some?
    decreases k
  {
    if k > 0 {
      HexRoundTrip(n / 16, k - 1);
      assert Hex(n, k)[..k - 1] == Hex(n / 16, k - 1);
    }
  }

  /** Characters written as they are: printable ASCII, and whatever else counts as printable. */
  predicate Plain(printable: char -> bool, c: char) {
    (' ' <= c <= '~' || (c as int >= 0x80 && printable(c))) && c != '"' && c != '\\'
  }

  /** The letter of a two-character escape, if the character has one. */
  function ShortEscape(c: char): Option<char> {
    if c == '"' || c == '\\' then Some(c)
    else if c as int == 7 then Some('a')
    else if c as int == 8 then Some('b')
    else if c as int == 12 then Some('f')
    else if c as int == 10 then Some('n')
    else if c as int == 13 then Some('r')
    else if c as int == 9 then Some('t')
    else if c as int == 11 then Some('v')
    else None
  }

  /** One character inside a quoted string. */
  function Escape(printable: char -> bool, c: char): string {
    if Plain(printable, c) then [c]
    else if ShortEscape(c).Some? then ['\\', ShortEscape(c).value]
    else if c as int < 0x20 || c as int == 0x7F then "\\x" + Hex(c as int, 2)
    else if c as int < 0x10000 then "\\u" + Hex(c as int, 4)
    else "\\U" + Hex(c as int, 8)
  }

  function EscapeAll(printable: char -> bool, s: string): string {
    if s == [] then [] else Escape(printable, s[0]) + EscapeAll(printable, s[1..])
  }

  function Quote(printable: char -> bool, s: string): string {
    "\"" + EscapeAll(printable, s) + "\""
  }

  /** The character a two-character escape stands for. */
  function Unshort(c: char): Option<char> {
    if c == '"' || c == '\\' then Some(c)
    else if c == 'a' then Some(7 as char)
    else if c == 'b' then Some(8 as char)
    else if c == 'f' then Some(12 as char)
    else if c == 'n' then Some(10 as char)
    else if c == 'r' then Some(13 as char)
    else if c == 't' then Some(9 as char)
    else if c == 'v' then Some(11 as char)
    else None
  }

  /** The character k hexadecimal digits stand for, and what follows them. */
  function Numeric(s: string, k: nat): Option<(char, string)> {
    if |s| < k then None else
    var v := ParseHex(s[..k]);
    if v.Some? && (v.value < 0xD800 || 0xE000 <= v.value < 0x110000) then Some((v.value as char, s[k..])) else None
  }

  /** The next character of a quoted body, and the rest. */
  function Unescape(s: string): (r: Option<(char, string)>)
    ensures r.Some? ==> |r.value.1| < |s|
  {
    if s == [] then None
    else if s[0] != '\\' then Some((s[0], s[1..]))
    else if |s| < 2 then None
    else if Unshort(s[1]).Some? then Some((Unshort(s[1]).value, s[2..]))
    else if s[1] == 'x' then Numeric(s[2..], 2)
    else if s[1] == 'u' then Numeric(s[2..], 4)
    else if s[1] == 'U' then Numeric(s[2..], 8)
    else None
  }

  /** Reads a quoted body up to its closing quote: the text, and what follows the quote. */
  function UnquoteBody(s: string): Option<(string, string)> {
    if s == [] then None
    else if s[0] == '"' then Some(([], s[1..]))
    else
      var one := Unescape(s);
      if one.None? then None else
      var more := UnquoteBody(one.value.1);
      if more.None? then None else Some(([one.value.0] + more.value.0, more.value.1))
  }

  lemma Pow16Values()
    ensures Pow16(2) == 0x100 && Pow16(4) == 0x10000 && Pow16(8) == 0x1_0000_0000
  {
    assert Pow16(3) == 0x1000;
    assert Pow16(6) == 0x100_0000;
  }

  lemma NumericRoundTrip(c: char, k: nat, rest: string)
    requires c as int < Pow16(k)
    ensures Numeric(Hex(c as int, k) + rest, k) == Some((c, rest))
  {
    HexRoundTrip(c as int, k);
    var s := Hex(c as int, k) + rest;
    assert s[..k] == Hex(c as int, k) && s[k..] == rest;
  }

  /** Every escaped character reads back, whatever follows it, and contains neither a quote first nor a newline. */
  lemma EscapeRoundTrip(printable: char -> bool, c: char, rest: string)
    ensures Unescape(Escape(printable, c) + rest) == Some((c, rest))
    ensures Escape(printable, c) != [] && Escape(printable, c)[0] != '"' && '\n' !in Escape(printable, c)
  {
    hide Hex, ParseHex, Pow16, HexValue;
    Pow16Values();
    var e := Escape(printable, c);
    var s := e + rest;
    if Plain(printable, c) {
      assert s[1..] == rest;
    } else if ShortEscape(c).Some? {
      assert s[2..] == rest;
    } else {
      var k := if c as int < 0x20 || c as int == 0x7F then 2 else if c as int < 0x10000 then 4 else 8;
      var h := Hex(c as int, k);
      assert s[2..] == h + rest;
      NumericRoundTrip(c, k, rest);
      HexHasNoNewline(c as int, k);
    }
  }

  lemma HexHasNoNewline(n: nat, k: nat)
    requires n < Pow16(k)
    ensures '\n' !in Hex(n, k)
  {
    HexRoundTrip(n, k);
  }

  /** A quoted string reads back as it was, whatever follows it, and contains no newline. */
  lemma {:induction false} QuoteRoundTrip(printable: char -> bool, s: string, rest: string)
    ensures UnquoteBody(EscapeAll(printable, s) + "\"" + rest) == Some((s, rest))
    ensures '\n' !in EscapeAll(printable, s)
    decreases |s|
  {
    hide Escape, Unescape;
    var text := EscapeAll(printable, s) + "\"" + rest;
    if s == [] {
      assert text[1..] == rest;
    } else {
      var tail := EscapeAll(printable, s[1..]) + "\"" + rest;
      assert text == Escape(printable, s[0]) + tail;
      EscapeRoundTrip(printable, s[0], tail);
      QuoteRoundTrip(printable, s[1..], rest);
      assert s == [s[0]] + s[1..];
    }
  }

  // ---- fragments ----

  datatype Verdict = Block | Allow | Other

  /** What the rule's action asks for. */
  function VerdictOf(lower: char -> char, r: Rule): Verdict {
    var action := Lower(lower, TrimSpace(r.action));
    if action == "block" || action == "domain_block" || action == "wildcard_domain_block" then Block
    else if action == "allow" || action == "domain_allow" then Allow
    else Other
  }

  /** The name a block rule is about: its target, or what follows the wildcard. */
  function BlockHost(r: Rule): string {
    if HasPrefix(TrimSpace(r.target), "*.") then TrimPrefix(TrimSpace(r.target), "*.") else r.target
  }

  function HostOf(r: Rule, v: Verdict): string {
    if v == Block then BlockHost(r) else r.target
  }

  const LEAD := "local-zone: "

  function Ending(v: Verdict): string {
    if v == Block then " always_nxdomain" else " transparent"
  }

  function Line(printable: char -> bool, zone: string, v: Verdict): string {
    LEAD + Quote(printable, zone) + Ending(v)
  }

  /** The zones of the enabled rules with verdict v, in order. */
  function Zones(lower: char -> char, rules: seq<Rule>, v: Verdict): seq<string> {
    if rules == [] then [] else
    var r := rules[|rules| - 1];
    var before := Zones(lower, rules[..|rules| - 1], v);
    if r.enabled && VerdictOf(lower, r) == v then before + [DnsZone(lower, HostOf(r, v))] else before
  }

  /** A fragment: one line per zone, each ended by a newline. */
  function Fragment(printable: char -> bool, zones: seq<string>, v: Verdict): string {
    if zones == [] then []
    else Line(printable, zones[0], v) + "\n" + Fragment(printable, zones[1..], v)
  }

  lemma {:induction false} FragmentAppend(printable: char -> bool, zones: seq<string>, zone: string, v: Verdict)
    ensures Fragment(printable, zones + [zone], v) == Fragment(printable, zones, v) + (Line(printable, zone, v) + "\n")
    decreases |zones|
  {
    hide Line;
    if zones == [] {
      assert (zones + [zone])[1..] == [];
      assert Fragment(printable, [zone], v) == Line(printable, zone, v) + "\n" + [];
    } else {
      assert (zones + [zone])[1..] == zones[1..] + [zone];
      FragmentAppend(printable, zones[1..], zone, v);
    }
  }

  /** The action, trimmed and lower-cased, is one of these words. */
  predicate Asks(lower: char -> char, r: Rule, words: set<string>) {
    Lower(lower, TrimSpace(r.action)) in words
  }

  /** What follows the wildcard of a target, if it starts with one. */
  function Unwild(target: string): string {
    var t := TrimSpace(target);
    if |t| >= 2 && t[0] == '*' && t[1] == '.' then t[2..] else target
  }

  /** An enabled rule blocks a name. */
  predicate Denies(lower: char -> char, r: Rule, name: string) {
    && r.enabled && Asks(lower, r, {"block", "domain_block", "wildcard_domain_block"})
    && Within(lower, Unwild(r.target), name)
  }

  /** An enabled rule allows a name. */
  predicate Permits(lower: char -> char, r: Rule, name: string) {
    r.enabled && Asks(lower, r, {"allow", "domain_allow"}) && Within(lower, r.target, name)
  }

  /** The host is the root, or its labels are a suffix of the name's labels. */
  predicate Within(lower: char -> char, host: string, name: string) {
    var base := Base(lower, host);
    base == "" || IsSuffix(Labels(base), Labels(name))
  }

  /** The text declares, with this ending, a zone that the name falls under. */
  predicate Declares(text: string, ending: string, name: string) {
    var zones := ReadFragment(text, ending);
    zones.Some? && exists k :: 0 <= k < |zones.value| && FallsUnder(name + ".", zones.value[k])
  }

  /** The block and allow parts of render: the loop that grows both fragments rule by rule. */
  method Render(lower: char -> char, printable: char -> bool, rules: seq<Rule>) returns (blocks: string, allows: string)
    ensures blocks == Fragment(printable, Zones(lower, rules, Block), Block)
    ensures allows == Fragment(printable, Zones(lower, rules, Allow), Allow)
    ensures ReadFragment(blocks, " always_nxdomain").Some? && ReadFragment(allows, " transparent").Some?
    ensures forall name :: Declares(blocks, " always_nxdomain", name) <==>
              exists i :: 0 <= i < |rules| && Denies(lower, rules[i], name)
    ensures forall name :: Declares(allows, " transparent", name) <==>
              exists i :: 0 <= i < |rules| && Permits(lower, rules[i], name)
  {
    hide Fragment, DnsZone, TrimSpace, Line, Declares, Denies, Permits, ReadFragment;
    NoLines(printable);
    blocks, allows := "", "";
    for i := 0 to |rules|
      invariant blocks == Fragment(printable, Zones(lower, rules[..i], Block), Block)
      invariant allows == Fragment(printable, Zones(lower, rules[..i], Allow), Allow)
    {
      assert rules[..i + 1][..i] == rules[..i];
      var r := rules[i];
      if !r.enabled {
        continue;
      }
      var action := Lower(lower, TrimSpace(r.action));
      if action == "block" || action == "domain_block" || action == "wildcard_domain_block" {
        var host := r.target;
        if HasPrefix(TrimSpace(r.target), "*.") {
          host := TrimPrefix(TrimSpace(r.target), "*.");
        }
        FragmentAppend(printable, Zones(lower, rules[..i], Block), DnsZone(lower, host), Block);
        blocks := blocks + (Line(printable, DnsZone(lower, host), Block) + "\n");
      } else if action == "allow" || action == "domain_allow" {
        FragmentAppend(printable, Zones(lower, rules[..i], Allow), DnsZone(lower, r.target), Allow);
        allows := allows + (Line(printable, DnsZone(lower, r.target), Allow) + "\n");
      }
    }
    assert rules[..|rules|] == rules;
    Compiled(lower, printable, rules);
  }

  lemma NoLines(printable: char -> bool)
    ensures Fragment(printable, [], Block) == "" && Fragment(printable, [], Allow) == ""
  {
  }

  // ---- reading back ----

  /** The zone that a line declares with this ending. */
  function ReadLine(line: string, ending: string): Option<string> {
    if !HasPrefix(line, "local-zone: \"") then None else
    var body := UnquoteBody(line[13..]);
    if body.Some? && body.value.1 == ending then Some(body.value.0) else None
  }

  /** Reads lines until the text ends; None when a line does not read. */
  function ReadLines(lines: seq<string>, ending: string): Option<seq<string>> {
    if lines == [] then Some([]) else
    var zone, more := ReadLine(lines[0], ending), ReadLines(lines[1..], ending);
    if zone.Some? && more.Some? then Some([zone.value] + more.value) else None
  }

  /** A fragment read back: every line of it, the last of which ends with a newline. */
  function ReadFragment(text: string, ending: string): Option<seq<string>> {
    var lines := Split(text, '\n');
    if lines[|lines| - 1] == "" then ReadLines(lines[..|lines| - 1], ending) else None
  }

  lemma Parts(front: string, back: string)
    ensures HasPrefix(front + back, front) && (front + back)[|front|..] == back
  {
    assert (front + back)[..|front|] == front;
  }

  lemma PartsOnOneLine(v: Verdict)
    ensures '\n' !in LEAD && '\n' !in Ending(v)
  {
  }

  lemma LineReadsBack(printable: char -> bool, zone: string, v: Verdict)
    ensures ReadLine(Line(printable, zone, v), Ending(v)) == Some(zone) && '\n' !in Line(printable, zone, v)
  {
    hide UnquoteBody, EscapeAll, Ending;
    var body := EscapeAll(printable, zone) + "\"" + Ending(v);
    QuoteRoundTrip(printable, zone, Ending(v));
    var lead := "local-zone: \"";
    assert LEAD + "\"" == lead && Line(printable, zone, v) == lead + body;
    Parts(lead, body);
    PartsOnOneLine(v);
  }

  function Lines(printable: char -> bool, zones: seq<string>, v: Verdict): seq<string> {
    if zones == [] then [] else [Line(printable, zones[0], v)] + Lines(printable, zones[1..], v)
  }

  lemma {:induction false} FragmentLines(printable: char -> bool, zones: seq<string>, v: Verdict)
    ensures Split(Fragment(printable, zones, v), '\n') == Lines(printable, zones, v) + [""]
    decreases |zones|
  {
    hide Line, Split;
    if zones == [] {
      SplitLast("", '\n');
    } else {
      var line, rest := Line(printable, zones[0], v), zones[1..];
      LineReadsBack(printable, zones[0], v);
      SplitCons(line, '\n', Fragment(printable, rest, v));
      FragmentLines(printable, rest, v);
      assert [line] + (Lines(printable, rest, v) + [""]) == ([line] + Lines(printable, rest, v)) + [""];
    }
  }

  lemma {:induction false} ReadLinesBack(printable: char -> bool, zones: seq<string>, v: Verdict)
    ensures ReadLines(Lines(printable, zones, v), Ending(v)) == Some(zones)
    decreases |zones|
  {
    hide Line, ReadLine;
    if zones != [] {
      LineReadsBack(printable, zones[0], v);
      ReadLinesBack(printable, zones[1..], v);
      assert Lines(printable, zones, v)[1..] == Lines(printable, zones[1..], v);
      assert zones == [zones[0]] + zones[1..];
    }
  }

  /** Reading a generated fragment back yields, in order, exactly the zones of the enabled rules of its kind. */
  lemma FragmentReadsBack(lower: char -> char, printable: char -> bool, rules: seq<Rule>, v: Verdict)
    ensures ReadFragment(Fragment(printable, Zones(lower, rules, v), v), Ending(v)) == Some(Zones(lower, rules, v))
  {
    hide Lines, Fragment, Zones, ReadLines, Split;
    var zones := Zones(lower, rules, v);
    var lines := Lines(printable, zones, v);
    FragmentLines(printable, zones, v);
    ReadLinesBack(printable, zones, v);
    assert (lines + [""])[..|lines|] == lines;
  }

  // ---- what is blocked ----

  /** The labels of a name. */
  function Labels(name: string): seq<string> {
    Split(name, '.')
  }

  predicate IsSuffix(part: seq<string>, whole: seq<string>) {
    |part| <= |whole| && whole[|whole| - |part|..] == part
  }

  /** A fully qualified name falls under a zone: the root zone, the zone itself, or below it. */
  predicate FallsUnder(fqdn: string, zone: string) {
    zone == "." || fqdn == zone || HasSuffix(fqdn, "." + zone)
  }

  lemma {:induction false} SplitJoined(a: string, c: char, b: string)
    ensures Split(a + [c] + b, c) == Split(a, c) + Split(b, c)
    decreases |a|
  {
    hide Split;
    var i := FirstIndex(a, c);
    if i == |a| {
      assert c !in a by { assert a[..i] == a; }
      SplitCons(a, c, b);
      SplitLast(a, c);
    } else {
      var rest := a[i + 1..];
      SplitJoined(rest, c, b);
      SplitCons(a[..i], c, rest);
      SplitCons(a[..i], c, rest + [c] + b);
      assert a == a[..i] + [c] + rest;
      assert a + [c] + b == a[..i] + [c] + (rest + [c] + b);
    }
  }

  /** Ending in a name, at a label boundary, is having its labels as a suffix. */
  lemma LabelSuffix(name: string, base: string)
    ensures name == base || HasSuffix(name, "." + base) <==> IsSuffix(Labels(base), Labels(name))
  {
    hide Split, Join;
    if HasSuffix(name, "." + base) {
      var a := name[..|name| - |base| - 1];
      assert name == a + ['.'] + base;
      SplitJoined(a, '.', base);
      assert Labels(name)[|Labels(a)|..] == Labels(base);
    }
    if IsSuffix(Labels(base), Labels(name)) {
      var k := |Labels(name)| - |Labels(base)|;
      JoinSplit(name, '.');
      JoinSplit(base, '.');
      if k > 0 {
        var front := Labels(name)[..k];
        assert Labels(name) == front + Labels(base);
        JoinConcat(front, Labels(base), '.');
        assert name == Join(front, '.') + ['.'] + base;
        assert name[|name| - |base| - 1..] == "." + base;
      } else {
        assert Labels(name) == Labels(base);
      }
    }
  }

  lemma SuffixAppend(s: string, suffix: string, tail: string)
    ensures HasSuffix(s + tail, suffix + tail) <==> HasSuffix(s, suffix)
  {
    var k := |s| - |suffix|;
    if k >= 0 {
      assert (s + tail)[k..] == s[k..] + tail;
      assert (s[k..] + tail)[..|suffix|] == s[k..] && (suffix + tail)[..|suffix|] == suffix;
    }
  }

  lemma FallsUnderIsLabelSuffix(name: string, base: string)
    requires base != ""
    ensures FallsUnder(name + ".", base + ".") <==> IsSuffix(Labels(base), Labels(name))
  {
    LabelSuffix(name, base);
    var fqdn, zone := name + ".", base + ".";
    assert fqdn == zone <==> name == base by {
      assert fqdn[..|name|] == name && zone[..|base|] == base;
    }
    assert "." + zone == ("." + base) + ".";
    SuffixAppend(name, "." + base, ".");
  }

  lemma {:induction false} ZonesMember(lower: char -> char, rules: seq<Rule>, v: Verdict, zone: string)
    ensures zone in Zones(lower, rules, v) <==>
      exists i :: 0 <= i < |rules| && rules[i].enabled && VerdictOf(lower, rules[i]) == v
                  && zone == DnsZone(lower, HostOf(rules[i], v))
  {
    hide DnsZone, VerdictOf, HostOf;
    if rules != [] {
      var n := |rules| - 1;
      ZonesMember(lower, rules[..n], v, zone);
      if zone in Zones(lower, rules[..n], v) {
        var i :| 0 <= i < n && rules[..n][i].enabled && VerdictOf(lower, rules[..n][i]) == v
                 && zone == DnsZone(lower, HostOf(rules[..n][i], v));
        assert rules[i] == rules[..n][i];
      }
      if i :| 0 <= i < |rules| && rules[i].enabled && VerdictOf(lower, rules[i]) == v
              && zone == DnsZone(lower, HostOf(rules[i], v)) {
        assert i < n ==> rules[..n][i] == rules[i];
      }
    }
  }

  /** A rule covers a name: its host is the root, or the host's labels are a suffix of the name's labels. */
  predicate Covers(lower: char -> char, r: Rule, v: Verdict, name: string) {
    Within(lower, HostOf(r, v), name)
  }

  /**
   A name falls under a zone that the block fragment declares, as read back from its text, if and
   only if an enabled block rule's target or wildcard base is a label suffix of it; likewise for allow.
   */
  lemma CoveredIff(lower: char -> char, printable: char -> bool, rules: seq<Rule>, v: Verdict, name: string)
    ensures
      var zones := ReadFragment(Fragment(printable, Zones(lower, rules, v), v), Ending(v));
      && zones.Some?
      && ((exists k :: 0 <= k < |zones.value| && FallsUnder(name + ".", zones.value[k])) <==>
          exists i :: 0 <= i < |rules| && rules[i].enabled && VerdictOf(lower, rules[i]) == v
                      && Covers(lower, rules[i], v, name))
  {
    hide Zones, Fragment, ReadFragment, VerdictOf, HostOf, Base, FallsUnder, Labels;
    FragmentReadsBack(lower, printable, rules, v);
    var zones := Zones(lower, rules, v);
    if k :| 0 <= k < |zones| && FallsUnder(name + ".", zones[k]) {
      ZonesMember(lower, rules, v, zones[k]);
      var i :| 0 <= i < |rules| && rules[i].enabled && VerdictOf(lower, rules[i]) == v
               && zones[k] == DnsZone(lower, HostOf(rules[i], v));
      ZoneCovers(lower, rules[i], v, name);
    }
    if i :| 0 <= i < |rules| && rules[i].enabled && VerdictOf(lower, rules[i]) == v
            && Covers(lower, rules[i], v, name) {
      var zone := DnsZone(lower, HostOf(rules[i], v));
      ZonesMember(lower, rules, v, zone);
      ZoneCovers(lower, rules[i], v, name);
      var k :| 0 <= k < |zones| && zones[k] == zone;
    }
  }

  lemma ZoneCovers(lower: char -> char, r: Rule, v: Verdict, name: string)
    ensures FallsUnder(name + ".", DnsZone(lower, HostOf(r, v))) <==> Covers(lower, r, v, name)
  {
    hide Base, HostOf, Labels;
    var base := Base(lower, HostOf(r, v));
    if base != "" {
      FallsUnderIsLabelSuffix(name, base);
    }
  }

  lemma BlockWords(lower: char -> char, r: Rule, name: string)
    ensures r.enabled && VerdictOf(lower, r) == Block && Covers(lower, r, Block, name) <==> Denies(lower, r, name)
    ensures r.enabled && VerdictOf(lower, r) == Allow && Covers(lower, r, Allow, name) <==> Permits(lower, r, name)
  {
    hide Within, Lower, TrimSpace;
    var t := TrimSpace(r.target);
    assert HasPrefix(t, "*.") <==> |t| >= 2 && t[0] == '*' && t[1] == '.' by {
      assert |t| >= 2 ==> t[..2] == [t[0], t[1]];
    }
  }

  /** CoveredIff on the texts themselves and the action words themselves. */
  lemma Compiled(lower: char -> char, printable: char -> bool, rules: seq<Rule>)
    ensures
      var blocks := Fragment(printable, Zones(lower, rules, Block), Block);
      && ReadFragment(blocks, " always_nxdomain").Some?
      && forall name :: Declares(blocks, " always_nxdomain", name) <==>
                          exists i :: 0 <= i < |rules| && Denies(lower, rules[i], name)
    ensures
      var allows := Fragment(printable, Zones(lower, rules, Allow), Allow);
      && ReadFragment(allows, " transparent").Some?
      && forall name :: Declares(allows, " transparent", name) <==>
                          exists i :: 0 <= i < |rules| && Permits(lower, rules[i], name)
  {
    hide Fragment, Zones, ReadFragment, Denies, Permits, Covers, VerdictOf, FallsUnder;
    FragmentReadsBack(lower, printable, rules, Block);
    FragmentReadsBack(lower, printable, rules, Allow);
    forall name
      ensures Declares(Fragment(printable, Zones(lower, rules, Block), Block), " always_nxdomain", name) <==>
                exists i :: 0 <= i < |rules| && Denies(lower, rules[i], name)
      ensures Declares(Fragment(printable, Zones(lower, rules, Allow), Allow), " transparent", name) <==>
                exists i :: 0 <= i < |rules| && Permits(lower, rules[i], name)
    {
      CoveredIff(lower, printable, rules, Block, name);
      CoveredIff(lower, printable, rules, Allow, name);
      forall i | 0 <= i < |rules|
        ensures rules[i].enabled && VerdictOf(lower, rules[i]) == Block && Covers(lower, rules[i], Block, name)
                <==> Denies(lower, rules[i], name)
        ensures rules[i].enabled && VerdictOf(lower, rules[i]) == Allow && Covers(lower, rules[i], Allow, name)
                <==> Permits(lower, rules[i], name)
      {
        BlockWords(lower, rules[i], name);
      }
    }
  }

  /** One rule contributes at most one zone, and rules contribute in their order. */
  lemma {:induction false} ZonesInOrder(lower: char -> char, before: seq<Rule>, after: seq<Rule>, v: Verdict)
    ensures Zones(lower, before + after, v) == Zones(lower, before, v) + Zones(lower, after, v)
    decreases |after|
  {
    hide DnsZone, VerdictOf, HostOf;
    if after == [] {
      assert before + after == before;
    } else {
      var n := |after| - 1;
      ZonesInOrder(lower, before, after[..n], v);
      assert (before + after)[..|before| + n] == before + after[..n];
    }
  }

  /** A wildcard rule blocks its domain and everything below it, spelled with any case and any spaces around it. */
  lemma WildcardBlocks(lower: char -> char, r: Rule, left: string, domain: string, right: string, name: string)
    requires LowerLaws(lower) && r.enabled && Asks(lower, r, {"block", "domain_block", "wildcard_domain_block"})
    requires Blank(left) && Blank(right) && r.target == left + "*." + domain + right
    requires domain != "" && !IsSpace(domain[0]) && !IsSpace(domain[|domain| - 1]) && domain[|domain| - 1] != '.'
    ensures Denies(lower, r, name) <==> IsSuffix(Labels(Lower(lower, domain)), Labels(name))
  {
    hide Unwild, IsSpace, Labels, IsSuffix, Base, LowerLaws, Asks, Lower, Blank;
    WildcardHost(r.target, left, domain, right);
    PlainBase(lower, domain);
  }

  lemma WildcardHost(target: string, left: string, domain: string, right: string)
    requires Blank(left) && Blank(right) && target == left + "*." + domain + right
    requires domain != "" && !IsSpace(domain[|domain| - 1])
    ensures Unwild(target) == domain
  {
    hide TrimSpace, IsSpace, Blank;
    var t := "*." + domain;
    StarIsNoSpace();
    assert target == left + t + right;
    TrimBlank(left, t, right);
    assert t[2..] == domain;
  }

  lemma StarIsNoSpace()
    ensures !IsSpace('*')
  {
  }

  lemma PlainBase(lower: char -> char, name: string)
    requires LowerLaws(lower)
    requires name != "" && !IsSpace(name[0]) && !IsSpace(name[|name| - 1]) && name[|name| - 1] != '.'
    ensures Base(lower, name) == Lower(lower, name)
  {
    hide IsSpace, Base, LowerLaws;
    BaseOf(lower, "", name, "", "");
    assert "" + name + "" + "" == name;
  }

  /** The line of a zone of ordinary characters, in full. */
  lemma {:induction false} PlainEscapes(printable: char -> bool, zone: string)
    requires forall i :: 0 <= i < |zone| ==> ' ' <= zone[i] <= '~' && zone[i] != '"' && zone[i] != '\\'
    ensures EscapeAll(printable, zone) == zone
  {
    if zone != [] {
      PlainEscapes(printable, zone[1..]);
      assert zone == [zone[0]] + zone[1..];
    }
  }

  lemma PlainLine(printable: char -> bool, zone: string)
    requires forall i :: 0 <= i < |zone| ==> ' ' <= zone[i] <= '~' && zone[i] != '"' && zone[i] != '\\'
    ensures Line(printable, zone, Block) == "local-zone: \"" + zone + "\" always_nxdomain"
    ensures Line(printable, zone, Allow) == "local-zone: \"" + zone + "\" transparent"
  {
    hide EscapeAll;
    PlainEscapes(printable, zone);
    assert LEAD + "\"" == "local-zone: \"";
    assert "\"" + Ending(Block) == "\" always_nxdomain" && "\"" + Ending(Allow) == "\" transparent";
    assert Line(printable, zone, Block) == (LEAD + "\"") + zone + ("\"" + Ending(Block));
    assert Line(printable, zone, Allow) == (LEAD + "\"") + zone + ("\"" + Ending(Allow));
  }
}
