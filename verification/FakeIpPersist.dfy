/**
 The text file the fake-IP mapper persists to: one header comment, the cursor, one line an address. The
 loader is lenient with any text; on what the printer writes it rebuilds the mapper's tables exactly.
 */
module FakeIpPersist {
  import opened Prelude
  import opened FakeIp

  // ---- Text ------------------------------------------------------------------------------------

  /** Unicode's White_Space property. */
  predicate IsSpace(c: char) {
    var n := c as int;
    || 9 <= n <= 13 || n == 0x20 || n == 0x85 || n == 0xA0 || n == 0x1680 || 0x2000 <= n <= 0x200A
    || n == 0x2028 || n == 0x2029 || n == 0x202F || n == 0x205F || n == 0x3000
  }

  function TrimStart(s: string): (t: string)
    ensures t != "" ==> !IsSpace(t[0])
  {
    if s != "" && IsSpace(s[0]) then TrimStart(s[1..]) else s
  }

  function TrimEnd(s: string): (t: string)
    ensures t <= s
    ensures t != "" ==> !IsSpace(t[|t| - 1])
  {
    if s != "" && IsSpace(s[|s| - 1]) then TrimEnd(s[..|s| - 1]) else s
  }

  function Trim(s: string): string {
    TrimEnd(TrimStart(s))
  }

  lemma TrimKeeps(s: string)
    requires s != "" && !IsSpace(s[0]) && !IsSpace(s[|s| - 1])
    ensures Trim(s) == s
  {
  }

  /** The text before and after the first c. */
  function SplitOnce(s: string, c: char): (r: Option<(string, string)>)
    ensures r.None? <==> c !in s
    ensures r.Some? ==> s == r.value.0 + [c] + r.value.1 && c !in r.value.0
  {
    if s == "" then None
    else if s[0] == c then
      assert s == "" + [c] + s[1..];
      Some(("", s[1..]))
    else
      match SplitOnce(s[1..], c)
      case None => None
      case Some((a, b)) =>
        assert s == [s[0]] + a + [c] + b;
        Some(([s[0]] + a, b))
  }

  lemma SplitsAtFirst(a: string, c: char, b: string)
    requires c !in a
    ensures SplitOnce(a + [c] + b, c) == Some((a, b))
  {
    var s := a + [c] + b;
    assert s[|a|] == c;
    var (a', b') := SplitOnce(s, c).value;
    assert s[|a'|] == c;
    assert |a'| == |a|;
    assert a' == s[..|a'|] && b' == s[|a'| + 1..];
    assert a == s[..|a|] && b == s[|a| + 1..];
  }

  function StripCr(s: string): (t: string)
    ensures t <= s
  {
    if s != "" && s[|s| - 1] == '\r' then s[..|s| - 1] else s
  }

  /** Lines end in LF or CR LF; the last line may go without. */
  function Lines(s: string): (ls: seq<string>)
    ensures forall l :: l in ls ==> '\n' !in l
    decreases |s|
  {
    if s == "" then [] else
      match SplitOnce(s, '\n')
      case None => [s]
      case Some((a, b)) =>
        assert |s| == |a| + 1 + |b|;
        [StripCr(a)] + Lines(b)
  }

  // ---- Numbers ---------------------------------------------------------------------------------

  function Decimal(n: nat): (s: string)
    ensures s != ""
  {
    if n < 10 then ['0' + n as char] else Decimal(n / 10) + ['0' + (n % 10) as char]
  }

  predicate IsDigit(c: char) {
    '0' <= c <= '9'
  }

  function DigitsValue(s: string): Option<nat> {
    if s == "" then Some(0) else
      var front, last := DigitsValue(s[..|s| - 1]), s[|s| - 1];
      if front.Some? && IsDigit(last) then Some(10 * front.value + (last as int - '0' as int)) else None
  }

  lemma {:induction false} DecimalReads(n: nat)
    ensures DigitsValue(Decimal(n)) == Some(n)
    ensures forall c :: c in Decimal(n) ==> IsDigit(c)
    ensures n > 0 ==> Decimal(n)[0] != '0'
    ensures |Decimal(n)| > 1 ==> n >= 10
  {
    if n >= 10 {
      DecimalReads(n / 10);
      assert Decimal(n)[..|Decimal(n)| - 1] == Decimal(n / 10);
    } else {
      assert Decimal(n)[..0] == "";
    }
  }

  /** A u32 in decimal, with an optional plus sign. */
  function ParseU32(s: string): Option<u32> {
    var digits := if s != "" && s[0] == '+' then s[1..] else s;
    if digits == "" then None else
      var v :- DigitsValue(digits);
      if v > U32_MAX then None else Some(v)
  }

  function ParseOctet(s: string): (r: Option<nat>)
    ensures r.Some? ==> r.value < 256
  {
    if !(1 <= |s| <= 3) || (|s| > 1 && s[0] == '0') then None else
      var v :- DigitsValue(s);
      if v > 255 then None else Some(v)
  }

  function FromOctets(a: nat, b: nat, c: nat, d: nat): u32
    requires a < 256 && b < 256 && c < 256 && d < 256
  {
    0x100_0000 * a + 0x1_0000 * b + 256 * c + d
  }

  function ParseIp(s: string): Option<u32> {
    var (a, s1) :- SplitOnce(s, '.');
    var (b, s2) :- SplitOnce(s1, '.');
    var (c, d) :- SplitOnce(s2, '.');
    var a' :- ParseOctet(a);
    var b' :- ParseOctet(b);
    var c' :- ParseOctet(c);
    var d' :- ParseOctet(d);
    Some(FromOctets(a', b', c', d'))
  }

  function PrintIp(ip: u32): string {
    Decimal(ip / 0x100_0000) + ['.'] + (Decimal(ip / 0x1_0000 % 256) + ['.']
      + (Decimal(ip / 256 % 256) + ['.'] + Decimal(ip % 256)))
  }

  lemma OctetReads(n: nat)
    requires n < 256
    ensures ParseOctet(Decimal(n)) == Some(n)
    ensures '.' !in Decimal(n) && ' ' !in Decimal(n) && '\n' !in Decimal(n)
    ensures IsDigit(Decimal(n)[0])
  {
    DecimalLength(n);
    hide Decimal, DigitsValue;
    DecimalReads(n);
    assert Decimal(n)[0] in Decimal(n);
  }

  lemma DecimalLength(n: nat)
    requires n < 1000
    ensures |Decimal(n)| <= 3
  {
    assert n / 10 / 10 < 10;
    assert |Decimal(n / 10)| <= 2;
  }

  lemma SplitsInFour(a: string, b: string, c: string, d: string)
    requires '.' !in a && '.' !in b && '.' !in c
    ensures var tail := c + ['.'] + d;
      && SplitOnce(a + ['.'] + (b + ['.'] + tail), '.') == Some((a, b + ['.'] + tail))
      && SplitOnce(b + ['.'] + tail, '.') == Some((b, tail))
      && SplitOnce(tail, '.') == Some((c, d))
  {
    hide SplitOnce;
    SplitsAtFirst(c, '.', d);
    SplitsAtFirst(b, '.', c + ['.'] + d);
    SplitsAtFirst(a, '.', b + ['.'] + (c + ['.'] + d));
  }

  lemma OctetsJoin(ip: u32)
    ensures FromOctets(ip / 0x100_0000, ip / 0x1_0000 % 256, ip / 256 % 256, ip % 256) == ip
  {
    assert ip == 256 * (ip / 256) + ip % 256;
    assert ip / 256 == 256 * (ip / 256 / 256) + ip / 256 % 256;
    assert ip / 256 / 256 == 256 * (ip / 256 / 256 / 256) + ip / 256 / 256 % 256;
    assert ip / 0x1_0000 == ip / 256 / 256 && ip / 0x100_0000 == ip / 256 / 256 / 256;
  }

  lemma IpReads(ip: u32)
    ensures ParseIp(PrintIp(ip)) == Some(ip)
    ensures ' ' !in PrintIp(ip) && '\n' !in PrintIp(ip) && PrintIp(ip) != "" && IsDigit(PrintIp(ip)[0])
  {
    hide Decimal, ParseOctet, SplitOnce, FromOctets, IsDigit;
    var a, b, c, d := ip / 0x100_0000, ip / 0x1_0000 % 256, ip / 256 % 256, ip % 256;
    OctetReads(a);
    OctetReads(b);
    OctetReads(c);
    OctetReads(d);
    SplitsInFour(Decimal(a), Decimal(b), Decimal(c), Decimal(d));
    OctetsJoin(ip);
    assert PrintIp(ip)[0] == Decimal(a)[0];
  }

  // ---- Loading ---------------------------------------------------------------------------------

  function CursorKey(): (s: string)
    ensures |s| == 8 && s[0] == 'n' && '\n' !in s
  {
    "next_ip="
  }

  /** What the loader has gathered: both maps, and the cursor of the last cursor line. */
  datatype Gathered = Gathered(d2i: map<string, u32>, i2d: map<u32, string>, next: Option<u32>)

  datatype Line = Skipped | Cursor(next: Option<u32>) | Entry(ip: u32, domain: string)

  predicate Assignable(r: Range, ip: u32)
    requires r.Valid()
  {
    r.Contains(ip) && 2 <= ip % r.size != r.size - 1
  }

  function ParseEntry(r: Range, line: string): Line
    requires r.Valid()
  {
    match SplitOnce(line, ' ')
    case None => Skipped
    case Some((a, b)) =>
      if b == "" || ParseIp(a).None? || !Assignable(r, ParseIp(a).value) then Skipped
      else Entry(ParseIp(a).value, Lower(b))
  }

  function ParseLine(r: Range, raw: string): Line
    requires r.Valid()
  {
    var line := Trim(raw);
    if line == "" || line[0] == '#' then Skipped
    else if CursorKey() <= line then Cursor(ParseU32(Trim(line[|CursorKey()|..])))
    else ParseEntry(r, line)
  }

  function Gather(g: Gathered, line: Line): Gathered {
    match line
    case Skipped => g
    case Cursor(next) => g.(next := next)
    case Entry(ip, domain) => g.(d2i := g.d2i[domain := ip], i2d := g.i2d[ip := domain])
  }

  function GatherAll(r: Range, g: Gathered, lines: seq<string>): Gathered
    requires r.Valid()
  {
    if lines == [] then g else Gather(GatherAll(r, g, lines[..|lines| - 1]), ParseLine(r, lines[|lines| - 1]))
  }

  predicate CursorAccepted(r: Range, next: u32)
    requires r.Valid()
  {
    r.Contains(next) && next % r.size != r.size - 1
  }

  lemma AcceptedCursors(r: Range, next: u32)
    requires r.Valid()
    ensures CursorAccepted(r, next) <==> r.network <= next < r.network + r.size - 1
  {
    assert r.network == r.network / r.size * r.size;
    if r.network <= next < r.network + r.size {
      DivModUnique(next, r.network / r.size, r.size, next - r.network);
    }
  }

  /** The tables of a mapper that starts from a file. */
  function Loaded(r: Range, content: string): Tables
    requires r.Valid()
  {
    var g := GatherAll(r, Gathered(map[], map[], None), Lines(content));
    Tables(
      if g.next.Some? && CursorAccepted(r, g.next.value) then g.next.value else r.network + 2,
      g.d2i, g.i2d)
  }

  method Load(m: FakeIpMapper, content: string)
    requires m.Valid() && m.State() == Empty(m.range)
    modifies m
    ensures m.Valid() && m.State() == Loaded(m.range, content) && m.dirty == old(m.dirty)
  {
    hide Lines, ParseLine, CursorAccepted;
    var lines := Lines(content);
    var loadedNext: Option<u32> := None;
    for i := 0 to |lines|
      invariant m.nextIp == m.range.network + 2 && m.dirty == old(m.dirty)
      invariant Gathered(m.domainToIp, m.ipToDomain, loadedNext)
             == GatherAll(m.range, Gathered(map[], map[], None), lines[..i])
    {
      assert lines[..i + 1][..i] == lines[..i];
      match ParseLine(m.range, lines[i]) {
        case Skipped =>
        case Cursor(next) =>
          loadedNext := next;
        case Entry(ip, domain) =>
          m.domainToIp := m.domainToIp[domain := ip];
          m.ipToDomain := m.ipToDomain[ip := domain];
      }
    }
    assert lines[..|lines|] == lines;
    if loadedNext.Some? && CursorAccepted(m.range, loadedNext.value) {
      AcceptedCursors(m.range, loadedNext.value);
      m.nextIp := loadedNext.value;
    }
  }

  // ---- Printing --------------------------------------------------------------------------------

  function Header(): (s: string)
    ensures s != "" && s[0] == '#' && s[|s| - 1] == '1' && '\n' !in s
  {
    "# mirage-rs fake-ip persist v1"
  }

  function EntryLine(e: (string, u32)): string {
    PrintIp(e.1) + [' '] + e.0
  }

  function PrintEntries(entries: seq<(string, u32)>): string {
    if entries == [] then "" else EntryLine(entries[0]) + ['\n'] + PrintEntries(entries[1..])
  }

  function Print(entries: seq<(string, u32)>, next: u32): string {
    Header() + ['\n'] + (CursorKey() + Decimal(next) + ['\n'] + PrintEntries(entries))
  }

  lemma {:induction false} PrintSnoc(entries: seq<(string, u32)>, e: (string, u32))
    ensures PrintEntries(entries + [e]) == PrintEntries(entries) + EntryLine(e) + ['\n']
  {
    hide EntryLine;
    if entries == [] {
      assert PrintEntries([]) == "" && (entries + [e])[1..] == [];
      assert EntryLine(e) + ['\n'] + "" == "" + EntryLine(e) + ['\n'];
    } else {
      PrintSnoc(entries[1..], e);
      assert (entries + [e])[1..] == entries[1..] + [e];
      var head, mid := EntryLine(entries[0]) + ['\n'], PrintEntries(entries[1..]);
      AppendAssociates(head, mid + EntryLine(e), ['\n']);
      AppendAssociates(head, mid, EntryLine(e));
    }
  }

  method Format(snapshot: seq<(string, u32)>, next: u32) returns (out: string)
    ensures out == Print(snapshot, next)
  {
    hide Header, CursorKey, Decimal, EntryLine;
    out := Header() + ['\n'];
    out := out + (CursorKey() + Decimal(next) + ['\n']);
    ghost var top := out;
    for i := 0 to |snapshot|
      invariant out == top + PrintEntries(snapshot[..i])
    {
      out := out + (EntryLine(snapshot[i]) + ['\n']);
      PrintSnoc(snapshot[..i], snapshot[i]);
      assert snapshot[..i + 1] == snapshot[..i] + [snapshot[i]];
    }
    assert snapshot[..|snapshot|] == snapshot;
  }

  // ---- Round trip ------------------------------------------------------------------------------

  /** A domain that a line can carry: nonempty, no line feed, no space at its end. */
  predicate CanStand(d: string) {
    d != "" && '\n' !in d && !IsSpace(d[|d| - 1])
  }

  /** The domains that a line carries unchanged: what the loader reads is in lower case. */
  predicate Kept(d: string) {
    CanStand(d) && Lower(d) == d
  }

  lemma LinesCons(line: string, rest: string)
    requires '\n' !in line && StripCr(line) == line
    ensures Lines(line + ['\n'] + rest) == [line] + Lines(rest)
  {
    SplitsAtFirst(line, '\n', rest);
  }

  lemma EntryReads(r: Range, e: (string, u32))
    requires r.Valid() && Kept(e.0) && Assignable(r, e.1)
    ensures '\n' !in EntryLine(e) && StripCr(EntryLine(e)) == EntryLine(e)
    ensures ParseLine(r, EntryLine(e)) == Entry(e.1, e.0)
  {
    hide PrintIp, ParseIp, CursorKey, SplitOnce, Trim, Assignable, Lower;
    var line := EntryLine(e);
    IpReads(e.1);
    assert line[0] == PrintIp(e.1)[0] && line[|line| - 1] == e.0[|e.0| - 1];
    TrimKeeps(line);
    SplitsAtFirst(PrintIp(e.1), ' ', e.0);
    assert !(CursorKey() <= line) by { assert CursorKey()[0] != line[0]; }
  }

  lemma DecimalParses(n: u32)
    ensures ParseU32(Decimal(n)) == Some(n) && Trim(Decimal(n)) == Decimal(n)
    ensures '\n' !in Decimal(n) && !IsSpace(Decimal(n)[|Decimal(n)| - 1])
  {
    hide Decimal, DigitsValue, Trim;
    var s := Decimal(n);
    DecimalReads(n);
    assert s[0] in s && s[|s| - 1] in s;
    TrimKeeps(s);
  }

  lemma CursorReads(r: Range, next: u32)
    requires r.Valid()
    ensures '\n' !in CursorKey() + Decimal(next) && StripCr(CursorKey() + Decimal(next)) == CursorKey() + Decimal(next)
    ensures ParseLine(r, CursorKey() + Decimal(next)) == Cursor(Some(next))
  {
    hide CursorKey, Decimal, ParseU32, Trim, ParseEntry;
    var line := CursorKey() + Decimal(next);
    DecimalParses(next);
    assert line[0] == 'n' && line[|line| - 1] == Decimal(next)[|Decimal(next)| - 1];
    TrimKeeps(line);
    assert line[|CursorKey()|..] == Decimal(next);
  }

  ghost predicate Readable(r: Range, entries: seq<(string, u32)>)
    requires r.Valid()
  {
    forall e :: e in entries ==> Kept(e.0) && Assignable(r, e.1)
  }

  function InsertAll(g: Gathered, entries: seq<(string, u32)>): Gathered {
    if entries == [] then g else
      var (d, ip) := entries[|entries| - 1];
      Gather(InsertAll(g, entries[..|entries| - 1]), Entry(ip, d))
  }

  lemma NoLines()
    ensures Lines("") == []
  {
  }

  function EntryLines(entries: seq<(string, u32)>): seq<string> {
    seq(|entries|, i requires 0 <= i < |entries| => EntryLine(entries[i]))
  }

  lemma {:induction false} LinesOfEntries(r: Range, entries: seq<(string, u32)>)
    requires r.Valid() && Readable(r, entries)
    ensures Lines(PrintEntries(entries)) == EntryLines(entries)
  {
    hide EntryLine, ParseLine, Lines, StripCr;
    if entries == [] {
      NoLines();
    } else {
      EntryReads(r, entries[0]);
      LinesCons(EntryLine(entries[0]), PrintEntries(entries[1..]));
      LinesOfEntries(r, entries[1..]);
      assert EntryLines(entries) == [EntryLine(entries[0])] + EntryLines(entries[1..]);
    }
  }

  lemma {:induction false} GatherEntries(r: Range, g: Gathered, before: seq<string>, entries: seq<(string, u32)>)
    requires r.Valid() && Readable(r, entries) && GatherAll(r, Gathered(map[], map[], None), before) == g
    ensures GatherAll(r, Gathered(map[], map[], None), before + EntryLines(entries)) == InsertAll(g, entries)
    decreases |entries|
  {
    hide EntryLine, ParseLine;
    var lines := before + EntryLines(entries);
    if entries == [] {
      assert lines == before;
    } else {
      var front, last := entries[..|entries| - 1], entries[|entries| - 1];
      GatherEntries(r, g, before, front);
      EntryReads(r, last);
      assert lines[..|lines| - 1] == before + EntryLines(front);
      assert lines[|lines| - 1] == EntryLine(last);
    }
  }

  /** A printed file loads as its entries, inserted in their order, and its cursor. */
  lemma LoadedPrint(r: Range, entries: seq<(string, u32)>, next: u32)
    requires r.Valid() && Readable(r, entries) && CursorAccepted(r, next)
    ensures var g := InsertAll(Gathered(map[], map[], Some(next)), entries);
      Loaded(r, Print(entries, next)) == Tables(next, g.d2i, g.i2d) && g.next == Some(next)
  {
    hide Header, CursorKey, Decimal, ParseLine, Lines, EntryLine, PrintEntries, InsertAll;
    var top := [Header(), CursorKey() + Decimal(next)];
    var none := Gathered(map[], map[], None);
    CursorReads(r, next);
    LinesCons(CursorKey() + Decimal(next), PrintEntries(entries));
    LinesCons(Header(), CursorKey() + Decimal(next) + ['\n'] + PrintEntries(entries));
    LinesOfEntries(r, entries);
    assert Lines(Print(entries, next)) == top + EntryLines(entries);
    HeaderSkipped(r);
    var one: seq<string> := [Header()];
    assert top[..1] == one && one[..0] == [];
    assert GatherAll(r, none, [Header()]) == none;
    assert GatherAll(r, none, top) == none.(next := Some(next));
    GatherEntries(r, none.(next := Some(next)), top, entries);
    CursorStays(none.(next := Some(next)), entries);
  }

  lemma HeaderSkipped(r: Range)
    requires r.Valid()
    ensures ParseLine(r, Header()) == Skipped
  {
    hide Header;
    TrimKeeps(Header());
  }

  lemma {:induction false} CursorStays(g: Gathered, entries: seq<(string, u32)>)
    ensures InsertAll(g, entries).next == g.next
  {
    if entries != [] {
      CursorStays(g, entries[..|entries| - 1]);
    }
  }

  /** The entries in the order the hash map happens to give them. */
  ghost predicate Enumerates(entries: seq<(string, u32)>, m: map<string, u32>) {
    && (forall e :: e in entries ==> e.0 in m && m[e.0] == e.1)
    && (forall d :: d in m ==> (d, m[d]) in entries)
  }

  lemma {:induction false} InsertsEnumeration(t: Tables, g: Gathered, entries: seq<(string, u32)>)
    requires Inverse(t) && g.d2i == map[] && g.i2d == map[]
    requires forall e :: e in entries ==> e.0 in t.d2i && t.d2i[e.0] == e.1
    ensures var h := InsertAll(g, entries);
      && (forall d :: d in h.d2i <==> d in t.d2i && (d, t.d2i[d]) in entries)
      && (forall d :: d in h.d2i ==> h.d2i[d] == t.d2i[d])
      && (forall ip :: ip in h.i2d <==> ip in t.i2d && (t.i2d[ip], ip) in entries)
      && (forall ip :: ip in h.i2d ==> h.i2d[ip] == t.i2d[ip])
  {
    if entries != [] {
      var front, last := entries[..|entries| - 1], entries[|entries| - 1];
      assert entries == front + [last];
      InsertsEnumeration(t, g, front);
    }
  }

  /** Whatever the file, the loaded domains are ones a line can carry and the addresses are assignable. */
  lemma LoadedAreKept(r: Range, content: string)
    requires r.Valid()
    ensures var t := Loaded(r, content);
      && (forall d :: d in t.d2i ==> Kept(d) && Assignable(r, t.d2i[d]))
      && (forall ip :: ip in t.i2d ==> Assignable(r, ip) && Kept(t.i2d[ip]))
  {
    GatheredAreKept(r, Lines(content));
  }

  lemma {:induction false} GatheredAreKept(r: Range, lines: seq<string>)
    requires r.Valid() && forall l :: l in lines ==> '\n' !in l
    ensures var g := GatherAll(r, Gathered(map[], map[], None), lines);
      && (forall d :: d in g.d2i ==> Kept(d) && Assignable(r, g.d2i[d]))
      && (forall ip :: ip in g.i2d ==> Assignable(r, ip) && Kept(g.i2d[ip]))
  {
    hide ParseLine, Kept, Assignable;
    if lines != [] {
      GatheredAreKept(r, lines[..|lines| - 1]);
      EntriesAreKept(r, lines[|lines| - 1]);
    }
  }

  lemma {:induction false} TrimStartIsSuffix(s: string)
    ensures exists i: nat :: i <= |s| && TrimStart(s) == s[i..]
  {
    if s != "" && IsSpace(s[0]) {
      TrimStartIsSuffix(s[1..]);
      var i: nat :| i <= |s[1..]| && TrimStart(s[1..]) == s[1..][i..];
      assert s[1..][i..] == s[i + 1..];
    } else {
      assert s[0..] == s;
    }
  }

  lemma EntriesAreKept(r: Range, raw: string)
    requires r.Valid() && '\n' !in raw
    ensures var line := ParseLine(r, raw);
      line.Entry? ==> Kept(line.domain) && Assignable(r, line.ip)
  {
    var line := Trim(raw);
    TrimStartIsSuffix(raw);
    assert '\n' !in TrimStart(raw) && '\n' !in line;
    if SplitOnce(line, ' ').Some? {
      var (a, b) := SplitOnce(line, ' ').value;
      if b != "" {
        assert line[|line| - 1] == b[|b| - 1];
        assert forall i | 0 <= i < |b| :: b[i] == line[|a| + 1 + i];
        LowerKeeps(b);
      }
    }
  }

  lemma LowerKeeps(b: string)
    requires b != "" && '\n' !in b && !IsSpace(b[|b| - 1])
    ensures Kept(Lower(b))
  {
    var l := Lower(b);
    forall i | 0 <= i < |b|
      ensures l[i] != '\n' && LowerChar(l[i]) == l[i] && (IsSpace(l[i]) <==> IsSpace(b[i]))
    {
      assert l[i] == LowerChar(b[i]);
    }
    assert Lower(l) == l;
  }

  /** Tables the mapper can hold: inverse maps, addresses and cursor in the usable range, domains lowered. */
  ghost predicate WellFormed(r: Range, t: Tables)
    requires r.Valid()
  {
    && Inverse(t)
    && r.network + 2 <= t.next <= r.network + r.size - 2
    && (forall ip :: ip in t.i2d ==> r.network + 2 <= ip <= r.network + r.size - 2)
    && (forall d :: d in t.d2i ==> Lower(d) == d)
  }

  /** Every domain is one a line can carry. */
  predicate Writable(t: Tables) {
    forall d :: d in t.d2i ==> CanStand(d)
  }

  /** The entries of tables that can be written load as the same two maps, whatever cursor goes with them. */
  lemma LoadInvertsPrint(r: Range, t: Tables, entries: seq<(string, u32)>, next: u32)
    requires r.Valid() && WellFormed(r, t) && Enumerates(entries, t.d2i)
    requires r.network + 2 <= next <= r.network + r.size - 2
    ensures Loaded(r, Print(entries, next)) == t.(next := next) <==> Writable(t)
  {
    hide Loaded, Print, InsertAll, Assignable, CursorAccepted;
    if Writable(t) {
      forall e | e in entries
        ensures Kept(e.0) && Assignable(r, e.1)
      {
        InRangeIsAssignable(r, e.1);
      }
      InRangeIsAssignable(r, next);
      LoadedPrint(r, entries, next);
      var start := Gathered(map[], map[], Some(next));
      InsertsEnumeration(t, start, entries);
      assert InsertAll(start, entries).d2i == t.d2i;
      assert InsertAll(start, entries).i2d == t.i2d;
    } else {
      LoadedAreKept(r, Print(entries, next));
    }
  }

  /**
   After every run, loading what a flush prints gives back the very tables, for every enumeration of the
   map, exactly when each domain is one a line can carry.
   */
  lemma RestartResumes(r: Range, ops: seq<Op>, entries: seq<(string, u32)>)
    requires r.Valid() && Enumerates(entries, Run(r, ops).0.d2i)
    ensures WellFormed(r, Run(r, ops).0)
    ensures var t := Run(r, ops).0; Loaded(r, Print(entries, t.next)) == t <==> Writable(t)
  {
    hide Loaded, Print;
    var t := Run(r, ops).0;
    MapsStayInverse(r, ops);
    RunIsWindow(r, ops);
    SlotStep(r, |Run(r, ops).1|);
    forall d | d in t.d2i
      ensures Lower(d) == d
    {
      DomainsAreLower(r, ops, d);
    }
    LoadInvertsPrint(r, t, entries, t.next);
  }

  lemma {:induction false} DomainsAreLower(r: Range, ops: seq<Op>, d: string)
    requires r.Valid() && d in Run(r, ops).0.d2i
    ensures Lower(d) == d
  {
    var before := ops[..|ops| - 1];
    var t := Run(r, before).0;
    if d in t.d2i {
      DomainsAreLower(r, before, d);
    } else {
      var name := ops[|ops| - 1].name;
      LowerTwice(name);
    }
  }

  lemma InRangeIsAssignable(r: Range, ip: u32)
    requires r.Valid() && r.network + 2 <= ip <= r.network + r.size - 2
    ensures Assignable(r, ip) && CursorAccepted(r, ip)
  {
    assert r.network == r.network / r.size * r.size;
    DivModUnique(ip, r.network / r.size, r.size, ip - r.network);
  }

  /** A file that loads as maps that are not inverse: one domain at two addresses leaves a stale reverse entry. */
  lemma RepeatedDomainBreaksInverse(r: Range, d: string, a: u32, b: u32, next: u32)
    requires r.Valid() && Kept(d) && a != b && Assignable(r, a) && Assignable(r, b) && CursorAccepted(r, next)
    ensures !Inverse(Loaded(r, Print([(d, a), (d, b)], next)))
  {
    hide Loaded, Print, InsertAll;
    var entries: seq<(string, u32)> := [(d, a), (d, b)];
    LoadedPrint(r, entries, next);
    var g := Gathered(map[], map[], Some(next));
    InsertsTwo(g, (d, a), (d, b));
    var t := Loaded(r, Print(entries, next));
    assert a in t.i2d && t.i2d[a] == d && t.d2i[d] == b;
  }

  // ---- Any file --------------------------------------------------------------------------------

  function ParsedLines(r: Range, lines: seq<string>): (ps: seq<Line>)
    requires r.Valid()
    ensures |ps| == |lines|
  {
    seq(|lines|, i requires 0 <= i < |lines| => ParseLine(r, lines[i]))
  }

  function GatherParsed(ps: seq<Line>): Gathered {
    if ps == [] then Gathered(map[], map[], None) else Gather(GatherParsed(ps[..|ps| - 1]), ps[|ps| - 1])
  }

  lemma {:induction false} GathersParsed(r: Range, lines: seq<string>)
    requires r.Valid()
    ensures GatherAll(r, Gathered(map[], map[], None), lines) == GatherParsed(ParsedLines(r, lines))
  {
    hide ParseLine;
    if lines != [] {
      var front := lines[..|lines| - 1];
      GathersParsed(r, front);
      assert ParsedLines(r, lines)[..|front|] == ParsedLines(r, front);
    }
  }

  /** Line i is the last entry of its domain. */
  predicate LastOfDomain(ps: seq<Line>, i: nat) {
    && i < |ps| && ps[i].Entry?
    && forall j :: i < j < |ps| && ps[j].Entry? ==> ps[j].domain != ps[i].domain
  }

  /** Line i is the last entry of its address. */
  predicate LastOfAddress(ps: seq<Line>, i: nat) {
    && i < |ps| && ps[i].Entry?
    && forall j :: i < j < |ps| && ps[j].Entry? ==> ps[j].ip != ps[i].ip
  }

  lemma {:induction false} LastEntriesStand(ps: seq<Line>, i: nat)
    ensures var d2i := GatherParsed(ps).d2i;
      LastOfDomain(ps, i) ==> ps[i].domain in d2i && d2i[ps[i].domain] == ps[i].ip
    ensures var i2d := GatherParsed(ps).i2d;
      LastOfAddress(ps, i) ==> ps[i].ip in i2d && i2d[ps[i].ip] == ps[i].domain
  {
    if i < |ps| - 1 {
      LastEntriesStand(ps[..|ps| - 1], i);
    }
  }

  lemma {:induction false} DomainHasLast(ps: seq<Line>, d: string) returns (i: nat)
    requires d in GatherParsed(ps).d2i
    ensures LastOfDomain(ps, i) && ps[i].domain == d
  {
    var n := |ps| - 1;
    if ps[n].Entry? && ps[n].domain == d {
      i := n;
    } else {
      i := DomainHasLast(ps[..n], d);
    }
  }

  lemma {:induction false} AddressHasLast(ps: seq<Line>, ip: u32) returns (i: nat)
    requires ip in GatherParsed(ps).i2d
    ensures LastOfAddress(ps, i) && ps[i].ip == ip
  {
    var n := |ps| - 1;
    if ps[n].Entry? && ps[n].ip == ip {
      i := n;
    } else {
      i := AddressHasLast(ps[..n], ip);
    }
  }

  /** A line is the last entry of its domain exactly if it is the last of its address. */
  predicate LastsCoincide(ps: seq<Line>) {
    forall i: nat :: i < |ps| ==> (LastOfDomain(ps, i) <==> LastOfAddress(ps, i))
  }

  lemma LastsAgree(ps: seq<Line>, t: Tables, i: nat)
    requires t.d2i == GatherParsed(ps).d2i && t.i2d == GatherParsed(ps).i2d && Inverse(t)
    ensures LastOfDomain(ps, i) <==> LastOfAddress(ps, i)
  {
    hide GatherParsed;
    LastEntriesStand(ps, i);
    if LastOfDomain(ps, i) {
      var j := AddressHasLast(ps, ps[i].ip);
      LastEntriesStand(ps, j);
      assert ps[j].domain == ps[i].domain;
    }
    if LastOfAddress(ps, i) {
      var j := DomainHasLast(ps, ps[i].domain);
      LastEntriesStand(ps, j);
      assert ps[j].ip == ps[i].ip;
    }
  }

  lemma AgreementIsInverse(ps: seq<Line>, t: Tables)
    requires t.d2i == GatherParsed(ps).d2i && t.i2d == GatherParsed(ps).i2d
    requires LastsCoincide(ps)
    ensures Inverse(t)
  {
    hide GatherParsed;
    forall d | d in t.d2i
      ensures t.d2i[d] in t.i2d && t.i2d[t.d2i[d]] == d
    {
      var i := DomainHasLast(ps, d);
      LastEntriesStand(ps, i);
    }
    forall ip | ip in t.i2d
      ensures t.i2d[ip] in t.d2i && t.d2i[t.i2d[ip]] == ip
    {
      var i := AddressHasLast(ps, ip);
      LastEntriesStand(ps, i);
    }
  }

  lemma InverseIsAgreement(ps: seq<Line>, t: Tables)
    requires t.d2i == GatherParsed(ps).d2i && t.i2d == GatherParsed(ps).i2d && Inverse(t)
    ensures LastsCoincide(ps)
  {
    hide GatherParsed, Inverse, LastOfDomain, LastOfAddress;
    forall i: nat | i < |ps|
      ensures LastOfDomain(ps, i) <==> LastOfAddress(ps, i)
    {
      LastsAgree(ps, t, i);
    }
  }

  /** Any file at all loads as inverse maps exactly if the last lines of its domains and of its addresses coincide. */
  lemma LoadsInverseExactly(r: Range, content: string)
    requires r.Valid()
    ensures Inverse(Loaded(r, content)) <==> LastsCoincide(ParsedLines(r, Lines(content)))
  {
    hide Lines, ParseLine, GatherParsed, LastsCoincide, Inverse;
    var ps, t := ParsedLines(r, Lines(content)), Loaded(r, content);
    GathersParsed(r, Lines(content));
    if Inverse(t) {
      InverseIsAgreement(ps, t);
    }
    if LastsCoincide(ps) {
      AgreementIsInverse(ps, t);
    }
  }

  /** The value of the last cursor line; None if it has none, or there is no such line. */
  function LastCursor(ps: seq<Line>): Option<u32> {
    if ps == [] then None
    else if ps[|ps| - 1].Cursor? then ps[|ps| - 1].next
    else LastCursor(ps[..|ps| - 1])
  }

  lemma {:induction false} GathersLastCursor(ps: seq<Line>)
    ensures GatherParsed(ps).next == LastCursor(ps)
  {
    if ps != [] {
      GathersLastCursor(ps[..|ps| - 1]);
    }
  }

  /**
   Whatever the file, the first address handed out after loading it is one of those the mapper may hand out,
   exactly unless its last cursor line names one of the two reserved addresses: the check lets these through
   and refuses what lies outside and the broadcast.
   */
  lemma LoadedCursor(r: Range, content: string, domain: string)
    requires r.Valid() && domain !in Loaded(r, content).d2i
    ensures var t := Loaded(r, content); var last := LastCursor(ParsedLines(r, Lines(content)));
      && t.next < U32_MAX
      && (Assignable(r, Assign(r, t, domain).1) <==> last != Some(r.network) && last != Some(r.network + 1))
  {
    hide Lines, ParseLine, GatherParsed, LastCursor, CursorAccepted;
    var ps, t := ParsedLines(r, Lines(content)), Loaded(r, content);
    GathersParsed(r, Lines(content));
    GathersLastCursor(ps);
    var last := LastCursor(ps);
    if last.Some? {
      AcceptedCursors(r, last.value);
    }
    assert r.network <= t.next < r.network + r.size - 1;
    assert r.network == r.network / r.size * r.size;
    DivModUnique(t.next, r.network / r.size, r.size, t.next - r.network);
  }

  lemma InsertsTwo(g: Gathered, e: (string, u32), f: (string, u32))
    ensures InsertAll(g, [e, f]) == Gather(Gather(g, Entry(e.1, e.0)), Entry(f.1, f.0))
  {
    var one: seq<(string, u32)> := [e];
    assert [e, f][..1] == one && one[..0] == [];
    assert InsertAll(g, one) == Gather(g, Entry(e.1, e.0));
  }
}
