/**
 The persisted file character by character: what the printer writes, and exactly which texts the loader takes
 for an address, a number, a cursor line or an entry.
 */
module FakeIpFormat {
  import opened Prelude
  import opened FakeIp
  import opened FakeIpPersist
  import Unicode

  // ---- White space -----------------------------------------------------------------------------

  /** A character is white space exactly if its bytes are, wherever text is read as bytes. */
  lemma SpacesAgree(c: char)
    ensures IsSpace(c) <==> Unicode.IsSpace(Unicode.Encoded(c as int))
  {
  }

  // ---- Numbers and addresses -------------------------------------------------------------------

  lemma {:induction false} LeadingDigitCounts(s: string)
    requires s != "" && s[0] != '0' && DigitsValue(s).Some?
    ensures DigitsValue(s).value > 0
  {
    var front := s[..|s| - 1];
    if front == "" {
      assert DigitsValue(front) == Some(0);
    } else {
      LeadingDigitCounts(front);
    }
  }

  /** Digits without a leading zero are the decimal of their value. */
  lemma {:induction false} DecimalIsUnique(s: string, v: nat)
    requires s != "" && (|s| == 1 || s[0] != '0') && DigitsValue(s) == Some(v)
    ensures s == Decimal(v)
  {
    var front, last := s[..|s| - 1], s[|s| - 1];
    var digit := last as int - '0' as int;
    assert s == front + [last] && last == '0' + digit as char;
    if front == "" {
      assert DigitsValue(front) == Some(0) && s == [last];
    } else {
      var f := DigitsValue(front).value;
      LeadingDigitCounts(front);
      DecimalIsUnique(front, f);
      DivModUnique(v, f, 10, digit);
    }
  }

  /** An octet is taken exactly in its decimal form, without leading zeros, up to 255. */
  lemma OctetExactly(s: string, v: nat)
    ensures ParseOctet(s) == Some(v) <==> v <= 255 && s == Decimal(v)
  {
    if ParseOctet(s) == Some(v) {
      DecimalIsUnique(s, v);
    }
    if v <= 255 && s == Decimal(v) {
      OctetReads(v);
    }
  }

  /** An address is taken exactly in the form it is printed in: four decimals with dots between. */
  lemma IpExactly(s: string, ip: u32)
    ensures ParseIp(s) == Some(ip) <==> s == PrintIp(ip)
    ensures PrintIp(ip) == Decimal(ip / 0x100_0000) + "." + Decimal(ip / 0x1_0000 % 256) + "."
                           + Decimal(ip / 256 % 256) + "." + Decimal(ip % 256)
  {
    IpReads(ip);
    IpDots(ip);
    if ParseIp(s) == Some(ip) {
      var (a, s1) := SplitOnce(s, '.').value;
      var (b, s2) := SplitOnce(s1, '.').value;
      var (c, d) := SplitOnce(s2, '.').value;
      hide SplitOnce, ParseOctet, Decimal;
      var (a', b', c', d') := (ParseOctet(a).value, ParseOctet(b).value, ParseOctet(c).value, ParseOctet(d).value);
      OctetExactly(a, a');
      OctetExactly(b, b');
      OctetExactly(c, c');
      OctetExactly(d, d');
      OctetsSplit(a', b', c', d');
      FourParts(a, b, c, d, s1, s2);
    }
  }

  lemma IpDots(ip: u32)
    ensures PrintIp(ip) == Decimal(ip / 0x100_0000) + "." + Decimal(ip / 0x1_0000 % 256) + "."
                           + Decimal(ip / 256 % 256) + "." + Decimal(ip % 256)
  {
    hide Decimal;
    var a, b := Decimal(ip / 0x100_0000), Decimal(ip / 0x1_0000 % 256);
    var c, d := Decimal(ip / 256 % 256), Decimal(ip % 256);
    FourParts(a, b, c, d, b + ['.'] + (c + ['.'] + d), c + ['.'] + d);
  }

  lemma FourParts(a: string, b: string, c: string, d: string, s1: string, s2: string)
    requires s1 == b + ['.'] + s2 && s2 == c + ['.'] + d
    ensures a + ['.'] + s1 == a + ['.'] + (b + ['.'] + (c + ['.'] + d)) == a + "." + b + "." + c + "." + d
  {
  }

  lemma OctetsSplit(a: nat, b: nat, c: nat, d: nat)
    requires a < 256 && b < 256 && c < 256 && d < 256
    ensures var ip := FromOctets(a, b, c, d);
      ip / 0x100_0000 == a && ip / 0x1_0000 % 256 == b && ip / 256 % 256 == c && ip % 256 == d
  {
    var high := 256 * a + b;
    var ip := 256 * (256 * high + c) + d;
    DivModUnique(ip, 256 * high + c, 256, d);
    DivModUnique(ip, high, 0x1_0000, 256 * c + d);
    DivModUnique(ip, a, 0x100_0000, 0x1_0000 * b + 256 * c + d);
    DivModUnique(256 * high + c, high, 256, c);
    DivModUnique(high, a, 256, b);
  }

  /** The digits 0 to 9 stand for their numbers, each place for ten of the next. */
  lemma DigitPlaces(s: string, c: char)
    ensures DigitsValue("") == Some(0)
    ensures DigitsValue(s + [c])
         == if DigitsValue(s).Some? && c in "0123456789" then
              Some(10 * DigitsValue(s).value + (c as int - 48))
            else None
  {
    assert (s + [c])[..|s|] == s;
  }

  /** A cursor is a decimal number of 32 bits, with leading zeros or not, and perhaps a plus sign before it. */
  lemma U32Exactly(s: string, v: u32)
    ensures ParseU32(s) == Some(v) <==>
      exists digits: string ::
        digits != "" && DigitsValue(digits) == Some(v) && (s == digits || s == "+" + digits)
  {
    if ParseU32(s) == Some(v) {
      var digits := if s[0] == '+' then s[1..] else s;
      assert s == digits || s == "+" + digits;
    }
    if digits: string :| digits != "" && DigitsValue(digits) == Some(v) && (s == digits || s == "+" + digits) {
      FirstIsDigit(digits);
      assert s == "+" + digits ==> s[1..] == digits;
    }
  }

  lemma {:induction false} FirstIsDigit(s: string)
    requires s != "" && DigitsValue(s).Some?
    ensures IsDigit(s[0])
  {
    if |s| > 1 {
      FirstIsDigit(s[..|s| - 1]);
    }
  }

  /** The addresses a line may assign: all but the first two and the last of the range. */
  lemma AssignableExactly(r: Range, ip: u32)
    requires r.Valid()
    ensures Assignable(r, ip) <==> r.network + 2 <= ip <= r.network + r.size - 2
  {
    assert r.network == r.network / r.size * r.size;
    if r.network <= ip < r.network + r.size {
      DivModUnique(ip, r.network / r.size, r.size, ip - r.network);
    }
  }

  // ---- Lines -----------------------------------------------------------------------------------

  /**
   What a line means once white space is trimmed from both ends: nothing if it is empty or a comment, a cursor
   behind the key, and otherwise an entry if an address stands before the first blank and a name behind it.
   */
  lemma LineMeans(r: Range, raw: string)
    requires r.Valid()
    ensures var line := Trim(raw);
      && (line == "" || line[0] == '#' ==> ParseLine(r, raw) == Skipped)
      && ("next_ip=" <= line ==> ParseLine(r, raw) == Cursor(ParseU32(Trim(line[8..]))))
      && (line != "" && line[0] != '#' && !("next_ip=" <= line) ==>
            match ParseLine(r, raw)
            case Cursor(_) => false
            case Entry(ip, domain) => exists name: string ::
              name != "" && domain == Lower(name) && line == PrintIp(ip) + " " + name && Assignable(r, ip)
            case Skipped => forall ip: u32, name: string ::
              name != "" && line == PrintIp(ip) + " " + name ==> !Assignable(r, ip))
  {
    var line := Trim(raw);
    assert CursorKey() == "next_ip=";
    assert "next_ip=" <= line ==> line[0] == "next_ip="[0];
    hide Trim, Assignable, ParseIp, PrintIp, Lower, ParseU32;
    if line != "" && line[0] != '#' && !("next_ip=" <= line) {
      EntryMeans(r, line);
    }
  }

  lemma EntryMeans(r: Range, line: string)
    requires r.Valid()
    ensures match ParseEntry(r, line)
      case Cursor(_) => false
      case Entry(ip, domain) => exists name: string ::
        name != "" && domain == Lower(name) && line == PrintIp(ip) + " " + name && Assignable(r, ip)
      case Skipped => forall ip: u32, name: string ::
        name != "" && line == PrintIp(ip) + " " + name ==> !Assignable(r, ip)
  {
    hide Assignable, ParseIp, PrintIp, Lower, SplitOnce;
    if ParseEntry(r, line).Entry? {
      var (a, b) := SplitOnce(line, ' ').value;
      IpExactly(a, ParseIp(a).value);
    } else {
      forall ip: u32, name: string | name != "" && line == PrintIp(ip) + " " + name
        ensures !Assignable(r, ip)
      {
        IpReads(ip);
        SplitsAtFirst(PrintIp(ip), ' ', name);
      }
    }
  }

  /** The cursor after loading: the last one named if it is in the range and not its last address, else the first. */
  lemma LoadedNext(r: Range, content: string)
    requires r.Valid()
    ensures var last := LastCursor(ParsedLines(r, Lines(content)));
      Loaded(r, content).next
      == if last.Some? && r.network <= last.value <= r.network + r.size - 2 then last.value else r.network + 2
  {
    hide Lines, ParseLine, GatherParsed, LastCursor, CursorAccepted;
    var ps := ParsedLines(r, Lines(content));
    GathersParsed(r, Lines(content));
    GathersLastCursor(ps);
    if LastCursor(ps).Some? {
      AcceptedCursors(r, LastCursor(ps).value);
    }
  }

  // ---- The text --------------------------------------------------------------------------------

  /** A printed file: the comment, the cursor, and a line for each entry in its order. */
  lemma FileText(entries: seq<(string, u32)>, next: u32)
    ensures Print([], next) == "# mirage-rs fake-ip persist v1\nnext_ip=" + Decimal(next) + "\n"
    ensures entries != [] ==>
      var e := entries[|entries| - 1];
      Print(entries, next) == Print(entries[..|entries| - 1], next) + PrintIp(e.1) + " " + e.0 + "\n"
  {
    hide Decimal, PrintIp, PrintEntries;
    var key := CursorKey() + Decimal(next) + ['\n'];
    NoEntries();
    assert Header() + ['\n'] + CursorKey() == "# mirage-rs fake-ip persist v1\nnext_ip=";
    assert Print([], next) == Header() + ['\n'] + CursorKey() + Decimal(next) + ['\n'];
    if entries != [] {
      var front, e := entries[..|entries| - 1], entries[|entries| - 1];
      PrintSnoc(front, e);
      assert entries == front + [e];
      LineAtEnd(Header() + ['\n'], key, PrintEntries(front), PrintIp(e.1), e.0);
    }
  }

  lemma NoEntries()
    ensures PrintEntries([]) == ""
  {
  }

  lemma LineAtEnd(top: string, key: string, front: string, ip: string, name: string)
    ensures top + (key + (front + (ip + [' '] + name) + ['\n'])) == top + (key + front) + ip + " " + name + "\n"
  {
  }
}
