/**
 The three loops that parse a geosite file, down to its rules: what they return for any file that encodes a
 list of entries, unknown fields and repeated codes included.
 */
module GeoSiteFile {
  import opened Prelude
  import opened Bytes
  import opened GeoSite
  import opened Protobuf
  import opened Unicode

  /** The regular expression compiler: None where it refuses the text. */
  type Compiler = seq<byte> -> Option<Pattern>

  // ---- Rules -----------------------------------------------------------------------------------

  datatype RuleState = RuleState(kind: nat, value: seq<byte>)

  function RuleStep(s: RuleState, f: Field): RuleState {
    if f.VarintField? && f.num == 1 then s.(kind := f.value)
    else if f.Delimited? && f.num == 2 then s.(value := Normal(Lossy(f.data)))
    else s
  }

  function RuleOf(compile: Compiler, s: RuleState): Option<SiteDomain> {
    if s.value == [] then None
    else if s.kind == 0 then Some(Keyword(s.value))
    else if s.kind == 1 then Some(Regex(s.value, compile(s.value)))
    else if s.kind == 3 then Some(Exact(s.value))
    else Some(Suffix(s.value))
  }

  function ParsedRule(compile: Compiler, b: seq<byte>): Option<SiteDomain> {
    var s :- Scan(b, 0, RuleState(0, []), RuleStep, true);
    RuleOf(compile, s)
  }

  method ParseDomainMsg(compile: Compiler, b: seq<byte>) returns (r: Option<SiteDomain>)
    ensures r == ParsedRule(compile, b)
  {
    hide Varint, LenDelim, Normal, Lossy;
    var pos: nat := 0;
    var kind, value: seq<byte> := 0, [];
    while pos < |b|
      invariant Scan(b, 0, RuleState(0, []), RuleStep, true) == Scan(b, pos, RuleState(kind, value), RuleStep, true)
      decreases |b| - pos
    {
      var tag := ReadVarint(b, pos);
      if tag.None? {
        return None;
      }
      var num, wire := tag.value.0 / 8, tag.value.0 % 8;
      var p := tag.value.1;
      if wire == 0 {
        var v := ReadVarint(b, p);
        if v.None? {
          return None;
        }
        if num == 1 {
          kind := v.value.0;
        }
        pos := v.value.1;
      } else if wire == 2 {
        var data := ReadLenDelim(b, p);
        if data.None? {
          return None;
        }
        if num == 2 {
          value := Normal(Lossy(data.value.0));
        }
        pos := data.value.1;
      } else if wire == 1 {
        if p + 8 > |b| {
          break;
        }
        pos := p + 8;
      } else if wire == 5 {
        if p + 4 > |b| {
          break;
        }
        pos := p + 4;
      } else {
        break;
      }
    }
    r := RuleOf(compile, RuleState(kind, value));
  }

  // ---- Entries ---------------------------------------------------------------------------------

  function UpperByte(b: byte): byte {
    if 97 <= b <= 122 then b - 32 else b
  }

  function CodeOf(data: seq<byte>): seq<byte> {
    var t := TrimSpaces(Lossy(data));
    seq(|t|, i requires 0 <= i < |t| => UpperByte(t[i]))
  }

  /** A code is the text without white space at its ends, its letters as capitals. */
  lemma CodeIs(data: seq<byte>)
    ensures var c := CodeOf(data);
      SameLetterBytes(c, TrimSpaces(Lossy(data))) && forall i :: 0 <= i < |c| ==> !(97 <= c[i] <= 122)
  {
    hide TrimSpaces, Lossy;
  }

  datatype EntryState = EntryState(code: seq<byte>, rules: seq<SiteDomain>)

  function EntryStep(compile: Compiler): (EntryState, Field) -> EntryState {
    (s: EntryState, f: Field) =>
      if f.Delimited? && f.num == 1 then s.(code := CodeOf(f.data))
      else if f.Delimited? && f.num == 2 then s.(rules := s.rules + Optional(ParsedRule(compile, f.data)))
      else s
  }

  function ParsedEntry(compile: Compiler, b: seq<byte>): Option<EntryState> {
    var s :- Scan(b, 0, EntryState([], []), EntryStep(compile), true);
    if s.code == [] then None else Some(s)
  }

  method ParseGeositeEntry(compile: Compiler, b: seq<byte>) returns (r: Option<EntryState>)
    ensures r == ParsedEntry(compile, b)
  {
    hide Varint, LenDelim, CodeOf, ParsedRule;
    var pos: nat := 0;
    var code: seq<byte>, rules: seq<SiteDomain> := [], [];
    ghost var step := EntryStep(compile);
    while pos < |b|
      invariant Scan(b, 0, EntryState([], []), step, true) == Scan(b, pos, EntryState(code, rules), step, true)
      decreases |b| - pos
    {
      var tag := ReadVarint(b, pos);
      if tag.None? {
        return None;
      }
      var num, wire := tag.value.0 / 8, tag.value.0 % 8;
      var p := tag.value.1;
      if wire == 2 {
        var data := ReadLenDelim(b, p);
        if data.None? {
          return None;
        }
        if num == 1 {
          code := CodeOf(data.value.0);
        } else if num == 2 {
          var rule := ParseDomainMsg(compile, data.value.0);
          assert rules + Optional(rule) == if rule.None? then rules else rules + [rule.value];
          if rule.Some? {
            rules := rules + [rule.value];
          }
        }
        pos := data.value.1;
      } else if wire == 0 {
        var v := ReadVarint(b, p);
        if v.None? {
          return None;
        }
        pos := v.value.1;
      } else if wire == 1 {
        if p + 8 > |b| {
          break;
        }
        pos := p + 8;
      } else if wire == 5 {
        if p + 4 > |b| {
          break;
        }
        pos := p + 4;
      } else {
        break;
      }
    }
    r := if code == [] then None else Some(EntryState(code, rules));
  }

  // ---- Files -----------------------------------------------------------------------------------

  type Sites = map<seq<byte>, seq<SiteDomain>>

  function FileStep(compile: Compiler): (Sites, Field) -> Sites {
    (m: Sites, f: Field) =>
      if f.Delimited? && f.num == 1 then
        match ParsedEntry(compile, f.data)
        case None => m
        case Some(e) => m[e.code := e.rules]
      else m
  }

  function ParsedFile(compile: Compiler, b: seq<byte>): Sites {
    match Scan(b, 0, map[], FileStep(compile), false)
    case Some(m) => m
    case None => map[]
  }

  method ParseGeositeFile(compile: Compiler, b: seq<byte>) returns (m: Sites)
    ensures m == ParsedFile(compile, b)
  {
    hide Varint, LenDelim, ParsedEntry;
    var pos: nat := 0;
    m := map[];
    ghost var step := FileStep(compile);
    while pos < |b|
      invariant Scan(b, 0, map[], step, false) == Scan(b, pos, m, step, false)
      decreases |b| - pos
    {
      var tag := ReadVarint(b, pos);
      if tag.None? {
        break;
      }
      var num, wire := tag.value.0 / 8, tag.value.0 % 8;
      var p := tag.value.1;
      if wire == 2 {
        var data := ReadLenDelim(b, p);
        if data.None? {
          break;
        }
        if num == 1 {
          var e := ParseGeositeEntry(compile, data.value.0);
          if e.Some? {
            m := m[e.value.code := e.value.rules];
          }
        }
        pos := data.value.1;
      } else if wire == 0 {
        var v := ReadVarint(b, p);
        if v.None? {
          break;
        }
        pos := v.value.1;
      } else if wire == 1 {
        if p + 8 > |b| {
          break;
        }
        pos := p + 8;
      } else if wire == 5 {
        if p + 4 > |b| {
          break;
        }
        pos := p + 4;
      } else {
        break;
      }
    }
  }

  // ---- What a file encodes ---------------------------------------------------------------------

  /** A rule message: its type and value, each possibly missing or repeated, and any other fields. */
  datatype RuleField = Kind(value: nat) | Value(data: seq<byte>) | RuleOther(field: Field) {
    function AsField(): Field {
      match this
      case Kind(v) => VarintField(1, v)
      case Value(d) => Delimited(2, d)
      case RuleOther(f) => f
    }

    predicate Valid() {
      AsField().Valid()
      && (RuleOther? ==> !(field.VarintField? && field.num == 1) && !(field.Delimited? && field.num == 2))
    }
  }

  datatype EntryField = Code(data: seq<byte>) | Domain(rule: seq<RuleField>) | EntryOther(field: Field) {
    function AsField(): Field {
      match this
      case Code(d) => Delimited(1, d)
      case Domain(rule) => Delimited(2, Wire(RuleFields(rule)))
      case EntryOther(f) => f
    }

    predicate Valid() {
      && AsField().Valid()
      && (Domain? ==> forall i :: 0 <= i < |rule| ==> rule[i].Valid())
      && (EntryOther? ==> !(field.Delimited? && 1 <= field.num <= 2))
    }
  }

  datatype FileField = Entry(entry: seq<EntryField>) | FileOther(field: Field) {
    function AsField(): Field {
      match this
      case Entry(entry) => Delimited(1, Wire(EntryFields(entry)))
      case FileOther(f) => f
    }

    predicate Valid() {
      && AsField().Valid()
      && (Entry? ==> forall i :: 0 <= i < |entry| ==> entry[i].Valid())
      && (FileOther? ==> !(field.Delimited? && field.num == 1))
    }
  }

  function RuleFields(fields: seq<RuleField>): seq<Field> {
    seq(|fields|, i requires 0 <= i < |fields| => fields[i].AsField())
  }

  function EntryFields(fields: seq<EntryField>): seq<Field> {
    seq(|fields|, i requires 0 <= i < |fields| => fields[i].AsField())
  }

  function FileFields(fields: seq<FileField>): seq<Field> {
    seq(|fields|, i requires 0 <= i < |fields| => fields[i].AsField())
  }

  /** The last type given, 0 if none. */
  function KindOf(fields: seq<RuleField>): nat {
    if fields == [] then 0
    else if fields[|fields| - 1].Kind? then fields[|fields| - 1].value
    else KindOf(fields[..|fields| - 1])
  }

  /** The last value given, as text, in lower case and without dots at its end. */
  function ValueOf(fields: seq<RuleField>): seq<byte> {
    if fields == [] then []
    else if fields[|fields| - 1].Value? then Normal(Lossy(fields[|fields| - 1].data))
    else ValueOf(fields[..|fields| - 1])
  }

  function Rule(compile: Compiler, fields: seq<RuleField>): Option<SiteDomain> {
    RuleOf(compile, RuleState(KindOf(fields), ValueOf(fields)))
  }

  function LastCode(fields: seq<EntryField>): seq<byte> {
    if fields == [] then []
    else if fields[|fields| - 1].Code? then CodeOf(fields[|fields| - 1].data)
    else LastCode(fields[..|fields| - 1])
  }

  /** The rules of an entry in order; those without a value are none. */
  function Rules(compile: Compiler, fields: seq<EntryField>): seq<SiteDomain> {
    if fields == [] then [] else
      var last := fields[|fields| - 1];
      Rules(compile, fields[..|fields| - 1]) + if last.Domain? then Optional(Rule(compile, last.rule)) else []
  }

  /** The rules a file gives a code: those of its last entry with it. */
  function RulesFor(compile: Compiler, file: seq<FileField>, code: seq<byte>): Option<seq<SiteDomain>> {
    if file == [] then None else
      var last := file[|file| - 1];
      if last.Entry? && LastCode(last.entry) == code then Some(Rules(compile, last.entry))
      else RulesFor(compile, file[..|file| - 1], code)
  }

  // ---- Parsing inverts encoding ----------------------------------------------------------------

  lemma {:induction false} RuleFolds(fields: seq<RuleField>)
    requires forall i :: 0 <= i < |fields| ==> fields[i].Valid()
    ensures AllValid(RuleFields(fields))
    ensures Fold(RuleState(0, []), RuleFields(fields), RuleStep) == RuleState(KindOf(fields), ValueOf(fields))
  {
    hide Normal, Lossy, Field.Valid;
    if fields != [] {
      var front := fields[..|fields| - 1];
      RuleFolds(front);
      assert RuleFields(fields)[..|front|] == RuleFields(front);
    }
  }

  lemma RuleReads(compile: Compiler, fields: seq<RuleField>)
    requires forall i :: 0 <= i < |fields| ==> fields[i].Valid()
    ensures ParsedRule(compile, Wire(RuleFields(fields))) == Rule(compile, fields)
  {
    RuleFolds(fields);
    MessageReads(RuleFields(fields), RuleState(0, []), RuleStep, true);
  }

  /** The value stands somewhere in the host. */
  ghost predicate Contains(host: seq<byte>, v: seq<byte>) {
    exists i, j :: 0 <= i <= j <= |host| && host[i..j] == v
  }

  /**
   What the type of an encoded rule means, for the host d in lower case and without dots at its end: 0 is a
   part of it, 1 a pattern (a part if that does not compile), 3 the host itself, and any other number the host
   or what follows a dot in it.
   */
  lemma RuleByType(compile: Compiler, fields: seq<RuleField>, host: seq<byte>)
    requires forall i :: 0 <= i < |fields| ==> fields[i].Valid()
    ensures var rule := ParsedRule(compile, Wire(RuleFields(fields)));
      var d, v, k := Normal(host), ValueOf(fields), KindOf(fields);
      && (rule.Some? <==> v != [])
      && (rule.Some? && k == 0 ==> (Matches(rule.value, host) <==> Contains(d, v)))
      && (rule.Some? && k == 1 ==>
            (Matches(rule.value, host) <==> if compile(v).Some? then compile(v).value(d) else Contains(d, v)))
      && (rule.Some? && k == 3 ==> (Matches(rule.value, host) <==> d == v))
      && (rule.Some? && (k == 2 || k > 3) ==>
            (Matches(rule.value, host)
             <==> d == v || (|d| > |v| && d[|d| - |v|..] == v && d[|d| - |v| - 1] == 46)))
  {
    RuleReads(compile, fields);
    hide Normal, ValueOf, KindOf, ParsedRule, RuleFields;
    var d, v, k := Normal(host), ValueOf(fields), KindOf(fields);
    if v != [] {
      InfixIsContains(d, v);
      DotAndTail(d, v);
    }
  }

  lemma InfixIsContains(d: seq<byte>, v: seq<byte>)
    ensures Infix(v, d) <==> Contains(d, v)
  {
    if Infix(v, d) {
      var i: nat :| i <= |d| && At(d, i, v);
      assert i + |v| <= |d| && d[i..i + |v|] == v;
    }
    if Contains(d, v) {
      var i, j :| 0 <= i <= j <= |d| && d[i..j] == v;
      assert At(d, i, v);
    }
  }

  lemma DotAndTail(d: seq<byte>, v: seq<byte>)
    ensures EndsWith(d, [DOT] + v) <==> |d| > |v| && d[|d| - |v|..] == v && d[|d| - |v| - 1] == 46
  {
    if |d| > |v| {
      var tail := d[|d| - |v| - 1..];
      assert tail == [tail[0]] + tail[1..] && tail[1..] == d[|d| - |v|..];
    }
  }

  lemma {:induction false} EntryFolds(compile: Compiler, fields: seq<EntryField>)
    requires forall i :: 0 <= i < |fields| ==> fields[i].Valid()
    ensures AllValid(EntryFields(fields))
    ensures Fold(EntryState([], []), EntryFields(fields), EntryStep(compile))
         == EntryState(LastCode(fields), Rules(compile, fields))
    decreases |fields|
  {
    hide CodeOf, ParsedRule, Rule, RuleFields, Field.Valid;
    if fields != [] {
      var front, last := fields[..|fields| - 1], fields[|fields| - 1];
      EntryFolds(compile, front);
      assert EntryFields(fields)[..|front|] == EntryFields(front);
      if last.Domain? {
        RuleReads(compile, last.rule);
      }
    }
  }

  lemma EntryReads(compile: Compiler, fields: seq<EntryField>)
    requires forall i :: 0 <= i < |fields| ==> fields[i].Valid()
    ensures ParsedEntry(compile, Wire(EntryFields(fields)))
         == if LastCode(fields) == [] then None else Some(EntryState(LastCode(fields), Rules(compile, fields)))
  {
    EntryFolds(compile, fields);
    MessageReads(EntryFields(fields), EntryState([], []), EntryStep(compile), true);
  }

  lemma FileStepIs(compile: Compiler, m: Sites, last: FileField)
    requires last.Valid()
    ensures FileStep(compile)(m, last.AsField())
         == if last.Entry? && LastCode(last.entry) != [] then m[LastCode(last.entry) := Rules(compile, last.entry)]
            else m
  {
    hide ParsedEntry, LastCode, Rules, EntryFields, Field.Valid;
    if last.Entry? {
      EntryReads(compile, last.entry);
    }
  }

  lemma FoldLast<S>(s: S, fields: seq<Field>, step: (S, Field) -> S)
    requires fields != []
    ensures Fold(s, fields, step) == step(Fold(s, fields[..|fields| - 1], step), fields[|fields| - 1])
  {
  }

  lemma FilePrefix(file: seq<FileField>)
    requires file != [] && (forall i :: 0 <= i < |file| ==> file[i].Valid())
    ensures |FileFields(file)| == |file|
    ensures var fields := FileFields(file);
      fields[..|file| - 1] == FileFields(file[..|file| - 1]) && fields[|file| - 1] == file[|file| - 1].AsField()
    ensures AllValid(FileFields(file))
  {
    hide Field.Valid, FileField.AsField;
    forall i | 0 <= i < |file|
      ensures FileFields(file)[i].Valid()
    {
      assert file[i].Valid();
    }
  }

  lemma {:induction false} FileFolds(compile: Compiler, file: seq<FileField>, code: seq<byte>)
    requires forall i :: 0 <= i < |file| ==> file[i].Valid()
    requires code != []
    ensures var m := Fold(map[], FileFields(file), FileStep(compile));
      RulesFor(compile, file, code) == if code in m then Some(m[code]) else None
    decreases |file|
  {
    hide LastCode, Rules, FileFields, FileStep, FileField.Valid;
    if file == [] {
      NoFields();
    } else {
      var front, last := file[..|file| - 1], file[|file| - 1];
      FileFolds(compile, front, code);
      FilePrefix(file);
      FoldLast<Sites>(map[], FileFields(file), FileStep(compile));
      FileStepIs(compile, Fold(map[], FileFields(front), FileStep(compile)), last);
    }
  }

  lemma NoFields()
    ensures FileFields([]) == []
  {
  }

  /**
   A file that encodes entries, with unknown fields of wire types 0, 1, 2 and 5 anywhere at every level, is
   parsed to exactly those entries: the last one of each code, with its rules in order.
   */
  lemma FileReads(compile: Compiler, file: seq<FileField>, code: seq<byte>)
    requires forall i :: 0 <= i < |file| ==> file[i].Valid()
    requires code != []
    ensures var m := ParsedFile(compile, Wire(FileFields(file)));
      RulesFor(compile, file, code) == if code in m then Some(m[code]) else None
  {
    FileFolds(compile, file, code);
    if file != [] {
      FilePrefix(file);
    }
    MessageReads(FileFields(file), map[], FileStep(compile), false);
  }

  // ---- From a file to the index ----------------------------------------------------------------

  lemma {:induction false} NormalTwice(name: seq<byte>)
    ensures Normal(Normal(name)) == Normal(name)
  {
    var t := TrimDotBytes(name);
    TrimmedEnds(name);
    assert TrimDotBytes(LowerBytes(t)) == LowerBytes(t);
    LowerBytesTwice(t);
  }

  lemma {:induction false} TrimmedEnds(s: seq<byte>)
    ensures var t := TrimDotBytes(s); t != [] ==> t[|t| - 1] != DOT
  {
    if s != [] {
      TrimmedEnds(s[..|s| - 1]);
    }
  }

  ghost predicate NormalValue(s: RuleState) {
    Normal(s.value) == s.value
  }

  /** Whatever the bytes, a parsed rule is one the index is faithful for. */
  lemma {:induction false} ScannedValuesAreNormal(b: seq<byte>, pos: nat, s: RuleState)
    requires NormalValue(s)
    ensures var r := Scan(b, pos, s, RuleStep, true); r.Some? ==> NormalValue(r.value)
    decreases |b| - pos
  {
    hide ReadField, Normal, Lossy;
    if pos < |b| && ReadField(b, pos).Got? {
      var f := ReadField(b, pos).field;
      if f.Delimited? {
        NormalTwice(Lossy(f.data));
      }
      ScannedValuesAreNormal(b, ReadField(b, pos).next, RuleStep(s, f));
    }
  }

  lemma ParsedRuleIsNormalised(compile: Compiler, b: seq<byte>)
    ensures var r := ParsedRule(compile, b); r.Some? ==> Normalised(r.value)
  {
    assert Normal([]) == [];
    ScannedValuesAreNormal(b, 0, RuleState(0, []));
  }

  predicate AllNormalised(rules: seq<SiteDomain>) {
    forall i :: 0 <= i < |rules| ==> Normalised(rules[i])
  }

  lemma {:induction false} EntryIsNormalised(compile: Compiler, b: seq<byte>, pos: nat, s: EntryState)
    requires AllNormalised(s.rules)
    ensures var r := Scan(b, pos, s, EntryStep(compile), true); r.Some? ==> AllNormalised(r.value.rules)
    decreases |b| - pos
  {
    hide ReadField, ParsedRule, Normalised, CodeOf;
    if pos < |b| && ReadField(b, pos).Got? {
      var f := ReadField(b, pos).field;
      if f.Delimited? {
        ParsedRuleIsNormalised(compile, f.data);
      }
      EntryIsNormalised(compile, b, ReadField(b, pos).next, EntryStep(compile)(s, f));
    }
  }

  lemma {:induction false} FileIsNormalised(compile: Compiler, b: seq<byte>, pos: nat, m: Sites)
    requires forall code :: code in m ==> AllNormalised(m[code])
    ensures var r := Scan(b, pos, m, FileStep(compile), false);
      r.Some? && forall code :: code in r.value ==> AllNormalised(r.value[code])
    decreases |b| - pos
  {
    hide ReadField, AllNormalised;
    if pos < |b| && ReadField(b, pos).Got? {
      var f := ReadField(b, pos).field;
      if f.Delimited? {
        NoRules();
        EntryIsNormalised(compile, f.data, 0, EntryState([], []));
      }
      FileIsNormalised(compile, b, ReadField(b, pos).next, FileStep(compile)(m, f));
    }
  }

  lemma NoRules()
    ensures AllNormalised([])
  {
  }

  /** For any bytes read as a file, the index built for a code matches a host exactly if one of its rules does. */
  lemma FileIndexIsScan(compile: Compiler, b: seq<byte>, code: seq<byte>, host: seq<byte>)
    requires code in ParsedFile(compile, b)
    ensures var rules := ParsedFile(compile, b)[code];
      IndexMatches(Indexed(rules), host) <==> AnyMatches(rules, host)
  {
    FileIsNormalised(compile, b, 0, map[]);
    IndexIsScan(ParsedFile(compile, b)[code], host);
  }
}
