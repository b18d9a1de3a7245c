/**
 The DNS messages of the resolver and the responder: the A query, the walk over an upstream answer, the
 parser of a client's query and the response made from it. Sections 4.1.2 to 4.1.4 of RFC 1035.
 */
module DnsCodec {
  import opened Prelude
  import opened Bytes

  // ---- Names with dots -------------------------------------------------------------------------

  /** One more byte in front: a dot starts a new piece, any other goes to the first. */
  function Grown(x: byte, pieces: seq<seq<byte>>): (r: seq<seq<byte>>)
    requires pieces != []
    ensures r != []
  {
    if x == DOT then [[]] + pieces else [[x] + pieces[0]] + pieces[1..]
  }

  /** The pieces between the dots; always at least one. */
  function SplitDots(s: seq<byte>): (labels: seq<seq<byte>>)
    ensures labels != []
    ensures forall l :: l in labels ==> DOT !in l
    ensures s == [] || s[|s| - 1] == DOT ==> labels[|labels| - 1] == []
  {
    if s == [] then [[]] else Grown(s[0], SplitDots(s[1..]))
  }

  function JoinDots(labels: seq<seq<byte>>): seq<byte> {
    if labels == [] then [] else if |labels| == 1 then labels[0]
    else JoinDots(labels[..|labels| - 1]) + [DOT] + labels[|labels| - 1]
  }

  lemma {:induction false} JoinCons(l: seq<byte>, labels: seq<seq<byte>>)
    requires labels != []
    ensures JoinDots([l] + labels) == l + [DOT] + JoinDots(labels)
  {
    var all := [l] + labels;
    if |labels| == 1 {
      assert all[..1] == [l];
    } else {
      JoinCons(l, labels[..|labels| - 1]);
      assert all[..|all| - 1] == [l] + labels[..|labels| - 1];
      var front, last := JoinDots(labels[..|labels| - 1]), labels[|labels| - 1];
      AppendAssociates(l + [DOT], front + [DOT], last);
      AppendAssociates(l + [DOT], front, [DOT]);
    }
  }

  lemma JoinGrows(x: byte, labels: seq<seq<byte>>)
    requires labels != []
    ensures JoinDots([[x] + labels[0]] + labels[1..]) == [x] + JoinDots(labels)
  {
    var l, rest := labels[0], labels[1..];
    assert labels == [l] + rest;
    if rest == [] {
      assert [[x] + l] + rest == [[x] + l];
    } else {
      JoinCons(l, rest);
      JoinCons([x] + l, rest);
      assert [x] + l + [DOT] + JoinDots(rest) == [x] + (l + [DOT] + JoinDots(rest));
    }
  }

  lemma {:induction false} JoinInvertsSplit(s: seq<byte>)
    ensures JoinDots(SplitDots(s)) == s
  {
    hide JoinDots;
    if s == [] {
      JoinOne([]);
    } else {
      JoinInvertsSplit(s[1..]);
      assert [s[0]] + s[1..] == s;
      if s[0] == DOT {
        JoinCons([], SplitDots(s[1..]));
        assert [] + [DOT] + s[1..] == s;
      } else {
        JoinGrows(s[0], SplitDots(s[1..]));
      }
    }
  }

  lemma JoinOne(l: seq<byte>)
    ensures JoinDots([l]) == l
  {
  }

  function NonEmpty(labels: seq<seq<byte>>): (r: seq<seq<byte>>)
    ensures forall l :: l in r ==> l != [] && l in labels
  {
    if labels == [] then [] else
      var last := labels[|labels| - 1];
      var front := NonEmpty(labels[..|labels| - 1]);
      if last == [] then front else front + [last]
  }

  predicate NoneEmpty(labels: seq<seq<byte>>) {
    forall i :: 0 <= i < |labels| ==> labels[i] != []
  }

  lemma {:induction false} NonEmptyKeepsAll(labels: seq<seq<byte>>)
    requires NoneEmpty(labels)
    ensures NonEmpty(labels) == labels
  {
    if labels != [] {
      NonEmptyKeepsAll(labels[..|labels| - 1]);
      assert labels == labels[..|labels| - 1] + [labels[|labels| - 1]];
    }
  }

  /** The labels a query for the domain carries. */
  function LabelsOf(domain: seq<byte>): seq<seq<byte>> {
    NonEmpty(SplitDots(TrimDotBytes(domain)))
  }

  // ---- Bytes read as characters ----------------------------------------------------------------

  /** A byte taken for the character of that number, in UTF-8: from 128 on it becomes two bytes. */
  function WidenByte(b: byte): (w: seq<byte>)
    ensures w != []
  {
    if b < 128 then [b] else [0xC0 + b / 64, 0x80 + b % 64]
  }

  function Widened(s: seq<byte>): seq<byte> {
    if s == [] then [] else WidenByte(s[0]) + Widened(s[1..])
  }

  predicate Ascii(s: seq<byte>) {
    forall i :: 0 <= i < |s| ==> s[i] < 128
  }

  lemma {:induction false} WidenAppend(a: seq<byte>, b: seq<byte>)
    ensures Widened(a + b) == Widened(a) + Widened(b)
  {
    if a == [] {
      assert a + b == b;
    } else {
      WidenAppend(a[1..], b);
      assert (a + b)[0] == a[0] && (a + b)[1..] == a[1..] + b;
      AppendAssociates(WidenByte(a[0]), Widened(a[1..]), Widened(b));
    }
  }

  lemma WidenSnoc(a: seq<byte>, x: byte)
    ensures Widened(a + [x]) == Widened(a) + WidenByte(x)
  {
    WidenAppend(a, [x]);
    assert Widened([x]) == WidenByte(x) + [];
  }

  /** Widening makes a string longer unless it is ASCII, which it keeps. */
  lemma {:induction false} WidenedSize(s: seq<byte>)
    ensures |Widened(s)| >= |s|
    ensures |Widened(s)| == |s| <==> Ascii(s)
    ensures Ascii(s) ==> Widened(s) == s
  {
    if s != [] {
      WidenedSize(s[1..]);
      assert [s[0]] + s[1..] == s;
      assert Ascii(s) <==> s[0] < 128 && Ascii(s[1..]);
    }
  }

  lemma {:induction false} WidenOfLower(s: seq<byte>)
    ensures Widened(LowerBytes(s)) == LowerBytes(Widened(s))
  {
    if s != [] {
      WidenOfLower(s[1..]);
      assert LowerBytes(s)[1..] == LowerBytes(s[1..]);
      LowerAppends(WidenByte(s[0]), Widened(s[1..]));
      assert WidenByte(LowerByte(s[0])) == LowerBytes(WidenByte(s[0]));
    }
  }

  lemma LowerAppends(a: seq<byte>, b: seq<byte>)
    ensures LowerBytes(a + b) == LowerBytes(a) + LowerBytes(b)
  {
  }

  lemma WidenByteInFront(x: byte, a: seq<byte>, y: byte, b: seq<byte>)
    requires WidenByte(x) + a == WidenByte(y) + b
    ensures x == y && a == b
  {
    var s, t := WidenByte(x) + a, WidenByte(y) + b;
    assert s[0] == WidenByte(x)[0] && t[0] == WidenByte(y)[0];
    if x >= 128 {
      assert s[1] == WidenByte(x)[1] && t[1] == WidenByte(y)[1];
    }
    assert a == s[|WidenByte(x)|..] && b == t[|WidenByte(y)|..];
  }

  lemma {:induction false} WidenIsInjective(a: seq<byte>, b: seq<byte>)
    requires Widened(a) == Widened(b)
    ensures a == b
  {
    if a != [] && b != [] {
      WidenByteInFront(a[0], Widened(a[1..]), b[0], Widened(b[1..]));
      WidenIsInjective(a[1..], b[1..]);
      assert a == [a[0]] + a[1..] && b == [b[0]] + b[1..];
    }
  }

  // ---- Building --------------------------------------------------------------------------------

  /** One label; its length goes in one byte, cut to eight bits. */
  function LabelBytes(l: seq<byte>): seq<byte> {
    [(|l| % 256) as byte] + l
  }

  function LabelList(labels: seq<seq<byte>>): seq<byte> {
    if labels == [] then [] else LabelBytes(labels[0]) + LabelList(labels[1..])
  }

  lemma {:induction false} LabelListSnoc(labels: seq<seq<byte>>, l: seq<byte>)
    ensures LabelList(labels + [l]) == LabelList(labels) + LabelBytes(l)
  {
    if labels == [] {
      assert (labels + [l])[1..] == [];
    } else {
      LabelListSnoc(labels[1..], l);
      assert (labels + [l])[1..] == labels[1..] + [l];
      AppendAssociates(LabelBytes(labels[0]), LabelList(labels[1..]), LabelBytes(l));
    }
  }

  const QUERY_FLAGS: seq<byte> := [1, 0, 0, 1, 0, 0, 0, 0, 0, 0]
  const A_IN: seq<byte> := [0, 1, 0, 1]

  function Query(labels: seq<seq<byte>>, id: u16): seq<byte> {
    U16Bytes(id) + QUERY_FLAGS + LabelList(labels) + [0] + A_IN
  }

  method BuildAQuery(domain: seq<byte>, id: u16) returns (q: seq<byte>)
    ensures q == Query(LabelsOf(domain), id)
  {
    q := U16Bytes(id);
    q := q + QUERY_FLAGS;
    ghost var header := q;
    var pieces := SplitDots(TrimDotBytes(domain));
    for i := 0 to |pieces|
      invariant q == header + LabelList(NonEmpty(pieces[..i]))
    {
      var piece := pieces[i];
      assert pieces[..i + 1][..i] == pieces[..i];
      if piece != [] {
        LabelListSnoc(NonEmpty(pieces[..i]), piece);
        AppendAssociates(header, LabelList(NonEmpty(pieces[..i])), LabelBytes(piece));
        q := q + LabelBytes(piece);
      }
    }
    assert pieces[..|pieces|] == pieces;
    q := q + [0];
    q := q + A_IN;
  }

  // ---- Reading ---------------------------------------------------------------------------------

  /** Labels as RFC 1035 allows them: nonempty, of at most 63 bytes. */
  predicate Fit(labels: seq<seq<byte>>) {
    forall i :: 0 <= i < |labels| ==> 1 <= |labels[i]| <= 63
  }

  lemma LabelAt(b: seq<byte>, off: nat, l: seq<byte>, rest: seq<byte>)
    requires |l| <= 63 && At(b, off, LabelBytes(l) + rest)
    ensures off + 1 + |l| <= |b| && b[off] as nat == |l| && b[off + 1..off + 1 + |l|] == l
    ensures At(b, off + 1 + |l|, rest)
  {
    AtSplits(b, off, LabelBytes(l), rest);
    var field := b[off..off + |LabelBytes(l)|];
    assert field[0] == b[off] && field[1..] == b[off + 1..off + 1 + |l|];
  }

  /** The labels from off to the empty one, and the offset behind it. */
  function ParseLabels(b: seq<byte>, off: nat): (r: Option<(seq<seq<byte>>, nat)>)
    ensures r.Some? ==> off < r.value.1 <= |b| && Fit(r.value.0)
    decreases |b| - off
  {
    if off >= |b| then None else
      var len := b[off] as nat;
      if len == 0 then Some(([], off + 1))
      else if len > 63 || off + 1 + len > |b| then None
      else
        var (rest, end) :- ParseLabels(b, off + 1 + len);
        Some(([b[off + 1..off + 1 + len]] + rest, end))
  }

  datatype Question = Question(name: seq<byte>, qtype: u16, end: nat)

  /**
   The first question of a query: its name in lower case, its type and the offset behind it. Every byte of
   the name is taken for a character of its own.
   */
  function ParsedQuery(b: seq<byte>): Option<Question> {
    if |b| < 12 || U16At(b, 4) < 1 then None else
      var (labels, off) :- ParseLabels(b, 12);
      if off + 4 > |b| then None
      else Some(Question(LowerBytes(Widened(JoinDots(labels))), U16At(b, off), off + 4))
  }

  /** A message without a header or without a question is no query; what is one has labels of 1 to 63 bytes. */
  lemma QueryRefused(b: seq<byte>)
    ensures |b| < 12 || (b[4] == 0 && b[5] == 0) ==> ParsedQuery(b).None?
    ensures ParsedQuery(b).Some? ==> 17 <= ParsedQuery(b).value.end <= |b|
    ensures ParsedQuery(b).Some? ==>
      var q := ParsedQuery(b).value;
      q.qtype == 256 * b[q.end - 4] as int + b[q.end - 3] as int
  {
    hide ParseLabels;
  }

  method JoinLabels(labels: seq<seq<byte>>) returns (name: seq<byte>)
    ensures name == Widened(JoinDots(labels))
  {
    hide WidenByte, Widened;
    name := [];
    assert Widened([]) == [] by {
      WidenedSize([]);
    }
    for i := 0 to |labels|
      invariant name == Widened(JoinDots(labels[..i]))
    {
      var l := labels[i];
      ghost var front := JoinDots(labels[..i]);
      assert labels[..i + 1][..i] == labels[..i];
      if i > 0 {
        name := name + [DOT];
        WidenDot(front);
        front := front + [DOT];
      }
      assert JoinDots(labels[..i + 1]) == front + l;
      assert front + l[..0] == front;
      for j := 0 to |l|
        invariant name == Widened(front + l[..j])
      {
        assert front + l[..j + 1] == front + l[..j] + [l[j]];
        WidenSnoc(front + l[..j], l[j]);
        name := name + WidenByte(l[j]);
      }
      assert l[..|l|] == l;
    }
    assert labels[..|labels|] == labels;
  }

  lemma WidenDot(a: seq<byte>)
    ensures Widened(a + [DOT]) == Widened(a) + [DOT]
  {
    WidenSnoc(a, DOT);
  }

  lemma NoLabels(b: seq<byte>, off: nat)
    requires off >= |b|
    ensures ParseLabels(b, off).None?
  {
  }

  lemma LabelsStep(b: seq<byte>, off: nat)
    requires off < |b|
    ensures var len := b[off] as nat;
      ParseLabels(b, off)
      == if len == 0 then Some(([], off + 1))
         else if len > 63 || off + 1 + len > |b| then None
         else match ParseLabels(b, off + 1 + len)
           case None => None
           case Some((rest, end)) => Some(([b[off + 1..off + 1 + len]] + rest, end))
  {
  }

  method ParseQuery(b: seq<byte>) returns (r: Option<Question>)
    ensures r == ParsedQuery(b)
  {
    hide Fit, LowerBytes, Widened, ParseLabels, U16At;
    if |b| < 12 {
      return None;
    }
    if U16At(b, 4) < 1 {
      return None;
    }
    var off := 12;
    var labels: seq<seq<byte>> := [];
    ghost var all := ParseLabels(b, off);
    assert all.Some? ==> labels + all.value.0 == all.value.0;
    while true
      invariant 12 <= off <= |b|
      invariant ParseLabels(b, 12) == match ParseLabels(b, off)
        case None => None
        case Some((rest, end)) => Some((labels + rest, end))
      decreases |b| - off
    {
      if off >= |b| {
        NoLabels(b, off);
        return None;
      }
      LabelsStep(b, off);
      var len := b[off] as nat;
      off := off + 1;
      if len == 0 {
        break;
      }
      if len > 63 || off + len > |b| {
        return None;
      }
      var piece := b[off..off + len];
      ghost var rest := ParseLabels(b, off + len);
      if rest.Some? {
        AppendAssociates(labels, [piece], rest.value.0);
      }
      labels := labels + [piece];
      off := off + len;
    }
    assert labels + [] == labels;
    if off + 4 > |b| {
      return None;
    }
    var name := JoinLabels(labels);
    r := Some(Question(LowerBytes(name), U16At(b, off), off + 4));
  }

  /** The offset behind a name, compressed or not: labels, then the empty label or a pointer. */
  function SkipName(b: seq<byte>, off: nat, steps: nat): (r: Option<nat>)
    ensures r.Some? ==> off < r.value <= |b|
    decreases |b| - off
  {
    if off >= |b| || steps > 128 then None else
      var len := b[off] as nat;
      if len == 0 then Some(off + 1)
      else if len >= 0xC0 then if off + 2 > |b| then None else Some(off + 2)
      else if off + 1 + len > |b| then None
      else SkipName(b, off + 1 + len, steps + 1)
  }

  method SkipDnsName(b: seq<byte>, offset: nat) returns (r: Option<nat>)
    ensures r == SkipName(b, offset, 0)
  {
    var off: nat, steps: nat := offset, 0;
    while off < |b|
      invariant SkipName(b, offset, 0) == SkipName(b, off, steps)
      decreases |b| - off
    {
      if steps > 128 {
        return None;
      }
      steps := steps + 1;
      var len := b[off] as nat;
      if len == 0 {
        return Some(off + 1);
      }
      if len >= 0xC0 {
        if off + 2 > |b| {
          return None;
        }
        return Some(off + 2);
      }
      if off + 1 + len > |b| {
        return None;
      }
      off := off + 1 + len;
    }
    return None;
  }

  /** The address of the first A record among the next count records from off. */
  function FindA(b: seq<byte>, off: nat, count: nat): Option<seq<byte>>
    decreases count
  {
    if count == 0 then None else
      var r :- SkipName(b, off, 0);
      if r + 10 > |b| then None else
        var rd, rdlen := r + 10, U16At(b, r + 8);
        if rd + rdlen > |b| then None
        else if U16At(b, r) == 1 && rdlen == 4 then Some(b[rd..rd + 4])
        else FindA(b, rd + rdlen, count - 1)
  }

  function AnswerOf(b: seq<byte>, qnameLen: nat): Option<seq<byte>> {
    if |b| < 12 then None else FindA(b, 12 + qnameLen + 4, Min(U16At(b, 6), 16))
  }

  /** What the record at off, whose name ends at r, makes of the search. */
  function FindAfter(b: seq<byte>, r: nat, count: nat): Option<seq<byte>>
    requires count > 0
  {
    if r + 10 > |b| then None else
      var rd, rdlen := r + 10, U16At(b, r + 8);
      if rd + rdlen > |b| then None
      else if U16At(b, r) == 1 && rdlen == 4 then Some(b[rd..rd + 4])
      else FindA(b, rd + rdlen, count - 1)
  }

  lemma FindAStep(b: seq<byte>, off: nat, count: nat)
    requires count > 0
    ensures var r := SkipName(b, off, 0);
      FindA(b, off, count) == if r.None? then None else FindAfter(b, r.value, count)
  {
    hide SkipName, U16At;
  }

  lemma NoRecords(b: seq<byte>, off: nat)
    ensures FindA(b, off, 0) == None
  {
  }

  method ParseAAnswer(b: seq<byte>, qnameLen: nat) returns (a: Option<seq<byte>>)
    ensures a == AnswerOf(b, qnameLen)
  {
    hide FindA, SkipName, U16At;
    if |b| < 12 {
      return None;
    }
    var ancount := U16At(b, 6);
    if ancount == 0 {
      NoRecords(b, 12 + qnameLen + 4);
      return None;
    }
    var off: nat := 12 + qnameLen + 4;
    var left: nat := Min(ancount, 16);
    assert AnswerOf(b, qnameLen) == FindA(b, off, left);
    hide AnswerOf, Min;
    while left > 0
      invariant AnswerOf(b, qnameLen) == FindA(b, off, left)
    {
      FindAStep(b, off, left);
      var skipped := SkipDnsName(b, off);
      if skipped.None? {
        return None;
      }
      var r := skipped.value;
      if r + 10 > |b| {
        return None;
      }
      var rdlen: nat := U16At(b, r + 8);
      var rd := r + 10;
      if rd + rdlen > |b| {
        return None;
      }
      if U16At(b, r) == 1 && rdlen == 4 {
        return Some(b[rd..rd + 4]);
      }
      off, left := rd + rdlen, left - 1;
    }
    NoRecords(b, off);
    return None;
  }

  // ---- Responding ------------------------------------------------------------------------------

  const RESPONSE_TTL := 1

  /** The response to a query: its id and question, and one record if an address is given. */
  function BuildResponse(query: seq<byte>, qtype: u16, address: Option<seq<byte>>, questionLen: nat, rcode: byte)
    : (r: Option<seq<byte>>)
    requires address.Some? ==> |address.value| == 4
    ensures r.Some? <==> 13 <= questionLen <= |query|
    ensures r.Some? ==> |r.value| == questionLen + if address.Some? then 16 else 0
  {
    if |query| < 12 || questionLen < 13 || questionLen > |query| then None else
      var flags := [0x81, 0x80 + rcode % 16];
      var counts: seq<byte> := [0, 1, 0, if address.Some? then 1 else 0, 0, 0, 0, 0];
      var head := query[0..2] + flags + counts + query[12..questionLen];
      Some(if address.None? then head else
        head + ([0xC0, 0x0C] + U16Bytes(qtype) + [0, 1] + U32Bytes(RESPONSE_TTL) + [0, 4] + address.value))
  }

  /** One record from end on: a pointer to the question's name, the type, class IN, a second to live, four bytes. */
  predicate RecordStands(r: seq<byte>, end: nat, qtype: u16, address: seq<byte>) {
    && |r| == end + 16 && r[end] == 0xC0 && r[end + 1] == 12 && U16At(r, end + 2) == qtype && U16At(r, end + 4) == 1
    && U32At(r, end + 6) == 1 && U16At(r, end + 10) == 4 && r[end + 12..] == address
  }

  lemma RecordAtEnd(front: seq<byte>, qtype: u16, address: seq<byte>)
    requires |address| == 4
    ensures var record := [0xC0, 0x0C] + U16Bytes(qtype) + [0, 1] + U32Bytes(RESPONSE_TTL) + [0, 4] + address;
      RecordStands(front + record, |front|, qtype, address)
  {
    var record := [0xC0, 0x0C] + U16Bytes(qtype) + [0, 1] + U32Bytes(RESPONSE_TTL) + [0, 4] + address;
    var r, end := front + record, |front|;
    assert forall i :: 0 <= i < 16 ==> r[end + i] == record[i];
    assert U32Bytes(1) == [0, 0, 0, 1];
    assert record[2] == U16Bytes(qtype)[0] && record[3] == U16Bytes(qtype)[1];
    assert record[12..] == address && r[end + 12..] == record[12..];
  }

  /** Every response echoes id and question, carries the code, counts its record and ends with the address. */
  lemma ResponseEchoes(query: seq<byte>, qtype: u16, address: Option<seq<byte>>, end: nat, rcode: byte)
    requires address.Some? ==> |address.value| == 4
    requires 13 <= end <= |query|
    ensures var r := BuildResponse(query, qtype, address, end, rcode).value;
      && r[..2] == query[..2] && r[12..end] == query[12..end] && r[2] == 0x81 && r[3] == 0x80 + rcode % 16
      && U16At(r, 4) == 1 && U16At(r, 6) == (if address.Some? then 1 else 0)
      && (address.Some? ==> RecordStands(r, end, qtype, address.value))
  {
    hide U16Bytes, U32Bytes, RecordStands;
    var r := BuildResponse(query, qtype, address, end, rcode).value;
    var counts: seq<byte> := [0, 1, 0, if address.Some? then 1 else 0, 0, 0, 0, 0];
    var head := query[0..2] + [0x81, 0x80 + rcode % 16] + counts;
    assert head[4] == counts[0] && head[5] == counts[1] && head[6] == counts[2] && head[7] == counts[3];
    assert r[..12] == head && forall i :: 0 <= i < 12 ==> r[i] == r[..12][i];
    if address.Some? {
      var question := query[12..end];
      var record := [0xC0, 0x0C] + U16Bytes(qtype) + [0, 1] + U32Bytes(RESPONSE_TTL) + [0, 4] + address.value;
      assert r == head + question + record;
      RecordAtEnd(head + question, qtype, address.value);
    }
  }

  // ---- Names, written and skipped --------------------------------------------------------------

  datatype NameEnd = Root | Pointer(hi: byte, lo: byte)

  /** A name as a message can hold it: labels, then the root or a pointer to the rest. */
  datatype Name = Name(labels: seq<seq<byte>>, end: NameEnd) {
    predicate Valid() {
      && Fit(labels)
      && (end.Pointer? ==> end.hi >= 0xC0)
    }

    function Bytes(): (b: seq<byte>)
      ensures b != []
    {
      LabelList(labels) + if end.Root? then [0] else [end.hi, end.lo]
    }
  }

  lemma {:induction false} SkipsNameFrom(b: seq<byte>, off: nat, n: Name, steps: nat)
    requires n.Valid() && At(b, off, n.Bytes())
    ensures SkipName(b, off, steps)
         == if steps + |n.labels| <= 128 then Some(off + |n.Bytes()|) else None
    decreases |n.labels|
  {
    hide At, LabelBytes;
    var end: seq<byte> := if n.end.Root? then [0] else [n.end.hi, n.end.lo];
    if n.labels == [] {
      assert n.Bytes() == end;
      FirstAt(b, off, end);
    } else {
      var l, rest := n.labels[0], Name(n.labels[1..], n.end);
      AppendAssociates(LabelBytes(l), LabelList(rest.labels), end);
      LabelAt(b, off, l, rest.Bytes());
      SkipsNameFrom(b, off + 1 + |l|, rest, steps + 1);
      assert |LabelBytes(l)| == 1 + |l| by { LabelSize(l); }
    }
  }

  lemma LabelSize(l: seq<byte>)
    ensures |LabelBytes(l)| == 1 + |l|
  {
  }

  /** A well-formed name anywhere in a message is skipped exactly if it has at most 128 labels. */
  lemma SkipsName(b: seq<byte>, off: nat, n: Name)
    requires n.Valid() && At(b, off, n.Bytes())
    ensures SkipName(b, off, 0) == if |n.labels| <= 128 then Some(off + |n.Bytes()|) else None
  {
    SkipsNameFrom(b, off, n, 0);
  }

  // ---- Queries round trip ----------------------------------------------------------------------

  lemma ParsesEnd(b: seq<byte>, off: nat)
    requires off < |b| && b[off] == 0
    ensures ParseLabels(b, off) == Some(([], off + 1))
  {
  }

  lemma ParsesOneMore(b: seq<byte>, off: nat, l: seq<byte>, rest: seq<seq<byte>>, end: nat)
    requires 0 < |l| <= 63 && off + 1 + |l| <= |b| && b[off] as nat == |l| && b[off + 1..off + 1 + |l|] == l
    requires ParseLabels(b, off + 1 + |l|) == Some((rest, end))
    ensures ParseLabels(b, off) == Some(([l] + rest, end))
  {
  }

  lemma {:induction false} ParsesLabels(b: seq<byte>, off: nat, labels: seq<seq<byte>>)
    requires Fit(labels) && At(b, off, LabelList(labels) + [0])
    ensures ParseLabels(b, off) == Some((labels, off + |LabelList(labels)| + 1))
    decreases |labels|
  {
    hide At, LabelBytes, ParseLabels;
    if labels == [] {
      assert LabelList(labels) + [0] == [0];
      FirstAt(b, off, [0]);
      ParsesEnd(b, off);
    } else {
      var l, rest := labels[0], labels[1..];
      AppendAssociates(LabelBytes(l), LabelList(rest), [0]);
      LabelAt(b, off, l, LabelList(rest) + [0]);
      ParsesLabels(b, off + 1 + |l|, rest);
      LabelSize(l);
      ParsesOneMore(b, off, l, rest, off + |LabelList(labels)| + 1);
      assert [l] + rest == labels;
    }
  }

  /** A query carries its id, asks for recursion, holds one question and nothing else, and asks for A in class IN. */
  lemma QueryFields(labels: seq<seq<byte>>, id: u16)
    ensures var q := Query(labels, id); var n := |q|;
      && n >= 17 && U16At(q, 0) == id && q[2] == 1 && q[3] == 0
      && U16At(q, 4) == 1 && U16At(q, 6) == 0 && U16At(q, 8) == 0 && U16At(q, 10) == 0
      && q[n - 5] == 0 && U16At(q, n - 4) == 1 && U16At(q, n - 2) == 1
  {
    hide LabelList, U16Bytes;
    var q := Query(labels, id);
    U16RoundTrip(id, []);
    assert q[..2] == U16Bytes(id);
    assert q[0] == q[..2][0] && q[1] == q[..2][1];
    assert q[2..12] == QUERY_FLAGS;
    assert forall i :: 2 <= i < 12 ==> q[i] == q[2..12][i - 2];
    assert q[|q| - 4..] == A_IN && q[|q| - 5] == 0;
    assert forall i :: |q| - 4 <= i < |q| ==> q[i] == q[|q| - 4..][i - (|q| - 4)];
  }

  lemma QueryLayout(labels: seq<seq<byte>>, id: u16)
    ensures var q := Query(labels, id);
      && U16At(q, 4) == 1 && At(q, 12, LabelList(labels) + [0])
      && |q| == 12 + |LabelList(labels)| + 1 + 4 && U16At(q, |q| - 4) == 1
  {
    hide LabelList;
    var q := Query(labels, id);
    assert q[4] == QUERY_FLAGS[2] && q[5] == QUERY_FLAGS[3];
    assert q[12..|q| - 4] == LabelList(labels) + [0];
    assert q[|q| - 4] == A_IN[0] && q[|q| - 3] == A_IN[1];
  }

  lemma {:induction false} SplitInvertsJoin(labels: seq<seq<byte>>)
    requires labels != [] && forall l :: l in labels ==> DOT !in l
    ensures SplitDots(JoinDots(labels)) == labels
    decreases |labels|
  {
    if |labels| == 1 {
      SplitOfPiece(labels[0]);
    } else {
      SplitInvertsJoin(labels[1..]);
      assert labels == [labels[0]] + labels[1..];
      JoinCons(labels[0], labels[1..]);
      SplitOfJoin(labels[0], JoinDots(labels[1..]));
      SplitOfPiece(labels[0]);
    }
  }

  lemma {:induction false} SplitOfPiece(l: seq<byte>)
    requires DOT !in l
    ensures SplitDots(l) == [l]
  {
    if l != [] {
      SplitOfPiece(l[1..]);
      assert [l[0]] + l[1..] == l;
    }
  }

  lemma SplitGrows(s: seq<byte>)
    requires s != []
    ensures SplitDots(s) == Grown(s[0], SplitDots(s[1..]))
  {
  }

  lemma GrownAppend(x: byte, a: seq<seq<byte>>, b: seq<seq<byte>>)
    requires a != []
    ensures Grown(x, a + b) == Grown(x, a) + b
  {
    if x == DOT {
      AppendAssociates([[]], a, b);
    } else {
      var first: seq<seq<byte>> := [[x] + a[0]];
      assert (a + b)[0] == a[0] && (a + b)[1..] == a[1..] + b;
      AppendAssociates(first, a[1..], b);
    }
  }

  lemma {:induction false} SplitOfJoin(l: seq<byte>, rest: seq<byte>)
    ensures SplitDots(l + [DOT] + rest) == SplitDots(l) + SplitDots(rest)
  {
    var s := l + [DOT] + rest;
    SplitGrows(s);
    if l == [] {
      assert s[1..] == rest;
    } else {
      hide SplitDots;
      SplitOfJoin(l[1..], rest);
      assert s[1..] == l[1..] + [DOT] + rest;
      SplitGrows(l);
      GrownAppend(l[0], SplitDots(l[1..]), SplitDots(rest));
    }
  }

  lemma {:induction false} SplitOfLower(s: seq<byte>)
    ensures |SplitDots(LowerBytes(s))| == |SplitDots(s)|
    ensures forall i :: 0 <= i < |SplitDots(s)| ==> |SplitDots(LowerBytes(s))[i]| == |SplitDots(s)[i]|
  {
    hide SplitDots;
    var t := LowerBytes(s);
    if s == [] {
      assert t == [];
    } else {
      SplitOfLower(s[1..]);
      assert t[1..] == LowerBytes(s[1..]);
      SplitGrows(s);
      SplitGrows(t);
    }
  }

  lemma {:induction false} PieceSize(s: seq<byte>, i: nat)
    requires i < |SplitDots(s)|
    ensures |SplitDots(s)[i]| <= |s|
  {
    if s != [] {
      if s[0] != DOT {
        PieceSize(s[1..], i);
      } else if i > 0 {
        PieceSize(s[1..], i - 1);
      }
    }
  }

  lemma {:induction false} PiecesFit(labels: seq<seq<byte>>, i: nat)
    requires Fit(labels) && i < |SplitDots(JoinDots(labels))|
    ensures |SplitDots(JoinDots(labels))[i]| <= 63
    decreases |labels|
  {
    if |labels| <= 1 {
      PieceSize(JoinDots(labels), i);
    } else {
      var l, rest := labels[0], JoinDots(labels[1..]);
      assert labels == [l] + labels[1..];
      JoinCons(l, labels[1..]);
      SplitOfJoin(l, rest);
      if i < |SplitDots(l)| {
        PieceSize(l, i);
      } else {
        PiecesFit(labels[1..], i - |SplitDots(l)|);
      }
    }
  }

  /**
   A query carries any domain to the parser, which reads it back without empty labels, widened and in lower
   case, as an A question that ends with the query: exactly if no label is longer than 63 bytes.
   */
  lemma ParseInvertsBuild(domain: seq<byte>, id: u16)
    ensures var q := Query(LabelsOf(domain), id);
      ParsedQuery(q) == Some(Question(LowerBytes(Widened(JoinDots(LabelsOf(domain)))), 1, |q|))
      <==> Fit(LabelsOf(domain))
  {
    hide Query, JoinDots, LowerBytes, Widened, SplitDots, ParseLabels;
    var labels := LabelsOf(domain);
    var q := Query(labels, id);
    QueryLayout(labels, id);
    if Fit(labels) {
      ParsesLabels(q, 12, labels);
    } else if ParsedQuery(q).Some? {
      var read := ParseLabels(q, 12).value.0;
      if LowerBytes(Widened(JoinDots(read))) == LowerBytes(Widened(JoinDots(labels))) {
        WidenOfLower(JoinDots(read));
        WidenOfLower(JoinDots(labels));
        WidenIsInjective(LowerBytes(JoinDots(read)), LowerBytes(JoinDots(labels)));
        SameLabelSizes(read, labels);
      }
    }
  }

  lemma SameLabelSizes(read: seq<seq<byte>>, labels: seq<seq<byte>>)
    requires Fit(read) && labels != [] && (forall l :: l in labels ==> l != [] && DOT !in l)
    requires LowerBytes(JoinDots(read)) == LowerBytes(JoinDots(labels))
    ensures Fit(labels)
  {
    SplitInvertsJoin(labels);
    SplitOfLower(JoinDots(labels));
    SplitOfLower(JoinDots(read));
    forall i | 0 <= i < |labels|
      ensures 1 <= |labels[i]| <= 63
    {
      assert labels[i] in labels;
      PiecesFit(read, i);
    }
  }

  lemma CanonicalKeepsLabels(domain: seq<byte>)
    requires NoneEmpty(SplitDots(domain))
    ensures LabelsOf(domain) == SplitDots(domain) && JoinDots(LabelsOf(domain)) == domain
  {
    JoinInvertsSplit(domain);
    assert TrimDotBytes(domain) == domain;
    NonEmptyKeepsAll(SplitDots(domain));
  }

  lemma {:induction false} SplitOfWiden(s: seq<byte>)
    ensures |SplitDots(Widened(s))| == |SplitDots(s)|
    ensures forall i :: 0 <= i < |SplitDots(s)| ==> (SplitDots(Widened(s))[i] == [] <==> SplitDots(s)[i] == [])
  {
    hide SplitDots;
    if s != [] {
      var t := Widened(s);
      var rest := Widened(s[1..]);
      SplitOfWiden(s[1..]);
      SplitGrows(s);
      SplitGrows(t);
      if s[0] < 128 {
        assert t[1..] == rest;
      } else {
        SplitGrows(t[1..]);
        assert t[1..][1..] == rest;
      }
    }
  }

  lemma ReadLabelsStay(domain: seq<byte>)
    requires LabelsOf(domain) != []
    ensures NoneEmpty(SplitDots(LowerBytes(Widened(JoinDots(LabelsOf(domain))))))
  {
    hide SplitDots, Widened, LowerBytes;
    var labels := LabelsOf(domain);
    SplitInvertsJoin(labels);
    SplitOfWiden(JoinDots(labels));
    SplitOfLower(Widened(JoinDots(labels)));
    forall i | 0 <= i < |labels|
      ensures labels[i] != []
    {
      assert labels[i] in labels;
    }
  }

  /**
   A domain comes back itself exactly if it is ASCII, in lower case and without an empty label, or is the
   root.
   */
  lemma CanonicalDomainsRoundTrip(domain: seq<byte>, id: u16)
    requires Fit(LabelsOf(domain))
    ensures var q := Query(LabelsOf(domain), id);
      ParsedQuery(q) == Some(Question(domain, 1, |q|))
      <==> Ascii(domain) && LowerBytes(domain) == domain && (domain == [] || NoneEmpty(SplitDots(domain)))
  {
    ParseInvertsBuild(domain, id);
    hide Query, ParsedQuery, SplitDots, NonEmpty, NoneEmpty, LowerBytes, Widened, Ascii;
    var joined := JoinDots(LabelsOf(domain));
    RootStays();
    WidenedSize(domain);
    if LowerBytes(Widened(joined)) == domain && domain != [] {
      ReadLabelsStay(domain);
      LowerBytesTwice(Widened(joined));
    }
    if NoneEmpty(SplitDots(domain)) {
      CanonicalKeepsLabels(domain);
    } else if domain == [] {
      RootHasNoLabels();
    }
  }

  lemma RootStays()
    ensures Ascii([]) && Widened([]) == [] && LowerBytes([]) == []
  {
  }

  /** The name "é", C3 A9 in UTF-8, comes back as the two characters of those numbers. */
  lemma NonAsciiDomainChanges(id: u16)
    ensures var q := Query(LabelsOf([0xC3, 0xA9]), id);
      ParsedQuery(q) == Some(Question([0xC3, 0x83, 0xC2, 0xA9], 1, |q|))
  {
    var domain: seq<byte> := [0xC3, 0xA9];
    OnePiece(domain);
    hide *;
    ParseInvertsBuild(domain, id);
    WidenedExample();
  }

  lemma OnePiece(domain: seq<byte>)
    requires 1 <= |domain| <= 63 && DOT !in domain
    ensures LabelsOf(domain) == [domain] && Fit([domain]) && JoinDots([domain]) == domain
  {
    SplitOfPiece(domain);
    NonEmptyKeepsAll([domain]);
  }

  lemma WidenedExample()
    ensures LowerBytes(Widened([0xC3, 0xA9])) == [0xC3, 0x83, 0xC2, 0xA9]
  {
    var a: seq<byte> := [0xC3];
    assert a + [0xA9] == [0xC3, 0xA9];
    WidenSnoc([], 0xC3);
    WidenSnoc(a, 0xA9);
    assert [] + a == a;
  }

  lemma RootHasNoLabels()
    ensures LabelsOf([]) == []
  {
    assert SplitDots([]) == [[]];
    var none: seq<seq<byte>> := [[]];
    assert none[..0] == [];
  }

  // ---- Upstream answers ------------------------------------------------------------------------

  datatype Record = Record(name: Name, rtype: u16, rclass: u16, ttl: u32, data: seq<byte>) {
    predicate Valid() {
      name.Valid() && |name.labels| <= 128 && |data| <= U16_MAX
    }

    function Fixed(): (b: seq<byte>)
      requires |data| <= U16_MAX
      ensures |b| == 10
    {
      U16Bytes(rtype) + U16Bytes(rclass) + U32Bytes(ttl) + U16Bytes(|data|)
    }

    function Bytes(): seq<byte>
      requires |data| <= U16_MAX
    {
      name.Bytes() + (Fixed() + data)
    }
  }

  predicate AllValid(records: seq<Record>) {
    forall i :: 0 <= i < |records| ==> records[i].Valid()
  }

  function RecordBytes(records: seq<Record>): seq<byte>
    requires AllValid(records)
  {
    if records == [] then [] else
      records[0].Bytes() + RecordBytes(records[1..])
  }

  function FirstAddress(records: seq<Record>): Option<seq<byte>> {
    if records == [] then None
    else if records[0].rtype == 1 && |records[0].data| == 4 then Some(records[0].data)
    else FirstAddress(records[1..])
  }

  lemma RecordFields(b: seq<byte>, off: nat, r: Record)
    requires r.Valid() && At(b, off, r.Bytes())
    ensures var end := off + |r.name.Bytes()|;
      && SkipName(b, off, 0) == Some(end) && end + 10 + |r.data| == off + |r.Bytes()| <= |b|
      && U16At(b, end) == r.rtype && U16At(b, end + 8) == |r.data|
      && b[end + 10..end + 10 + |r.data|] == r.data
  {
    var end := off + |r.name.Bytes()|;
    AtSplits(b, off, r.name.Bytes(), r.Fixed() + r.data);
    AtSplits(b, end, r.Fixed(), r.data);
    SkipsName(b, off, r.name);
    var f := b[end..end + 10];
    assert f[0] == b[end] && f[1] == b[end + 1] && f[8] == b[end + 8] && f[9] == b[end + 9];
    assert f[8..] == U16Bytes(|r.data|) && f[..2] == U16Bytes(r.rtype);
    U16RoundTrip(r.rtype, []);
    U16RoundTrip(|r.data|, []);
  }

  lemma {:induction false} FindsFirstAddress(b: seq<byte>, off: nat, records: seq<Record>)
    requires AllValid(records)
    requires At(b, off, RecordBytes(records))
    ensures FindA(b, off, |records|) == FirstAddress(records)
    decreases |records|
  {
    hide At, SkipName;
    if records != [] {
      AtSplits(b, off, records[0].Bytes(), RecordBytes(records[1..]));
      RecordFields(b, off, records[0]);
      FindsFirstAddress(b, off + |records[0].Bytes()|, records[1..]);
    }
  }

  lemma OneRecord(r: Record)
    requires r.Valid()
    ensures RecordBytes([r]) == r.Bytes()
    ensures FirstAddress([r]) == if r.rtype == 1 && |r.data| == 4 then Some(r.data) else None
  {
    var none: seq<Record> := [];
    assert [r][1..] == none && RecordBytes(none) == [];
  }

  /**
   An answer section of any records, aliases and compressed names included, yields the first A record of
   four bytes among the first 16, whatever follows them.
   */
  lemma AnswerIsFirstAddress(head: seq<byte>, question: seq<byte>, records: seq<Record>, rest: seq<byte>)
    requires |head| == 12 && |question| >= 4 && AllValid(records)
    requires |records| == Min(U16At(head, 6), 16)
    ensures AnswerOf(head + question + RecordBytes(records) + rest, |question| - 4) == FirstAddress(records)
  {
    hide RecordBytes, FindA, At;
    var b := head + question + RecordBytes(records) + rest;
    assert b[6] == head[6] && b[7] == head[7];
    Middle(head + question, RecordBytes(records), rest);
    FindsFirstAddress(b, |head + question|, records);
  }

  // ---- Responses -------------------------------------------------------------------------------

  /** What the parser of a query walks over is a name the other parser skips to the same offset. */
  lemma {:induction false} ParsedIsSkipped(b: seq<byte>, off: nat, c: seq<byte>, steps: nat)
    requires ParseLabels(b, off).Some?
    requires var end := ParseLabels(b, off).value.1; end <= |c| && b[off..end] == c[off..end]
    ensures var (labels, end) := ParseLabels(b, off).value;
      SkipName(c, off, steps) == if steps + |labels| <= 128 then Some(end) else None
    decreases |b| - off
  {
    var (labels, end) := ParseLabels(b, off).value;
    var len := b[off] as nat;
    assert b[off] == b[off..end][0] == c[off..end][0] == c[off];
    if len != 0 {
      var next := off + 1 + len;
      SubSlice(b, c, off, end, next, end);
      ParsedIsSkipped(b, next, c, steps + 1);
    }
  }

  lemma {:induction false} ParsedAgain(b: seq<byte>, off: nat, c: seq<byte>)
    requires ParseLabels(b, off).Some?
    requires var end := ParseLabels(b, off).value.1; end <= |c| && b[off..end] == c[off..end]
    ensures ParseLabels(c, off) == ParseLabels(b, off)
    decreases |b| - off
  {
    var end := ParseLabels(b, off).value.1;
    var len := b[off] as nat;
    assert b[off] == b[off..end][0] == c[off..end][0] == c[off];
    if len != 0 {
      var next := off + 1 + len;
      SubSlice(b, c, off, end, next, end);
      SubSlice(b, c, off, end, off + 1, next);
      ParsedAgain(b, next, c);
    }
  }

  lemma SameQuestion(query: seq<byte>, r: seq<byte>, head: seq<byte>, tail: seq<byte>)
    requires ParsedQuery(query).Some? && |head| == 12 && U16At(head, 4) == 1
    requires |ParseLabels(query, 12).value.0| <= 128
    requires r == head + query[12..ParsedQuery(query).value.end] + tail
    ensures ParsedQuery(r) == ParsedQuery(query)
    ensures SkipName(r, 12, 0) == Some(ParsedQuery(query).value.end - 4)
  {
    hide ParseLabels, SkipName;
    var all, end := ParsedQuery(query).value.end, ParseLabels(query, 12).value.1;
    assert r[12..all] == query[12..all];
    assert r[4] == head[4] && r[5] == head[5];
    SubSlice(query, r, 12, all, 12, end);
    SubSlice(query, r, 12, all, end, all);
    assert query[end] == query[end..all][0] == r[end..all][0] == r[end];
    assert query[end + 1] == query[end..all][1] == r[end..all][1] == r[end + 1];
    ParsedIsSkipped(query, 12, r, 0);
    ParsedAgain(query, 12, r);
  }

  /** The records of a response: the address under a pointer to the name of the question. */
  function ResponseRecords(qtype: u16, address: Option<seq<byte>>): (records: seq<Record>)
    requires address.Some? ==> |address.value| == 4
    ensures AllValid(records)
  {
    if address.None? then [] else
      [Record(Name([], Pointer(0xC0, 0x0C)), qtype, 1, RESPONSE_TTL, address.value)]
  }

  /** The message r begins with the id of the query and carries the code. */
  predicate Headed(query: seq<byte>, rcode: byte, r: seq<byte>) {
    |query| >= 2 && |r| >= 12 && r[..2] == query[..2] && r[3] % 16 == rcode % 16
  }

  lemma ResponseLayout(query: seq<byte>, qtype: u16, address: Option<seq<byte>>, end: nat, rcode: byte)
    returns (head: seq<byte>)
    requires address.Some? ==> |address.value| == 4
    requires 13 <= end <= |query|
    ensures |head| == 12 && Headed(query, rcode, head)
    ensures U16At(head, 4) == 1 && Min(U16At(head, 6), 16) == |ResponseRecords(qtype, address)|
    ensures BuildResponse(query, qtype, address, end, rcode)
         == Some(head + query[12..end] + RecordBytes(ResponseRecords(qtype, address)))
  {
    var counts: seq<byte> := [0, 1, 0, if address.Some? then 1 else 0, 0, 0, 0, 0];
    head := query[0..2] + [0x81, 0x80 + rcode % 16] + counts;
    var front := head + query[12..end];
    if address.Some? {
      var rr := ResponseRecords(qtype, address)[0];
      OneRecord(rr);
      var name: seq<byte> := [0xC0, 0x0C];
      assert rr.name.Bytes() == name;
      assert U16Bytes(1) == [0, 1] && U16Bytes(4) == [0, 4];
      assert rr.Bytes() == name + U16Bytes(qtype) + [0, 1] + U32Bytes(RESPONSE_TTL) + [0, 4] + address.value;
    } else {
      assert front + [] == front;
    }
  }

  /** Whoever skips the name of the question q in r and looks for an A record finds the address. */
  predicate Yields(r: seq<byte>, q: Question, address: Option<seq<byte>>) {
    && q.end >= 16
    && SkipName(r, 12, 0) == Some(q.end - 4)
    && AnswerOf(r, q.end - 4 - 12) == address
  }

  /**
   The response to any query the parser accepts, with at most 128 labels in its name, carries its id and the
   code, answers the same question, and yields the address, if there is one and the query's type is A.
   */
  lemma ResponseCarriesAddress(query: seq<byte>, address: Option<seq<byte>>, rcode: byte)
    requires ParsedQuery(query).Some?
    requires address.Some? ==> |address.value| == 4
    requires |ParseLabels(query, 12).value.0| <= 128
    ensures var q := ParsedQuery(query).value;
      var r := BuildResponse(query, q.qtype, address, q.end, rcode);
      && r.Some? && Headed(query, rcode, r.value)
      && ParsedQuery(r.value) == Some(q) && Yields(r.value, q, if q.qtype == 1 then address else None)
  {
    ParsedBounds(query);
    hide *;
    var q := ParsedQuery(query).value;
    var head := ResponseLayout(query, q.qtype, address, q.end, rcode);
    var records := ResponseRecords(q.qtype, address);
    HeadStays(query, rcode, head, query[12..q.end], RecordBytes(records));
    ResponseYields(query, head, q.qtype, address);
  }

  lemma ResponseYields(query: seq<byte>, head: seq<byte>, qtype: u16, address: Option<seq<byte>>)
    requires ParsedQuery(query).Some? && |ParseLabels(query, 12).value.0| <= 128
    requires var q := ParsedQuery(query).value; 17 <= q.end <= |query| && q.qtype == qtype
    requires |head| == 12 && U16At(head, 4) == 1 && (address.Some? ==> |address.value| == 4)
    requires Min(U16At(head, 6), 16) == |ResponseRecords(qtype, address)|
    ensures var q := ParsedQuery(query).value;
      var r := head + query[12..q.end] + RecordBytes(ResponseRecords(qtype, address));
      ParsedQuery(r) == Some(q) && Yields(r, q, if qtype == 1 then address else None)
  {
    hide ParsedQuery, AnswerOf, SkipName, ParseLabels, RecordBytes, ResponseRecords, U16At, Min;
    var q, answer := ParsedQuery(query).value, RecordBytes(ResponseRecords(qtype, address));
    SameQuestion(query, head + query[12..q.end] + answer, head, answer);
    AnswerOfResponse(head, query[12..q.end], qtype, address);
  }

  lemma AnswerOfResponse(head: seq<byte>, question: seq<byte>, qtype: u16, address: Option<seq<byte>>)
    requires |head| == 12 && |question| >= 4 && (address.Some? ==> |address.value| == 4)
    requires Min(U16At(head, 6), 16) == |ResponseRecords(qtype, address)|
    ensures AnswerOf(head + question + RecordBytes(ResponseRecords(qtype, address)), |question| - 4)
         == if qtype == 1 then address else None
  {
    hide AnswerOf, RecordBytes, FirstAddress, ResponseRecords, Min, U16At;
    var records := ResponseRecords(qtype, address);
    var r := head + question + RecordBytes(records);
    ResponseAddress(qtype, address);
    AnswerIsFirstAddress(head, question, records, []);
    assert r + [] == r;
  }

  lemma ParsedBounds(query: seq<byte>)
    requires ParsedQuery(query).Some?
    ensures 17 <= ParsedQuery(query).value.end <= |query|
  {
  }

  lemma HeadStays(query: seq<byte>, rcode: byte, head: seq<byte>, question: seq<byte>, answer: seq<byte>)
    requires |head| == 12 && Headed(query, rcode, head)
    ensures Headed(query, rcode, head + question + answer)
  {
    var r := head + question + answer;
    assert r[..2] == head[..2] && r[3] == head[3];
  }

  lemma ResponseAddress(qtype: u16, address: Option<seq<byte>>)
    requires address.Some? ==> |address.value| == 4
    ensures var records := ResponseRecords(qtype, address);
      |records| <= 1 && FirstAddress(records) == if qtype == 1 then address else None
  {
    if address.Some? {
      OneRecord(ResponseRecords(qtype, address)[0]);
    }
  }
}
