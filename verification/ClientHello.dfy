/**
 TLS ClientHello records: how they are assembled, and how a captured one is replayed as a template with its
 random, session id and server name replaced. The name's length changes three enclosing length fields.
 Section 4.1.2 of RFC 8446.
 */
module ClientHello {
  import opened Prelude
  import opened Bytes

  // ---- Extensions ------------------------------------------------------------------------------

  /** An extension as written; its length field is cut to 16 bits. */
  function ExtBytes(kind: u16, data: seq<byte>): (b: seq<byte>)
    ensures |b| == 4 + |data|
  {
    U16Bytes(kind) + U16Bytes(|data| % 0x1_0000) + data
  }

  /** The content of a server_name extension with one host name. */
  function SniData(name: seq<byte>): (b: seq<byte>)
    ensures |b| == 5 + |name|
  {
    U16Bytes((3 + |name|) % 0x1_0000) + [0] + U16Bytes(|name| % 0x1_0000) + name
  }

  function SniExt(name: seq<byte>): (b: seq<byte>)
    ensures |b| == 9 + |name|
  {
    ExtBytes(0, SniData(name))
  }

  datatype Ext = Ext(kind: u16, data: seq<byte>) {
    function Bytes(): (b: seq<byte>)
      ensures |b| == 4 + |data|
    {
      ExtBytes(kind, data)
    }
  }

  function ExtList(exts: seq<Ext>): seq<byte> {
    if exts == [] then [] else exts[0].Bytes() + ExtList(exts[1..])
  }

  lemma {:induction false} ExtListSplits(exts: seq<Ext>, i: nat)
    requires i < |exts|
    ensures ExtList(exts) == ExtList(exts[..i]) + exts[i].Bytes() + ExtList(exts[i + 1..])
  {
    if i == 0 {
      assert exts[..0] == [];
    } else {
      ExtListSplits(exts[1..], i - 1);
      assert exts[..i][1..] == exts[1..][..i - 1];
      assert exts[1..][i..] == exts[i + 1..];
      AppendAssociates(exts[0].Bytes(), ExtList(exts[1..i]) + exts[i].Bytes(), ExtList(exts[i + 1..]));
      AppendAssociates(exts[0].Bytes(), ExtList(exts[1..i]), exts[i].Bytes());
    }
  }

  /** The first server_name extension. */
  function FirstSni(exts: seq<Ext>): (i: Option<nat>)
    ensures i.Some? ==> i.value < |exts| && exts[i.value].kind == 0
    ensures i.Some? ==> forall j :: 0 <= j < i.value ==> exts[j].kind != 0
    ensures i.None? ==> forall j :: 0 <= j < |exts| ==> exts[j].kind != 0
  {
    if exts == [] then None
    else if exts[0].kind == 0 then Some(0)
    else
      var i :- FirstSni(exts[1..]);
      Some(i + 1)
  }

  // ---- Hellos ----------------------------------------------------------------------------------

  function Vector8(v: seq<byte>): seq<byte> {
    [(|v| % 256) as byte] + v
  }

  function Vector16(v: seq<byte>): seq<byte> {
    U16Bytes(|v| % 0x1_0000) + v
  }

  /** Everything before the extensions, with the three lengths that count them. */
  function Pack(recordVersion: seq<byte>, record: u16, body: nat, version: seq<byte>, random: seq<byte>,
                session: seq<byte>, suites: seq<byte>, total: u16): seq<byte>
    requires body < 0x100_0000
  {
    [0x16] + recordVersion + U16Bytes(record) + [1] + U24Bytes(body) + version + random + Vector8(session)
    + suites + U16Bytes(total)
  }

  datatype Hello = Hello(recordVersion: seq<byte>, version: seq<byte>, random: seq<byte>, session: seq<byte>,
                         ciphers: seq<byte>, compressions: seq<byte>, exts: seq<Ext>) {
    function Suites(): (b: seq<byte>)
      ensures |b| == 3 + |ciphers| + |compressions|
    {
      Vector16(ciphers) + Vector8(compressions)
    }

    function BodyLength(): nat {
      2 + 32 + 1 + |session| + 3 + |ciphers| + |compressions| + 2 + |ExtList(exts)|
    }

    /** Each part has the size its length field can tell. */
    predicate Fits() {
      && |recordVersion| == 2 && |version| == 2 && |random| == 32
      && |session| <= 255 && |ciphers| <= U16_MAX && |compressions| <= 255
      && (forall i :: 0 <= i < |exts| ==> |exts[i].data| <= U16_MAX)
      && 4 + BodyLength() <= U16_MAX
    }

    function Front(): (b: seq<byte>)
      requires Fits()
      ensures |b| == 43 + 1 + |session| + 3 + |ciphers| + |compressions| + 2
    {
      Pack(recordVersion, 4 + BodyLength(), BodyLength(), version, random, session, Suites(), |ExtList(exts)|)
    }

    /** The record, with all lengths consistent. */
    function Record(): seq<byte>
      requires Fits()
    {
      Front() + ExtList(exts)
    }

    function With(name: seq<byte>, sid: seq<byte>, rnd: seq<byte>): Hello
      requires FirstSni(exts).Some?
    {
      this.(random := rnd, session := sid, exts := exts[FirstSni(exts).value := Ext(0, SniData(name))])
    }
  }

  /** A record made from parts, as the built-in profiles do with their extensions serialised. */
  function Assemble(session: seq<byte>, random: seq<byte>, ciphers: seq<byte>, extensions: seq<byte>): seq<byte> {
    var body := [3, 3] + random + Vector8(session) + Vector16(ciphers) + [1, 0] + Vector16(extensions);
    var hs := [1] + U24Bytes(|body| % 0x100_0000) + body;
    [0x16, 3, 1] + Vector16(hs)
  }

  lemma BodyJoins(v: seq<byte>, r: seq<byte>, s: seq<byte>, cs: seq<byte>, comp: seq<byte>, n: seq<byte>, e: seq<byte>)
    ensures v + r + s + cs + comp + (n + e) == v + (r + s + (cs + comp) + n + e)
  {
  }

  lemma FrontJoins(a: seq<byte>, n: seq<byte>, h: seq<byte>, v: seq<byte>, r: seq<byte>, s: seq<byte>,
                   suites: seq<byte>, total: seq<byte>, e: seq<byte>)
    ensures a + (n + (h + (v + (r + s + suites + total + e)))) == a + n + h + v + r + s + suites + total + e
  {
  }

  lemma Vector16Is(v: seq<byte>)
    requires |v| <= U16_MAX
    ensures Vector16(v) == U16Bytes(|v|) + v
  {
    hide U16Bytes;
    assert |v| % 0x1_0000 == |v|;
  }

  /** The content of a server_name extension: one host name, with its length and that of the list. */
  lemma SniDataIs(name: seq<byte>)
    requires |name| + 3 <= U16_MAX
    ensures var d := SniData(name);
      |d| == 5 + |name| && U16At(d, 0) == |d| - 2 && d[2] == 0 && U16At(d, 3) == |name| && d[5..] == name
  {
  }

  /** What the profiles assemble is a well-formed hello. */
  lemma AssembledIsHello(h: Hello)
    requires h.Fits() && h.recordVersion == [3, 1] && h.version == [3, 3] && h.compressions == [0]
    ensures Assemble(h.session, h.random, h.ciphers, ExtList(h.exts)) == h.Record()
  {
    hide U16Bytes, U24Bytes, ExtList, Vector16;
    var e, session, ciphers := ExtList(h.exts), Vector8(h.session), Vector16(h.ciphers);
    var suites, total := h.Suites(), U16Bytes(|e|);
    assert Vector8(h.compressions) == [1, 0];
    BodyJoins([3, 3], h.random, session, ciphers, [1, 0], total, e);
    var body := [3, 3] + h.random + session + ciphers + [1, 0] + (total + e);
    Vector16Is(e);
    Vector16Is([1] + U24Bytes(|body|) + body);
    assert |body| == h.BodyLength();
    var kind, size := [1] + U24Bytes(|body|), U16Bytes(4 + |body|);
    FrontJoins([0x16, 3, 1], size, kind, [3, 3], h.random, session, suites, total, e);
    assert Assemble(h.session, h.random, h.ciphers, e) == [0x16, 3, 1] + (size + (kind + body));
    assert [0x16] + [3, 1] == [0x16, 3, 1];
    AppendAssociates([0x16, 3, 1] + size, [1], U24Bytes(|body|));
  }

  // ---- Replaying a template --------------------------------------------------------------------

  function ReadU16(b: seq<byte>, off: nat): Option<nat> {
    if off + 2 <= |b| then Some(U16At(b, off)) else None
  }

  /** Where the extensions' length field and the server_name extension stand. */
  datatype Place = Place(extOff: nat, sniOff: nat, sniSize: nat)

  function Scan(b: seq<byte>, off: nat, end: nat): (r: Option<(nat, nat)>)
    requires end <= |b|
    ensures r.Some? ==> r.value.0 >= off && r.value.1 >= 4
    decreases end - off
  {
    if off + 4 > end then None
    else if U16At(b, off) == 0 then Some((off, 4 + U16At(b, off + 2)))
    else Scan(b, off + 4 + U16At(b, off + 2), end)
  }

  function Locate(tpl: seq<byte>): (r: Option<Place>)
    ensures r.Some? ==> 79 <= r.value.extOff && r.value.extOff + 2 <= r.value.sniOff
    ensures r.Some? ==> 4 <= r.value.sniSize && r.value.sniOff + r.value.sniSize <= |tpl|
  {
    if |tpl| < 44 || tpl[0] != 0x16 || tpl[5] != 1 || tpl[43] != 32 then None else
      var cs :- ReadU16(tpl, 76);
      if 78 + cs >= |tpl| then None else
        var extOff := 78 + cs + 1 + tpl[78 + cs] as nat;
        var total :- ReadU16(tpl, extOff);
        var end := extOff + 2 + total;
        if end > |tpl| then None else
          var (off, size) :- Scan(tpl, extOff + 2, end);
          if off + size > end then None else Some(Place(extOff, off, size))
  }

  function Added16(b: seq<byte>, off: nat, delta: int): (r: seq<byte>)
    requires off + 2 <= |b|
    ensures |r| == |b|
  {
    Put(b, off, U16Bytes((U16At(b, off) + delta) % 0x1_0000))
  }

  function Added24(b: seq<byte>, off: nat, delta: int): (r: seq<byte>)
    requires off + 3 <= |b|
    ensures |r| == |b|
  {
    Put(b, off, U24Bytes((U24At(b, off) + delta) % 0x100_0000))
  }

  function Spliced(tpl: seq<byte>, at: Place, name: seq<byte>): (b: seq<byte>)
    requires at.sniOff + at.sniSize <= |tpl|
    ensures |b| == |tpl| + |SniExt(name)| - at.sniSize
  {
    tpl[..at.sniOff] + SniExt(name) + tpl[at.sniOff + at.sniSize..]
  }

  /** The fields at fixed offsets overwritten, then the three lengths corrected by the name's growth. */
  function Rewritten(b: seq<byte>, extOff: nat, delta: int, sid: seq<byte>, rnd: seq<byte>): seq<byte>
    requires |sid| == 32 && |rnd| == 32 && 79 <= extOff && extOff + 2 <= |b|
  {
    Added16(Added24(Added16(Put(Put(b, 11, rnd), 44, sid), 3, delta), 6, delta), extOff, delta)
  }

  function Edited(tpl: seq<byte>, name: seq<byte>, sid: seq<byte>, rnd: seq<byte>): Option<seq<byte>>
    requires |sid| == 32 && |rnd| == 32
  {
    var at :- Locate(tpl);
    Some(Rewritten(Spliced(tpl, at, name), at.extOff, |SniExt(name)| - at.sniSize, sid, rnd))
  }

  method CopyAt(b: array<byte>, off: nat, e: seq<byte>)
    requires off + |e| <= b.Length
    modifies b
    ensures b[..] == Put(old(b[..]), off, e)
  {
    for i := 0 to |e|
      invariant forall k :: 0 <= k < off || off + i <= k < b.Length ==> b[k] == old(b[k])
      invariant forall k :: 0 <= k < i ==> b[off + k] == e[k]
    {
      b[off + i] := e[i];
    }
    assert b[off..off + |e|] == e;
  }

  method PatchU16(b: array<byte>, off: nat, delta: int)
    requires off + 2 <= b.Length
    modifies b
    ensures b[..] == Added16(old(b[..]), off, delta)
  {
    var v: u16 := (256 * b[off] as int + b[off + 1] as int + delta) % 0x1_0000;
    CopyAt(b, off, U16Bytes(v));
  }

  method PatchU24(b: array<byte>, off: nat, delta: int)
    requires off + 3 <= b.Length
    modifies b
    ensures b[..] == Added24(old(b[..]), off, delta)
  {
    var v := (0x1_0000 * b[off] as int + 256 * b[off + 1] as int + b[off + 2] as int + delta) % 0x100_0000;
    CopyAt(b, off, U24Bytes(v));
  }

  method FindSni(tpl: seq<byte>) returns (r: Option<Place>)
    ensures r == Locate(tpl)
  {
    if |tpl| < 44 || tpl[0] != 0x16 || tpl[5] != 1 {
      return None;
    }
    if tpl[43] != 32 {
      return None;
    }
    var p := 76;
    var cs := ReadU16(tpl, p);
    if cs.None? {
      return None;
    }
    p := p + 2 + cs.value;
    if p >= |tpl| {
      return None;
    }
    p := p + 1 + tpl[p] as nat;
    var extOff := p;
    var total := ReadU16(tpl, p);
    if total.None? {
      return None;
    }
    p := p + 2;
    var end := p + total.value;
    if end > |tpl| {
      return None;
    }
    var off, size := 0, 0;
    while p + 4 <= end
      invariant p >= extOff + 2
      invariant Scan(tpl, extOff + 2, end) == Scan(tpl, p, end)
      decreases end - p
    {
      if U16At(tpl, p) == 0 {
        off, size := p, 4 + U16At(tpl, p + 2);
        break;
      }
      p := p + 4 + U16At(tpl, p + 2);
    }
    if size == 0 || off + size > end {
      return None;
    }
    r := Some(Place(extOff, off, size));
  }

  method BuildFromTemplate(tpl: seq<byte>, name: seq<byte>, sid: seq<byte>, rnd: seq<byte>)
    returns (r: Option<array<byte>>)
    requires |sid| == 32 && |rnd| == 32
    ensures r.Some? ==> fresh(r.value)
    ensures (if r.None? then None else Some(r.value[..])) == Edited(tpl, name, sid, rnd)
  {
    hide Put, Added16, Added24, Spliced, Locate, Scan;
    var found := FindSni(tpl);
    if found.None? {
      return None;
    }
    var at := found.value;
    var delta := |SniExt(name)| - at.sniSize;
    var spliced := Spliced(tpl, at, name);
    var out := new byte[|spliced|](i requires 0 <= i < |spliced| => spliced[i]);
    assert out[..] == spliced;
    CopyAt(out, 11, rnd);
    CopyAt(out, 44, sid);
    PatchU16(out, 3, delta);
    PatchU24(out, 6, delta);
    PatchU16(out, at.extOff, delta);
    r := Some(out);
  }

  // ---- Replay is an edit of the hello ----------------------------------------------------------

  /** The parts of a front: fixed fields around the random, the session id and the lengths. */
  lemma FrontFields(rv: seq<byte>, rec: u16, body: nat, v: seq<byte>, rnd: seq<byte>, sid: seq<byte>,
                    suites: seq<byte>, total: u16)
    requires |rv| == 2 && body < 0x100_0000 && |v| == 2 && |rnd| == 32 && |sid| <= 255
    ensures var p := Pack(rv, rec, body, v, rnd, sid, suites, total);
      var after := U24Bytes(body) + v + rnd + Vector8(sid) + suites + U16Bytes(total);
      && |p| == 44 + |sid| + |suites| + 2
      && p == [0x16] + rv + U16Bytes(rec) + ([1] + after)
      && p == ([0x16] + rv + U16Bytes(rec) + [1]) + U24Bytes(body) + (v + rnd + Vector8(sid) + suites + U16Bytes(total))
      && p == ([0x16] + rv + U16Bytes(rec) + [1] + U24Bytes(body) + v) + rnd + (Vector8(sid) + suites + U16Bytes(total))
      && p == ([0x16] + rv + U16Bytes(rec) + [1] + U24Bytes(body) + v + rnd + [|sid| as byte]) + sid
              + (suites + U16Bytes(total))
      && p == ([0x16] + rv + U16Bytes(rec) + [1] + U24Bytes(body) + v + rnd + Vector8(sid) + suites)
              + U16Bytes(total) + []
  {
    hide U16Bytes, U24Bytes;
  }

  lemma Added16Middle(a: seq<byte>, v: u16, rest: seq<byte>, delta: int)
    requires 0 <= v + delta <= U16_MAX
    ensures Added16(a + U16Bytes(v) + rest, |a|, delta) == a + U16Bytes(v + delta) + rest
  {
    Middle(a, U16Bytes(v), rest);
    U16Stands(a + U16Bytes(v) + rest, |a|, v);
    PutMiddle(a, U16Bytes(v), rest, U16Bytes(v + delta));
  }

  lemma Added24Middle(a: seq<byte>, v: nat, rest: seq<byte>, delta: int)
    requires v < 0x100_0000 && 0 <= v + delta < 0x100_0000
    ensures Added24(a + U24Bytes(v) + rest, |a|, delta) == a + U24Bytes(v + delta) + rest
  {
    Middle(a, U24Bytes(v), rest);
    U24Stands(a + U24Bytes(v) + rest, |a|, v);
    PutMiddle(a, U24Bytes(v), rest, U24Bytes(v + delta));
  }

  lemma FrontFixed(rv: seq<byte>, rec: u16, body: nat, v: seq<byte>, rnd: seq<byte>, sid: seq<byte>, suites: seq<byte>,
                   total: u16, sid': seq<byte>, rnd': seq<byte>)
    requires |rv| == 2 && body < 0x100_0000 && |v| == 2 && |rnd| == |rnd'| == |sid| == |sid'| == 32
    ensures Put(Put(Pack(rv, rec, body, v, rnd, sid, suites, total), 11, rnd'), 44, sid')
         == Pack(rv, rec, body, v, rnd', sid', suites, total)
  {
    hide Put, Pack, Vector8;
    var a := [0x16] + rv + U16Bytes(rec) + [1] + U24Bytes(body) + v;
    var b := a + rnd' + [32];
    FrontFields(rv, rec, body, v, rnd, sid, suites, total);
    FrontFields(rv, rec, body, v, rnd', sid, suites, total);
    FrontFields(rv, rec, body, v, rnd', sid', suites, total);
    PutMiddle(a, rnd, Vector8(sid) + suites + U16Bytes(total), rnd');
    PutMiddle(b, sid, suites + U16Bytes(total), sid');
  }

  lemma FrontLengths(rv: seq<byte>, rec: u16, body: nat, v: seq<byte>, rnd: seq<byte>, sid: seq<byte>,
                     suites: seq<byte>, total: u16, delta: int)
    requires |rv| == 2 && body < 0x100_0000 && |v| == 2 && |rnd| == |sid| == 32
    requires 0 <= rec + delta <= U16_MAX && 0 <= body + delta < 0x100_0000 && 0 <= total + delta <= U16_MAX
    ensures var p := Pack(rv, rec, body, v, rnd, sid, suites, total);
      Added16(Added24(Added16(p, 3, delta), 6, delta), |p| - 2, delta)
      == Pack(rv, rec + delta, body + delta, v, rnd, sid, suites, total + delta)
  {
    hide Added16, Added24, Pack, Vector8;
    var rec', body', total' := rec + delta, body + delta, total + delta;
    FrontFields(rv, rec, body, v, rnd, sid, suites, total);
    FrontFields(rv, rec', body, v, rnd, sid, suites, total);
    FrontFields(rv, rec', body', v, rnd, sid, suites, total);
    FrontFields(rv, rec', body', v, rnd, sid, suites, total');
    Added16Middle([0x16] + rv, rec, [1] + (U24Bytes(body) + v + rnd + Vector8(sid) + suites + U16Bytes(total)), delta);
    Added24Middle([0x16] + rv + U16Bytes(rec') + [1], body, v + rnd + Vector8(sid) + suites + U16Bytes(total), delta);
    Added16Middle([0x16] + rv + U16Bytes(rec') + [1] + U24Bytes(body') + v + rnd + Vector8(sid) + suites,
                  total, [], delta);
  }

  lemma RewritesFront(p: seq<byte>, rest: seq<byte>, extOff: nat, delta: int, sid: seq<byte>, rnd: seq<byte>)
    requires |sid| == 32 && |rnd| == 32 && 79 <= extOff && extOff + 2 <= |p|
    ensures Rewritten(p + rest, extOff, delta, sid, rnd) == Rewritten(p, extOff, delta, sid, rnd) + rest
  {
    hide Put;
    var p1 := Put(p, 11, rnd);
    PutInFront(p, rest, 11, rnd);
    var p2 := Put(p1, 44, sid);
    PutInFront(p1, rest, 44, sid);
    Added16InFront(p2, rest, 3, delta);
    Added24InFront(Added16(p2, 3, delta), rest, 6, delta);
    Added16InFront(Added24(Added16(p2, 3, delta), 6, delta), rest, extOff, delta);
  }

  lemma Added16InFront(a: seq<byte>, rest: seq<byte>, off: nat, delta: int)
    requires off + 2 <= |a|
    ensures Added16(a + rest, off, delta) == Added16(a, off, delta) + rest
  {
    PutInFront(a, rest, off, U16Bytes((U16At(a, off) + delta) % 0x1_0000));
  }

  lemma Added24InFront(a: seq<byte>, rest: seq<byte>, off: nat, delta: int)
    requires off + 3 <= |a|
    ensures Added24(a + rest, off, delta) == Added24(a, off, delta) + rest
  {
    PutInFront(a, rest, off, U24Bytes((U24At(a, off) + delta) % 0x100_0000));
  }

  // ---- Locating the name -----------------------------------------------------------------------

  predicate AllFit(exts: seq<Ext>) {
    forall i :: 0 <= i < |exts| ==> |exts[i].data| <= U16_MAX
  }

  lemma ExtFields(b: seq<byte>, off: nat, x: Ext)
    requires |x.data| <= U16_MAX && At(b, off, x.Bytes())
    ensures off + 4 + |x.data| <= |b| && U16At(b, off) == x.kind && U16At(b, off + 2) == |x.data|
    ensures b[off + 4..off + 4 + |x.data|] == x.data
  {
    hide U16Bytes, U16At;
    AtSplits(b, off, U16Bytes(x.kind) + U16Bytes(|x.data|), x.data);
    AtSplits(b, off, U16Bytes(x.kind), U16Bytes(|x.data|));
    U16Stands(b, off, x.kind);
    U16Stands(b, off + 2, |x.data|);
  }

  lemma {:induction false} ScanFinds(b: seq<byte>, off: nat, exts: seq<Ext>)
    requires AllFit(exts) && At(b, off, ExtList(exts))
    ensures Scan(b, off, off + |ExtList(exts)|) == match FirstSni(exts)
      case None => None
      case Some(i) => Some((off + |ExtList(exts[..i])|, 4 + |exts[i].data|))
    decreases |exts|
  {
    hide At, U16At, U16Bytes, Ext.Bytes;
    if exts != [] {
      AtSplits(b, off, exts[0].Bytes(), ExtList(exts[1..]));
      ExtFields(b, off, exts[0]);
      if exts[0].kind == 0 {
        assert exts[..0] == [];
      } else {
        ScanFinds(b, off + |exts[0].Bytes()|, exts[1..]);
        if FirstSni(exts).Some? {
          var i := FirstSni(exts).value;
          assert exts[..i][0] == exts[0] && exts[..i][1..] == exts[1..][..i - 1];
        }
      }
    }
  }

  lemma FrontAt(h: Hello, rest: seq<byte>)
    requires h.Fits()
    ensures At(h.Record() + rest, 0, h.Front()) && At(h.Record() + rest, |h.Front()|, ExtList(h.exts))
  {
    hide At, ExtList, Pack;
    var f, e := h.Front(), ExtList(h.exts);
    Middle(f, e, rest);
    AppendAssociates(f, e, rest);
    Middle([], f, e + rest);
    assert [] + f + (e + rest) == f + (e + rest);
  }

  lemma HelloLengths(h: Hello, b: seq<byte>)
    requires h.Fits() && At(b, 0, h.Front())
    ensures |b| >= 6 && b[0] == 0x16 && b[5] == 1 && U16At(b, 3) == 4 + h.BodyLength()
  {
    hide ExtList, At, U16At, U16Bytes, U24Bytes, Vector8, Pack;
    var n, suites, total := h.BodyLength(), h.Suites(), |ExtList(h.exts)|;
    FrontFields(h.recordVersion, 4 + n, n, h.version, h.random, h.session, suites, total);
    LengthsAt(b, h.recordVersion, 4 + n,
              U24Bytes(n) + h.version + h.random + Vector8(h.session) + suites + U16Bytes(total));
  }

  lemma HelloSuites(h: Hello, b: seq<byte>)
    requires h.Fits() && At(b, 0, h.Front())
    ensures var n, f := 44 + |h.session|, |h.Front()|;
      && f <= |b| && b[43] as nat == |h.session|
      && U16At(b, n) == |h.ciphers| && b[n + 2 + |h.ciphers|] as nat == |h.compressions|
      && U16At(b, f - 2) == |ExtList(h.exts)|
  {
    hide ExtList, At, U16At, U16Bytes, U24Bytes, Vector8, Vector16;
    var n := h.BodyLength();
    var front := [0x16] + h.recordVersion + U16Bytes(4 + n) + [1] + U24Bytes(n) + h.version + h.random;
    SuitesAt(b, front, h.session, h.ciphers, h.compressions, |ExtList(h.exts)|);
  }

  /** Where a reader of a hello finds its parts. */
  lemma HelloFields(h: Hello, rest: seq<byte>)
    requires h.Fits()
    ensures var b, n := h.Record() + rest, |h.session|; var f := |h.Front()|;
      && b[0] == 0x16 && b[5] == 1 && b[43] as nat == n
      && U16At(b, 3) == 4 + h.BodyLength() == |h.Record()| - 5
      && U16At(b, 44 + n) == |h.ciphers| && b[46 + n + |h.ciphers|] as nat == |h.compressions|
      && f == 49 + n + |h.ciphers| + |h.compressions|
      && U16At(b, f - 2) == |ExtList(h.exts)| && At(b, f, ExtList(h.exts))
  {
    hide ExtList, At, U16At, Pack;
    FrontAt(h, rest);
    HelloLengths(h, h.Record() + rest);
    HelloSuites(h, h.Record() + rest);
  }

  lemma LengthsAt(b: seq<byte>, rv: seq<byte>, rec: u16, after: seq<byte>)
    requires |rv| == 2 && At(b, 0, [0x16] + rv + U16Bytes(rec) + ([1] + after))
    ensures |b| >= 6 && b[0] == 0x16 && b[5] == 1 && U16At(b, 3) == rec
  {
    hide U16Bytes, U16At;
    AtSplits(b, 0, [0x16] + rv + U16Bytes(rec), [1] + after);
    FirstAt(b, 5, [1] + after);
    AtSplits(b, 0, [0x16] + rv, U16Bytes(rec));
    FirstAt(b, 0, [0x16] + rv);
    U16Stands(b, 3, rec);
  }

  lemma SuitesAt(b: seq<byte>, front: seq<byte>, sid: seq<byte>, cs: seq<byte>, comp: seq<byte>, total: u16)
    requires |front| == 43 && |sid| <= 255 && |cs| <= U16_MAX && |comp| <= 255
    requires At(b, 0, front + Vector8(sid) + (Vector16(cs) + Vector8(comp)) + U16Bytes(total))
    ensures var n := 44 + |sid|; var f := n + 3 + |cs| + |comp|;
      && f + 2 <= |b| && b[43] as nat == |sid| && U16At(b, n) == |cs| && b[n + 2 + |cs|] as nat == |comp|
      && U16At(b, f) == total
  {
    hide U16Bytes, U16At, At;
    var n := 44 + |sid|;
    var f := n + 3 + |cs| + |comp|;
    AtSplits(b, 0, front + Vector8(sid) + (Vector16(cs) + Vector8(comp)), U16Bytes(total));
    U16Stands(b, f, total);
    AtSplits(b, 0, front + Vector8(sid), Vector16(cs) + Vector8(comp));
    AtSplits(b, 0, front, Vector8(sid));
    FirstAt(b, 43, Vector8(sid));
    AtSplits(b, n, Vector16(cs), Vector8(comp));
    AtSplits(b, n, U16Bytes(|cs|), cs);
    U16Stands(b, n, |cs|);
    FirstAt(b, n + 2 + |cs|, Vector8(comp));
  }

  lemma LocateIsScan(b: seq<byte>, cs: nat, comp: nat, total: nat)
    requires |b| >= 44 && b[0] == 0x16 && b[5] == 1 && b[43] == 32 && 81 + cs + comp + total <= |b|
    requires U16At(b, 76) == cs && b[78 + cs] as nat == comp && U16At(b, 79 + cs + comp) == total
    ensures var f := 81 + cs + comp;
      Locate(b) == match Scan(b, f, f + total)
        case None => None
        case Some((off, size)) => if off + size > f + total then None else Some(Place(f - 2, off, size))
  {
    hide Scan, U16At;
    assert 79 + cs + comp == 78 + cs + 1 + b[78 + cs] as nat;
  }

  /** Where the first server_name extension of a list at f stands. */
  function PlaceIn(exts: seq<Ext>, f: nat): Option<Place>
    requires f >= 2
  {
    var i :- FirstSni(exts);
    Some(Place(f - 2, f + |ExtList(exts[..i])|, 4 + |exts[i].data|))
  }

  lemma LocatesIn(b: seq<byte>, cs: nat, comp: nat, exts: seq<Ext>)
    requires |b| >= 44 && b[0] == 0x16 && b[5] == 1 && b[43] == 32
    requires var f := 81 + cs + comp; f + |ExtList(exts)| <= |b|
    requires U16At(b, 76) == cs && b[78 + cs] as nat == comp && U16At(b, 79 + cs + comp) == |ExtList(exts)|
    requires AllFit(exts) && At(b, 81 + cs + comp, ExtList(exts))
    ensures Locate(b) == PlaceIn(exts, 81 + cs + comp)
  {
    hide Scan, ExtList, At, U16At, Locate, AllFit;
    ScanFinds(b, 81 + cs + comp, exts);
    LocateIsScan(b, cs, comp, |ExtList(exts)|);
    if FirstSni(exts).Some? {
      ExtListSplits(exts, FirstSni(exts).value);
    }
  }

  lemma HelloHolds(h: Hello, rest: seq<byte>)
    requires h.Fits()
    ensures AllFit(h.exts) && |h.Record() + rest| >= |h.Front()| + |ExtList(h.exts)|
  {
    hide ExtList;
  }

  /** The name of a hello is found, whatever follows, if its session id is a full one. */
  lemma LocatesName(h: Hello, rest: seq<byte>)
    requires h.Fits()
    ensures |h.Front()| >= 2
    ensures Locate(h.Record() + rest) == if |h.session| == 32 then PlaceIn(h.exts, |h.Front()|) else None
  {
    HelloHolds(h, rest);
    hide *;
    HelloFields(h, rest);
    if |h.session| == 32 {
      LocatesIn(h.Record() + rest, |h.ciphers|, |h.compressions|, h.exts);
    } else {
      OtherSessionRefused(h.Record() + rest);
    }
  }

  lemma OtherSessionRefused(b: seq<byte>)
    requires |b| >= 44 && b[43] != 32
    ensures Locate(b).None?
  {
  }

  lemma RecordParts(f: seq<byte>, before: seq<byte>, x: seq<byte>, behind: seq<byte>, rest: seq<byte>)
    ensures f + (before + x + behind) + rest == f + before + x + (behind + rest) == f + (before + x + (behind + rest))
  {
  }

  lemma SplicesName(f: seq<byte>, before: seq<byte>, x: seq<byte>, tail: seq<byte>, name: seq<byte>, extOff: nat)
    ensures Spliced(f + before + x + tail, Place(extOff, |f| + |before|, |x|), name)
         == f + (before + SniExt(name) + tail)
  {
    hide SniExt;
    var b := f + before + x + tail;
    assert b[..|f| + |before|] == f + before && b[|f| + |before| + |x|..] == tail;
  }

  lemma FrontEdited(h: Hello, h': Hello, delta: int, sid: seq<byte>, rnd: seq<byte>)
    requires h.Fits() && |h.session| == 32 && |sid| == 32 && |rnd| == 32
    requires h'.Fits() && h' == h.(random := rnd, session := sid, exts := h'.exts)
    requires |ExtList(h'.exts)| == |ExtList(h.exts)| + delta
    ensures Rewritten(h.Front(), |h.Front()| - 2, delta, sid, rnd) == h'.Front()
  {
    hide ExtList, Pack, Put, Added16, Added24;
    var n, total := h.BodyLength(), |ExtList(h.exts)|;
    FrontFixed(h.recordVersion, 4 + n, n, h.version, h.random, h.session, h.Suites(), total, sid, rnd);
    FrontLengths(h.recordVersion, 4 + n, n, h.version, rnd, sid, h.Suites(), total, delta);
  }

  /**
   Replaying a template is an edit of the hello it holds: the random, the session id and the name of the
   first server_name extension are the new ones, all lengths agree with the new size, and every other byte,
   extension and the order of them is kept. It is refused exactly if the session id is not of 32 bytes or
   there is no server name.
   */
  lemma ReplayEditsHello(h: Hello, rest: seq<byte>, name: seq<byte>, sid: seq<byte>, rnd: seq<byte>)
    requires h.Fits() && |sid| == 32 && |rnd| == 32
    requires FirstSni(h.exts).Some? ==> |name| + 5 <= U16_MAX && h.With(name, sid, rnd).Fits()
    ensures Edited(h.Record() + rest, name, sid, rnd) ==
      if |h.session| != 32 || FirstSni(h.exts).None? then None else Some(h.With(name, sid, rnd).Record() + rest)
  {
    hide ExtList, Locate, Rewritten, Pack, SniData, ExtBytes;
    LocatesName(h, rest);
    if |h.session| == 32 && FirstSni(h.exts).Some? {
      var i := FirstSni(h.exts).value;
      var h', x, x' := h.With(name, sid, rnd), h.exts[i], Ext(0, SniData(name));
      var before, behind := ExtList(h.exts[..i]), ExtList(h.exts[i + 1..]);
      var delta := |x'.Bytes()| - |x.Bytes()|;
      var f := h.Front();
      ExtListSplits(h.exts, i);
      ExtListSplits(h'.exts, i);
      assert h'.exts[..i] == h.exts[..i] && h'.exts[i + 1..] == h.exts[i + 1..];
      RecordParts(f, before, x.Bytes(), behind, rest);
      RecordParts(h'.Front(), before, x'.Bytes(), behind, rest);
      SplicesName(f, before, x.Bytes(), behind + rest, name, |f| - 2);
      RewritesFront(f, before + x'.Bytes() + (behind + rest), |f| - 2, delta, sid, rnd);
      FrontEdited(h, h', delta, sid, rnd);
    }
  }

  lemma FirstSniIs(exts: seq<Ext>, i: nat)
    requires i < |exts| && exts[i].kind == 0 && forall j :: 0 <= j < i ==> exts[j].kind != 0
    ensures FirstSni(exts) == Some(i)
  {
    var k := FirstSni(exts);
    assert k.Some? && k.value >= i && k.value <= i;
  }

  /** A second replay hides the first: only its own name, session id and random remain. */
  lemma SecondReplayWins(h: Hello, rest: seq<byte>, name: seq<byte>, sid: seq<byte>, rnd: seq<byte>,
                         name': seq<byte>, sid': seq<byte>, rnd': seq<byte>)
    requires h.Fits() && |h.session| == |sid| == |rnd| == |sid'| == |rnd'| == 32 && FirstSni(h.exts).Some?
    requires |name| + 5 <= U16_MAX && h.With(name, sid, rnd).Fits()
    requires |name'| + 5 <= U16_MAX && h.With(name', sid', rnd').Fits()
    ensures var first := Edited(h.Record() + rest, name, sid, rnd);
      first.Some? && Edited(first.value, name', sid', rnd') == Edited(h.Record() + rest, name', sid', rnd')
  {
    hide Edited, Hello.Fits, Hello.Record, SniData;
    var g, i := h.With(name, sid, rnd), FirstSni(h.exts).value;
    ReplayEditsHello(h, rest, name, sid, rnd);
    ReplayEditsHello(h, rest, name', sid', rnd');
    FirstSniIs(g.exts, i);
    assert g.With(name', sid', rnd').exts == h.With(name', sid', rnd').exts;
    ReplayEditsHello(g, rest, name', sid', rnd');
  }

  /** Whatever the template, what is replayed holds the random and the session id where a server reads them. */
  lemma FixedFieldsReadBack(tpl: seq<byte>, name: seq<byte>, sid: seq<byte>, rnd: seq<byte>)
    requires |sid| == 32 && |rnd| == 32 && Edited(tpl, name, sid, rnd).Some?
    ensures var out := Edited(tpl, name, sid, rnd).value;
      && |out| == |tpl| + 9 + |name| - Locate(tpl).value.sniSize && |out| >= 81
      && out[11..43] == rnd && out[44..76] == sid
  {
    hide Spliced, Put, Added16, Added24;
    var at := Locate(tpl).value;
    var delta := |SniExt(name)| - at.sniSize;
    var b0 := Spliced(tpl, at, name);
    var b2 := Put(Put(b0, 11, rnd), 44, sid);
    PutReads(b0, 11, rnd);
    PutReads(Put(b0, 11, rnd), 44, sid);
    PutElsewhere(Put(b0, 11, rnd), 44, sid, 11, 43);
    LengthsElsewhere(b2, at.extOff, delta, 11, 43);
    LengthsElsewhere(b2, at.extOff, delta, 44, 76);
  }

  lemma LengthsElsewhere(b: seq<byte>, extOff: nat, delta: int, i: nat, j: nat)
    requires 9 <= i <= j <= extOff && extOff + 2 <= |b|
    ensures Added16(Added24(Added16(b, 3, delta), 6, delta), extOff, delta)[i..j] == b[i..j]
  {
    hide Put, U16At, U24At;
    var b3 := Added16(b, 3, delta);
    var b4 := Added24(b3, 6, delta);
    PutElsewhere(b, 3, U16Bytes((U16At(b, 3) + delta) % 0x1_0000), i, j);
    PutElsewhere(b3, 6, U24Bytes((U24At(b3, 6) + delta) % 0x100_0000), i, j);
    PutElsewhere(b4, extOff, U16Bytes((U16At(b4, extOff) + delta) % 0x1_0000), i, j);
  }

  lemma PutElsewhere(b: seq<byte>, off: nat, e: seq<byte>, i: nat, j: nat)
    requires off + |e| <= |b| && i <= j <= |b| && (j <= off || off + |e| <= i)
    ensures Put(b, off, e)[i..j] == b[i..j]
  {
  }

  lemma PutReads(b: seq<byte>, off: nat, e: seq<byte>)
    requires off + |e| <= |b|
    ensures Put(b, off, e)[off..off + |e|] == e
  {
  }
}
