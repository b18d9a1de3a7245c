/**
 The sniffer that reads the host name out of a TLS ClientHello. It is written without regard to how hellos
 are built here, and reads back what ClientHello writes.
 */
module Sniffer {
  import opened Prelude
  import opened Bytes
  import opened ClientHello
  import opened Unicode

  // ---- The parser ------------------------------------------------------------------------------

  function Host(name: seq<byte>): seq<byte> {
    LowerBytes(TrimDotBytes(name))
  }

  /** The first host name in a server_name extension's content, from cur on. */
  function NameIn(data: seq<byte>, cur: nat): Option<seq<byte>>
    decreases |data| - cur
  {
    if cur + 3 > |data| then None else
      var len := U16At(data, cur + 1);
      if data[cur] == 0 && cur + 3 + len <= |data| && Utf8(data[cur + 3..cur + 3 + len])
      then Some(Host(data[cur + 3..cur + 3 + len]))
      else NameIn(data, cur + 3 + len)
  }

  function HostInExts(b: seq<byte>, cur: nat, end: nat): Option<seq<byte>>
    requires end <= |b|
    decreases end - cur
  {
    if cur + 4 > end then None else
      var len := U16At(b, cur + 2);
      if cur + 4 + len > end then None else
        var name := if U16At(b, cur) == 0 && len >= 2 then NameIn(b[cur + 4..cur + 4 + len], 2) else None;
        if name.Some? then name else HostInExts(b, cur + 4 + len, end)
  }

  /** The host of a handshake message. */
  function HelloHost(data: seq<byte>): Option<seq<byte>> {
    if |data| < 39 || data[0] != 1 then None else
      var cs := 39 + data[38] as nat;
      var csLen :- ReadU16(data, cs);
      var comp := cs + 2 + csLen;
      if comp >= |data| then None else
        var ext := comp + 1 + data[comp] as nat;
        var total :- ReadU16(data, ext);
        HostInExts(data, ext + 2, Min(ext + 2 + total, |data|))
  }

  function TlsHost(b: seq<byte>): Option<seq<byte>> {
    if |b| < 5 || b[0] != 0x16 then None else
      var len := U16At(b, 3);
      HelloHost(if |b| >= 5 + len then b[5..5 + len] else b[5..])
  }

  method FindName(data: seq<byte>) returns (r: Option<seq<byte>>)
    ensures r == NameIn(data, 2)
  {
    var cur := 2;
    while cur + 3 <= |data|
      invariant cur >= 2 && NameIn(data, 2) == NameIn(data, cur)
      decreases |data| - cur
    {
      var kind, len := data[cur], U16At(data, cur + 1);
      cur := cur + 3;
      if kind == 0 && cur + len <= |data| {
        if Utf8(data[cur..cur + len]) {
          return Some(Host(data[cur..cur + len]));
        }
      }
      cur := cur + len;
    }
    return None;
  }

  method FindHost(data: seq<byte>, start: nat, end: nat) returns (r: Option<seq<byte>>)
    requires end <= |data|
    ensures r == HostInExts(data, start, end)
  {
    hide U16At, NameIn;
    var cur := start;
    while cur + 4 <= end
      invariant start <= cur && HostInExts(data, start, end) == HostInExts(data, cur, end)
      decreases end - cur
    {
      var kind, len := U16At(data, cur), U16At(data, cur + 2);
      cur := cur + 4;
      if cur + len > end {
        return None;
      }
      if kind == 0 {
        if len >= 2 {
          var name := FindName(data[cur..cur + len]);
          if name.Some? {
            return name;
          }
        }
      }
      cur := cur + len;
    }
    return None;
  }

  method ParseClientHelloPayload(data: seq<byte>) returns (r: Option<seq<byte>>)
    ensures r == HelloHost(data)
  {
    hide U16At, HostInExts;
    if |data| < 4 || data[0] != 1 {
      return None;
    }
    var cur := 4;
    if cur + 2 > |data| {
      return None;
    }
    cur := cur + 2;
    if cur + 32 > |data| {
      return None;
    }
    cur := cur + 32;
    if cur >= |data| {
      return None;
    }
    cur := cur + 1 + data[cur] as nat;
    if cur + 2 > |data| {
      return None;
    }
    cur := cur + 2 + U16At(data, cur);
    if cur >= |data| {
      return None;
    }
    cur := cur + 1 + data[cur] as nat;
    if cur + 2 > |data| {
      return None;
    }
    var total := U16At(data, cur);
    cur := cur + 2;
    var end := Min(cur + total, |data|);
    r := FindHost(data, cur, end);
  }

  // ---- What it reads ---------------------------------------------------------------------------

  /** The first host name of the first extension that has one. */
  function HostOf(exts: seq<Ext>): Option<seq<byte>> {
    if exts == [] then None else
      var x := exts[0];
      var name := if x.kind == 0 && |x.data| >= 2 then NameIn(x.data, 2) else None;
      if name.Some? then name else HostOf(exts[1..])
  }

  lemma {:induction false} ReadsExts(b: seq<byte>, off: nat, exts: seq<Ext>)
    requires AllFit(exts) && At(b, off, ExtList(exts))
    ensures HostInExts(b, off, off + |ExtList(exts)|) == HostOf(exts)
    decreases |exts|
  {
    hide At, U16At, NameIn;
    if exts != [] {
      AtSplits(b, off, exts[0].Bytes(), ExtList(exts[1..]));
      ExtFields(b, off, exts[0]);
      ReadsExts(b, off + |exts[0].Bytes()|, exts[1..]);
    }
  }

  lemma HelloHostIs(data: seq<byte>, n: nat, cs: nat, comp: nat, total: nat)
    requires var f := 44 + n + cs + comp; f + total <= |data| && data[0] == 1 && data[38] as nat == n
    requires U16At(data, 39 + n) == cs && data[41 + n + cs] as nat == comp && U16At(data, 42 + n + cs + comp) == total
    ensures var f := 44 + n + cs + comp; HelloHost(data) == HostInExts(data, f, f + total)
  {
    hide U16At, HostInExts;
  }

  lemma Shifted(b: seq<byte>, k: nat, off: nat, e: seq<byte>, end: nat)
    requires k <= off && off + |e| <= end <= |b| && At(b, off, e)
    ensures At(b[k..end], off - k, e)
  {
    forall j | 0 <= j < |e|
      ensures b[k..end][off - k + j] == e[j]
    {
      assert e[j] == b[off..off + |e|][j];
    }
    assert b[k..end][off - k..off - k + |e|] == e;
  }

  /** Whatever stands behind the extensions, inside the record or after it, is not looked at. */
  lemma SniffsIn(b: seq<byte>, n: nat, cs: nat, comp: nat, exts: seq<Ext>)
    requires var end := 49 + n + cs + comp + |ExtList(exts)|;
      && end <= |b| && end <= 5 + U16At(b, 3) <= |b| && b[0] == 0x16 && b[5] == 1 && b[43] as nat == n
    requires U16At(b, 44 + n) == cs && b[46 + n + cs] as nat == comp && U16At(b, 47 + n + cs + comp) == |ExtList(exts)|
    requires AllFit(exts) && At(b, 49 + n + cs + comp, ExtList(exts))
    ensures TlsHost(b) == HostOf(exts)
  {
    hide *;
    var f := 49 + n + cs + comp;
    var end := 5 + U16At(b, 3) as nat;
    SniffsRecord(b, end - 5);
    U16Shifted(b, 5, 44 + n, end);
    U16Shifted(b, 5, f - 2, end);
    HelloHostIs(b[5..end], n, cs, comp, |ExtList(exts)|);
    Shifted(b, 5, f, ExtList(exts), end);
    ReadsExts(b[5..end], f - 5, exts);
  }

  /** From any well-formed hello the sniffer reads the host name its extensions give. */
  lemma SnifferReadsHello(h: Hello, rest: seq<byte>)
    requires h.Fits()
    ensures TlsHost(h.Record() + rest) == HostOf(h.exts)
  {
    hide At, U16At, ExtList, TlsHost, HostOf;
    HelloFields(h, rest);
    SniffsIn(h.Record() + rest, |h.session|, |h.ciphers|, |h.compressions|, h.exts);
  }

  lemma SniffsRecord(b: seq<byte>, len: nat)
    requires 5 + len <= |b| && b[0] == 0x16 && U16At(b, 3) == len
    ensures TlsHost(b) == HelloHost(b[5..5 + len])
  {
  }

  lemma U16Shifted(b: seq<byte>, k: nat, off: nat, end: nat)
    requires k <= off && off + 2 <= end <= |b|
    ensures U16At(b[k..end], off - k) == U16At(b, off)
  {
  }

  /** What is no handshake record, or no hello in it, has no host name. */
  lemma SnifferRefuses(b: seq<byte>)
    ensures |b| < 5 || b[0] != 0x16 ==> TlsHost(b).None?
    ensures |b| >= 6 && b[5] != 1 ==> TlsHost(b).None?
  {
    if |b| >= 6 && b[0] == 0x16 {
      var len: nat := U16At(b, 3);
      var data := if |b| >= 5 + len then b[5..5 + len] else b[5..];
      assert data != [] ==> data[0] == b[5];
      hide U16At, HostInExts;
    }
  }

  /** A name as it is reported: its letters without capitals, and without the dots at its end. */
  lemma HostIs(name: seq<byte>)
    ensures var n := Host(name);
      && |n| <= |name| && SameLetterBytes(n, name[..|n|]) && OnlyDotBytes(name[|n|..])
      && (forall i :: 0 <= i < |n| ==> !(65 <= n[i] <= 90)) && (n != [] ==> n[|n| - 1] != 46)
  {
    CleanedBytes(name);
  }

  // ---- Lists of names --------------------------------------------------------------------------

  /** The names of a server_name extension, each behind its type and its length. */
  function NameList(names: seq<(byte, seq<byte>)>): seq<byte> {
    if names == [] then [] else
      [names[0].0] + U16Bytes(|names[0].1| % 0x1_0000) + names[0].1 + NameList(names[1..])
  }

  /** The first name of type 0 that is text. */
  function FirstHost(names: seq<(byte, seq<byte>)>): Option<seq<byte>> {
    if names == [] then None
    else if names[0].0 == 0 && Utf8(names[0].1) then Some(Host(names[0].1))
    else FirstHost(names[1..])
  }

  /** Of any list of names, whatever types and bytes come first, the first host name that is text is read. */
  lemma {:induction false} NamesRead(data: seq<byte>, cur: nat, names: seq<(byte, seq<byte>)>)
    requires forall i :: 0 <= i < |names| ==> |names[i].1| <= U16_MAX
    requires At(data, cur, NameList(names)) && cur + |NameList(names)| == |data|
    ensures NameIn(data, cur) == FirstHost(names)
    decreases |names|
  {
    hide At, Utf8, Host, U16Bytes, U16At;
    if names != [] {
      var (kind, name) := names[0];
      var head := [kind] + U16Bytes(|name|);
      AtSplits(data, cur, head + name, NameList(names[1..]));
      AtSplits(data, cur, head, name);
      AtSplits(data, cur, [kind], U16Bytes(|name|));
      FirstAt(data, cur, [kind]);
      U16Stands(data, cur + 1, |name|);
      NameStands(data, cur + 3, name);
      NamesRead(data, cur + 3 + |name|, names[1..]);
    }
  }

  lemma NameStands(data: seq<byte>, off: nat, name: seq<byte>)
    requires At(data, off, name)
    ensures off + |name| <= |data| && data[off..off + |name|] == name
  {
  }

  // ---- Written and read back -------------------------------------------------------------------

  lemma ReadsSniData(name: seq<byte>)
    requires |name| + 3 <= U16_MAX && Utf8(name)
    ensures NameIn(SniData(name), 2) == Some(Host(name))
  {
    hide Utf8, Host, U16Bytes, U16At;
    var d := SniData(name);
    var head := U16Bytes(3 + |name|) + [0];
    Middle(head, U16Bytes(|name|), name);
    U16Stands(d, 3, |name|);
    assert d[2] == head[2] && d[5..5 + |name|] == name;
  }

  lemma {:induction false} FirstSniNames(exts: seq<Ext>, i: nat, name: seq<byte>)
    requires FirstSni(exts) == Some(i) && exts[i].data == SniData(name) && |name| + 3 <= U16_MAX && Utf8(name)
    ensures HostOf(exts) == Some(Host(name))
  {
    hide NameIn, SniData, Utf8;
    if exts[0].kind == 0 {
      ReadsSniData(name);
    } else {
      FirstSniNames(exts[1..], i - 1, name);
    }
  }

  /** A template replayed with a name is sniffed as that name, in lower case and without dots at its end. */
  lemma ReplayedNameReadsBack(h: Hello, rest: seq<byte>, name: seq<byte>, sid: seq<byte>, rnd: seq<byte>)
    requires h.Fits() && |h.session| == |sid| == |rnd| == 32 && FirstSni(h.exts).Some?
    requires |name| + 5 <= U16_MAX && h.With(name, sid, rnd).Fits() && Utf8(name)
    ensures var out := Edited(h.Record() + rest, name, sid, rnd);
      out.Some? && TlsHost(out.value) == Some(Host(name))
  {
    hide Edited, TlsHost, HostOf, Utf8, Host, SniData, Hello.Record, Hello.Fits;
    var i := FirstSni(h.exts).value;
    var g := h.With(name, sid, rnd);
    ReplayEditsHello(h, rest, name, sid, rnd);
    SnifferReadsHello(g, rest);
    FirstSniIs(g.exts, i);
    FirstSniNames(g.exts, i, name);
  }

  /** An assembled hello is sniffed as its name wherever the profile's shuffle puts the server_name extension. */
  lemma AssembledNameReadsBack(h: Hello, name: seq<byte>)
    requires h.Fits() && h.recordVersion == [3, 1] && h.version == [3, 3] && h.compressions == [0]
    requires FirstSni(h.exts).Some? && h.exts[FirstSni(h.exts).value].data == SniData(name)
    requires |name| + 3 <= U16_MAX && Utf8(name)
    ensures TlsHost(Assemble(h.session, h.random, h.ciphers, ExtList(h.exts))) == Some(Host(name))
  {
    hide TlsHost, HostOf, Utf8, Host, SniData, Hello.Record, Hello.Fits, Assemble;
    AssembledIsHello(h);
    SnifferReadsHello(h, []);
    assert h.Record() + [] == h.Record();
    FirstSniNames(h.exts, FirstSni(h.exts).value, name);
  }
}
