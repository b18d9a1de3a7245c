/** UTF-8: which bytes are text, the text read from any bytes, and the white space at its ends. */
module Unicode {
  import opened Prelude
  import opened Bytes

  predicate Continues(s: seq<byte>, from: nat, count: nat) {
    from + count <= |s| && forall i :: from <= i < from + count ==> 0x80 <= s[i] <= 0xBF
  }

  /** The second byte that may follow b at the start of a character of three or four bytes. */
  predicate Second(b: byte, c: byte) {
    && 0x80 <= c <= 0xBF
    && (b == 0xE0 ==> c >= 0xA0) && (b == 0xED ==> c <= 0x9F)
    && (b == 0xF0 ==> c >= 0x90) && (b == 0xF4 ==> c <= 0x8F)
  }

  /** The length of the character at the start, or 0 if it is none: table 3-7 of the Unicode standard. */
  function CharLength(s: seq<byte>): (n: nat)
    requires s != []
    ensures n <= |s| && n <= 4
  {
    var b := s[0];
    if b < 0x80 then 1
    else if 0xC2 <= b <= 0xDF && Continues(s, 1, 1) then 2
    else if 0xE0 <= b <= 0xEF && Continues(s, 1, 2) && Second(b, s[1]) then 3
    else if 0xF0 <= b <= 0xF4 && Continues(s, 1, 3) && Second(b, s[1]) then 4
    else 0
  }

  predicate Utf8(s: seq<byte>)
    decreases |s|
  {
    s == [] || (CharLength(s) > 0 && Utf8(s[CharLength(s)..]))
  }

  /** The bytes of the character of a number. */
  function Encoded(n: nat): seq<byte>
    requires n < 0x11_0000
  {
    if n < 0x80 then [n as byte]
    else if n < 0x800 then [(0xC0 + n / 64) as byte, (0x80 + n % 64) as byte]
    else if n < 0x1_0000 then [(0xE0 + n / 4096) as byte, (0x80 + n / 64 % 64) as byte, (0x80 + n % 64) as byte]
    else [(0xF0 + n / 0x4_0000) as byte, (0x80 + n / 4096 % 64) as byte, (0x80 + n / 64 % 64) as byte,
          (0x80 + n % 64) as byte]
  }

  /** Every character but the surrogates is one of those that text is made of. */
  lemma EncodedIsChar(n: nat)
    requires n < 0xD800 || 0xE000 <= n < 0x11_0000
    ensures CharLength(Encoded(n)) == |Encoded(n)|
  {
    if n >= 0x1_0000 {
      LongIsChar(n);
    }
  }

  lemma LongIsChar(n: nat)
    requires 0x1_0000 <= n < 0x11_0000
    ensures CharLength(Encoded(n)) == 4
  {
    var s := Encoded(n);
    assert s[0] as nat == 0xF0 + n / 0x4_0000 && s[1] as nat == 0x80 + n / 4096 % 64;
    assert Continues(s, 1, 3);
  }

  // ---- Replacing what is no text ---------------------------------------------------------------

  /** The length of what one replacement character stands for: the start of a character as far as it goes. */
  function BadLength(s: seq<byte>): (n: nat)
    requires s != []
    ensures 1 <= n <= |s|
  {
    if 0xE0 <= s[0] <= 0xF4 && |s| >= 2 && Second(s[0], s[1]) then
      if s[0] >= 0xF0 && Continues(s, 2, 1) then 3 else 2
    else 1
  }

  const REPLACEMENT: seq<byte> := [0xEF, 0xBF, 0xBD]

  function Lossy(s: seq<byte>): seq<byte>
    decreases |s|
  {
    if s == [] then []
    else if CharLength(s) > 0 then s[..CharLength(s)] + Lossy(s[CharLength(s)..])
    else REPLACEMENT + Lossy(s[BadLength(s)..])
  }

  lemma CharStands(s: seq<byte>, rest: seq<byte>)
    requires s != [] && CharLength(s) > 0
    ensures CharLength(s[..CharLength(s)] + rest) == CharLength(s)
  {
    var c := s[..CharLength(s)];
    var t := c + rest;
    assert forall i :: 0 <= i < |c| ==> t[i] == s[i];
  }

  lemma CharInFront(c: seq<byte>, rest: seq<byte>)
    requires c != [] && CharLength(c + rest) == |c| && Utf8(rest)
    ensures Utf8(c + rest)
  {
    assert (c + rest)[|c|..] == rest;
  }

  /** Whatever the bytes, what is read is text, and it is the bytes themselves exactly if they are. */
  lemma {:induction false} LossyIsText(s: seq<byte>)
    ensures Utf8(Lossy(s)) && (Lossy(s) == s <==> Utf8(s))
    decreases |s|
  {
    hide CharLength, BadLength;
    if s != [] {
      var n := CharLength(s);
      if n > 0 {
        LossyIsText(s[n..]);
        CharStands(s, Lossy(s[n..]));
        CharInFront(s[..n], Lossy(s[n..]));
        assert s[..n] + s[n..] == s;
      } else {
        LossyIsText(s[BadLength(s)..]);
        ReplacementIsChar(Lossy(s[BadLength(s)..]));
        CharInFront(REPLACEMENT, Lossy(s[BadLength(s)..]));
      }
    }
  }

  lemma ReplacementIsChar(rest: seq<byte>)
    ensures CharLength(REPLACEMENT + rest) == 3
  {
    var t := REPLACEMENT + rest;
    assert t[0] == 0xEF && t[1] == 0xBF && t[2] == 0xBD;
  }

  // ---- White space -----------------------------------------------------------------------------

  /** The characters with the White_Space property. */
  predicate IsSpace(c: seq<byte>) {
    if |c| == 1 then 9 <= c[0] <= 13 || c[0] == 32
    else if |c| == 2 then c[0] == 0xC2 && (c[1] == 0x85 || c[1] == 0xA0)
    else if |c| == 3 then
      || c == [0xE1, 0x9A, 0x80]
      || (c[0] == 0xE2 && c[1] == 0x80 && (0x80 <= c[2] <= 0x8A || c[2] == 0xA8 || c[2] == 0xA9 || c[2] == 0xAF))
      || c == [0xE2, 0x81, 0x9F]
      || c == [0xE3, 0x80, 0x80]
    else false
  }

  /** The length of the space at the start, 0 if there is none. */
  function SpaceInFront(s: seq<byte>): (n: nat)
    ensures n <= |s|
  {
    if |s| >= 1 && IsSpace(s[..1]) then 1
    else if |s| >= 2 && IsSpace(s[..2]) then 2
    else if |s| >= 3 && IsSpace(s[..3]) then 3
    else 0
  }

  function SpaceBehind(s: seq<byte>): (n: nat)
    ensures n <= |s|
  {
    if |s| >= 1 && IsSpace(s[|s| - 1..]) then 1
    else if |s| >= 2 && IsSpace(s[|s| - 2..]) then 2
    else if |s| >= 3 && IsSpace(s[|s| - 3..]) then 3
    else 0
  }

  lemma SpaceSize(c: seq<byte>)
    ensures IsSpace(c) ==> 1 <= |c| <= 3
  {
  }

  lemma SpaceInFrontFound(s: seq<byte>, k: nat)
    requires k <= |s| && IsSpace(s[..k])
    ensures SpaceInFront(s) > 0
  {
    SpaceSize(s[..k]);
    hide IsSpace;
    assert k == 1 || k == 2 || k == 3;
  }

  lemma SpaceBehindFound(s: seq<byte>, k: nat)
    requires k <= |s| && IsSpace(s[k..])
    ensures SpaceBehind(s) > 0
  {
    SpaceSize(s[k..]);
    hide IsSpace;
    assert k == |s| - 1 || k == |s| - 2 || k == |s| - 3;
  }

  lemma SpaceInFrontIs(s: seq<byte>)
    ensures SpaceInFront(s) > 0 ==> IsSpace(s[..SpaceInFront(s)])
  {
    hide IsSpace;
  }

  lemma SpaceBehindIs(s: seq<byte>)
    ensures SpaceBehind(s) > 0 ==> IsSpace(s[|s| - SpaceBehind(s)..])
  {
    hide IsSpace;
  }

  /** A text without the spaces at its ends. */
  function TrimSpaces(s: seq<byte>): seq<byte>
    decreases |s|
  {
    if SpaceInFront(s) > 0 then TrimSpaces(s[SpaceInFront(s)..])
    else if SpaceBehind(s) > 0 then TrimSpaces(s[..|s| - SpaceBehind(s)])
    else s
  }

  predicate AllSpaces(cs: seq<seq<byte>>) {
    forall i :: 0 <= i < |cs| ==> IsSpace(cs[i])
  }

  /** What goes is spaces in front and spaces behind. */
  lemma {:induction false} TrimSpacesIsRest(s: seq<byte>) returns (front: seq<seq<byte>>, behind: seq<seq<byte>>)
    ensures AllSpaces(front) && AllSpaces(behind)
    ensures s == Flatten(front) + TrimSpaces(s) + Flatten(behind)
    decreases |s|
  {
    hide IsSpace, SpaceInFront, SpaceBehind, Flatten, TrimSpaces;
    TrimStep(s);
    var n, m := SpaceInFront(s), SpaceBehind(s);
    if n > 0 {
      front, behind := TrimSpacesIsRest(s[n..]);
      SpaceInFrontIs(s);
      FrontGrows(s[..n], front, TrimSpaces(s), behind);
      assert s == s[..n] + s[n..];
      front := [s[..n]] + front;
    } else if m > 0 {
      var kept := |s| - m;
      front, behind := TrimSpacesIsRest(s[..kept]);
      SpaceBehindIs(s);
      BehindGrows(Flatten(front) + TrimSpaces(s), behind, s[kept..]);
      assert s == s[..kept] + s[kept..];
      behind := behind + [s[kept..]];
    } else {
      front, behind := [], [];
      NothingFlattens();
      assert s == [] + s + [];
    }
  }

  lemma FrontGrows(x: seq<byte>, front: seq<seq<byte>>, mid: seq<byte>, behind: seq<seq<byte>>)
    ensures Flatten([x] + front) + mid + Flatten(behind) == x + (Flatten(front) + mid + Flatten(behind))
  {
    FlattenCons(x, front);
    AppendAssociates(x, Flatten(front), mid);
    AppendAssociates(x, Flatten(front) + mid, Flatten(behind));
  }

  lemma BehindGrows(rest: seq<byte>, behind: seq<seq<byte>>, x: seq<byte>)
    ensures rest + Flatten(behind + [x]) == rest + Flatten(behind) + x
  {
    FlattenSnoc(behind, x);
    AppendAssociates(rest, Flatten(behind), x);
  }

  lemma TrimStep(s: seq<byte>)
    ensures TrimSpaces(s)
         == if SpaceInFront(s) > 0 then TrimSpaces(s[SpaceInFront(s)..])
            else if SpaceBehind(s) > 0 then TrimSpaces(s[..|s| - SpaceBehind(s)])
            else s
  {
  }

  /** What stays has no space at either end. */
  lemma {:induction false} TrimSpacesTakesAll(s: seq<byte>, k: nat)
    requires k <= |TrimSpaces(s)|
    ensures !IsSpace(TrimSpaces(s)[..k]) && !IsSpace(TrimSpaces(s)[k..])
    decreases |s|
  {
    hide IsSpace, SpaceInFront, SpaceBehind;
    if SpaceInFront(s) > 0 {
      TrimSpacesTakesAll(s[SpaceInFront(s)..], k);
    } else if SpaceBehind(s) > 0 {
      TrimSpacesTakesAll(s[..|s| - SpaceBehind(s)], k);
    } else {
      if IsSpace(s[..k]) {
        SpaceInFrontFound(s, k);
      }
      if IsSpace(s[k..]) {
        SpaceBehindFound(s, k);
      }
    }
  }

  lemma FlattenCons(x: seq<byte>, more: seq<seq<byte>>)
    ensures Flatten([x] + more) == x + Flatten(more)
  {
    assert ([x] + more)[1..] == more;
  }

  lemma NothingFlattens()
    ensures Flatten<byte>([]) == []
  {
  }
}
