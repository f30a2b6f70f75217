/**
 JSON Pointers: parsing a string or URI fragment into tokens, and writing tokens as either, for UTF-8 text
 (RFC 6901).  The grammar of names is specified by functions on the text; the class `Pointer` works in buffers.
 */
module JsonPointer {
  import opened Slices
  import opened Utf
  import opened Wrappers

  const HASH: Byte := 0x23
  const PERCENT: Byte := 0x25
  const SLASH: Byte := 0x2F
  const ZERO: Byte := 0x30
  const ONE: Byte := 0x31
  const NINE: Byte := 0x39
  const TILDE: Byte := 0x7E

  type Name = seq<Byte>

  // ---- percent encoding ----------------------------------------------------------------

  /** All but the unreserved characters of section 2.3 of RFC 3986. */
  predicate NeedPercentEncode(c: Byte) {
    !(ZERO <= c <= NINE || 0x41 <= c <= 0x5A || 0x61 <= c <= 0x7A || c == 0x2D || c == 0x2E || c == 0x5F || c == TILDE)
  }

  function HexDigit(n: nat): Byte
    requires n < 16
  {
    if n < 10 then ZERO + n else 0x41 + (n - 10)
  }

  function HexValue(c: Byte): Option<nat> {
    if ZERO <= c <= NINE then Some(c - ZERO)
    else if 0x41 <= c <= 0x46 then Some(c - 0x41 + 10)
    else if 0x61 <= c <= 0x66 then Some(c - 0x61 + 10)
    else None
  }

  function Triplet(b: Byte): Name {
    [PERCENT, HexDigit(b / 16), HexDigit(b % 16)]
  }

  function Triplets(s: Name): Name {
    if s == [] then [] else Triplet(s[0]) + Triplets(s[1..])
  }

  /** The byte of the triplet that starts the text. */
  function TripletValue(s: Name): Option<Byte> {
    if |s| < 3 || s[0] != PERCENT then None
    else
      var h, l := HexValue(s[1]), HexValue(s[2]);
      if h.None? || l.None? then None else Some(Nibbles(h.value, l.value))
  }

  /** Digits are written in upper case and read in either. */
  lemma HexDigitIs(k: nat)
    requires k < 16
    ensures HexDigit(k) == "0123456789ABCDEF"[k] as int
    ensures HexValue("0123456789ABCDEF"[k] as int) == HexValue("0123456789abcdef"[k] as int) == Some(k)
  {
  }

  /** A triplet is its byte in hexadecimal, the high digit first. */
  lemma TripletIsHex(h: nat, l: nat, a: Byte, b: Byte, rest: Name)
    requires h < 16 && l < 16 && HexValue(a) == Some(h) && HexValue(b) == Some(l)
    ensures Triplet(16 * h + l) == [PERCENT, HexDigit(h), HexDigit(l)]
    ensures TripletValue([PERCENT, a, b] + rest) == Some(16 * h + l)
  {
    hide HexDigit, HexValue;
  }

  /** The unreserved characters of section 2.3 of RFC 3986. */
  lemma UnreservedAre(c: char)
    requires c < 256 as char
    ensures !NeedPercentEncode(c as int) <==>
            'A' <= c <= 'Z' || 'a' <= c <= 'z' || '0' <= c <= '9' || c == '-' || c == '.' || c == '_' || c == '~'
  {
  }

  function Nibbles(h: nat, l: nat): Byte {
    (h * 16 + l) % 256
  }

  /** The bytes of the triplets that start the text, at most `n`. */
  function DecodedTriplets(s: Name, n: nat): Name {
    if n == 0 || TripletValue(s).None? then []
    else [TripletValue(s).value] + DecodedTriplets(s[3..], n - 1)
  }

  lemma TripletDecodes(b: Byte, rest: Name)
    ensures TripletValue(Triplet(b) + rest) == Some(b)
    ensures (Triplet(b) + rest)[3..] == rest
  {
    assert HexValue(HexDigit(b / 16)) == Some(b / 16) && HexValue(HexDigit(b % 16)) == Some(b % 16);
  }

  lemma {:induction false} TripletsDecode(s: Name, rest: Name, n: nat)
    requires |s| <= n
    ensures |Triplets(s)| == 3 * |s|
    ensures DecodedTriplets(Triplets(s) + rest, n) == s + DecodedTriplets(rest, n - |s|)
  {
    if s == [] {
      assert Triplets(s) + rest == rest;
    } else {
      var more := Triplets(s[1..]) + rest;
      TripletDecodes(s[0], more);
      TripletsDecode(s[1..], rest, n - 1);
      hide TripletValue;
      Regroup(Triplet(s[0]), Triplets(s[1..]), rest);
      hide Triplet;
      Regroup([s[0]], s[1..], DecodedTriplets(rest, n - |s|));
      assert [s[0]] + s[1..] == s;
    }
  }

  // ---- parsing -------------------------------------------------------------------------

  /** A name and what follows it. */
  datatype Parsed = Parsed(name: Name, rest: Name)

  function Before(c: Name, p: Option<Parsed>): Option<Parsed> {
    if p.None? then None else Some(Parsed(c + p.value.name, p.value.rest))
  }

  /** How many bytes the percent-encoded character has that starts the text; 0 if it is none. */
  function EncodedLength(s: Name): nat {
    CharLength(DecodedTriplets(s, 4))
  }

  /** The name up to the next slash: `~0` and `~1` stand for tilde and slash; in a fragment every character that
      needs it must be percent-encoded, as whole UTF-8 characters. */
  function ParseName(fragment: bool, s: Name): Option<Parsed>
    decreases |s|, 1
  {
    if s == [] || s[0] == SLASH then Some(Parsed([], s))
    else if fragment && s[0] == PERCENT then
      var n := EncodedLength(s);
      if n == 0 || |s| < 3 * n then None
      else if n == 1 then Unescaped(fragment, DecodedTriplets(s, 4)[0], s[3..])
      else Before(DecodedTriplets(s, 4)[..n], ParseName(fragment, s[3 * n..]))
    else if fragment && NeedPercentEncode(s[0]) then None
    else Unescaped(fragment, s[0], s[1..])
  }

  /** The name that goes on with the character `c`, already taken. */
  function Unescaped(fragment: bool, c: Byte, s: Name): Option<Parsed>
    decreases |s|, 2
  {
    if c != TILDE then Before([c], ParseName(fragment, s))
    else if s == [] then None
    else if s[0] == ZERO then Before([TILDE], ParseName(fragment, s[1..]))
    else if s[0] == ONE then Before([SLASH], ParseName(fragment, s[1..]))
    else None
  }

  lemma {:induction false} NameEnds(fragment: bool, s: Name)
    ensures var p := ParseName(fragment, s);
            p.Some? ==> |p.value.rest| <= |s| && (p.value.rest == [] || p.value.rest[0] == SLASH)
    decreases |s|, 1
  {
    if s == [] || s[0] == SLASH {
    } else if fragment && s[0] == PERCENT {
      var n := EncodedLength(s);
      if n == 0 || |s| < 3 * n {
      } else if n == 1 {
        UnescapedEnds(fragment, DecodedTriplets(s, 4)[0], s[3..]);
      } else {
        NameEnds(fragment, s[3 * n..]);
      }
    } else {
      UnescapedEnds(fragment, s[0], s[1..]);
    }
  }

  lemma {:induction false} UnescapedEnds(fragment: bool, c: Byte, s: Name)
    ensures var p := Unescaped(fragment, c, s);
            p.Some? ==> |p.value.rest| <= |s| && (p.value.rest == [] || p.value.rest[0] == SLASH)
    decreases |s|, 2
  {
    if c != TILDE {
      NameEnds(fragment, s);
    } else if s != [] {
      NameEnds(fragment, s[1..]);
    }
  }

  /** The names of a text of slashes and names. */
  function ParseNames(fragment: bool, s: Name): Option<seq<Name>>
    decreases |s|
  {
    if s == [] then Some([])
    else if s[0] != SLASH then None
    else
      NameEnds(fragment, s[1..]);
      var p := ParseName(fragment, s[1..]);
      if p.None? then None
      else
        var names := ParseNames(fragment, p.value.rest);
        if names.None? then None else Some([p.value.name] + names.value)
  }

  /** A pointer text, either form. */
  function Names(s: Name): Option<seq<Name>> {
    if s != [] && s[0] == HASH then ParseNames(true, s[1..]) else ParseNames(false, s)
  }

  // ---- writing -------------------------------------------------------------------------

  function Escaped(c: Byte): Name {
    if c == TILDE then [TILDE, ZERO] else if c == SLASH then [TILDE, ONE] else [c]
  }

  function NameText(name: Name): Name {
    if name == [] then [] else Escaped(name[0]) + NameText(name[1..])
  }

  function Text(names: seq<Name>): Name {
    if names == [] then [] else [SLASH] + NameText(names[0]) + Text(names[1..])
  }

  /** A name in a fragment; None if it is not UTF-8. */
  function NameFragment(name: Name): Option<Name>
    decreases |name|
  {
    if name == [] then Some([])
    else if name[0] == TILDE || name[0] == SLASH then Joined(Escaped(name[0]), NameFragment(name[1..]))
    else if NeedPercentEncode(name[0]) then
      var n := CharLength(name);
      if n == 0 then None else Joined(Triplets(name[..n]), NameFragment(name[n..]))
    else Joined([name[0]], NameFragment(name[1..]))
  }

  function Joined(a: Name, b: Option<Name>): Option<Name> {
    if b.None? then None else Some(a + b.value)
  }

  function Fragment(names: seq<Name>): Option<Name> {
    if names == [] then Some([])
    else
      var first, rest := NameFragment(names[0]), Fragment(names[1..]);
      if first.None? then None else Joined([SLASH] + first.value, rest)
  }

  // ---- round trips ---------------------------------------------------------------------

  /** What may follow a name. */
  predicate Closes(u: Name) {
    u == [] || u[0] == SLASH
  }

  lemma {:induction false} NameTextParses(name: Name, u: Name)
    requires Closes(u)
    ensures ParseName(false, NameText(name) + u) == Some(Parsed(name, u))
  {
    if name == [] {
      assert NameText(name) + u == u;
    } else {
      var t := NameText(name[1..]) + u;
      NameTextParses(name[1..], u);
      Regroup(Escaped(name[0]), NameText(name[1..]), u);
      EscapedParses(name[0], t);
      assert [name[0]] + name[1..] == name;
    }
  }

  lemma EscapedParses(c: Byte, t: Name)
    ensures ParseName(false, Escaped(c) + t) == Before([c], ParseName(false, t))
  {
    var s := Escaped(c) + t;
    assert s[1..] == if c == TILDE then [ZERO] + t else if c == SLASH then [ONE] + t else t;
    assert c == TILDE || c == SLASH ==> s[1..][1..] == t;
  }

  /** Every list of names is recovered from its text. */
  lemma {:induction false} TextParses(names: seq<Name>)
    ensures ParseNames(false, Text(names)) == Some(names)
  {
    if names != [] {
      TextParses(names[1..]);
      var u := Text(names[1..]);
      NameTextParses(names[0], u);
      Regroup([SLASH], NameText(names[0]), u);
      assert Text(names)[1..] == NameText(names[0]) + u;
      assert [names[0]] + names[1..] == names;
    }
  }

  /** How a name outside a fragment goes on after its first character, written in one or two. */
  lemma ParseNameStep(s: Name) returns (c: Byte, n: nat)
    requires s != [] && s[0] != SLASH && ParseName(false, s).Some?
    ensures 0 < n <= |s| && Escaped(c) == s[..n]
    ensures ParseName(false, s[n..]).Some? && ParseName(false, s) == Before([c], ParseName(false, s[n..]))
  {
    if s[0] != TILDE {
      c, n := s[0], 1;
    } else {
      assert s[1..][1..] == s[2..];
      c, n := if s[1] == ZERO then TILDE else SLASH, 2;
    }
  }

  lemma {:induction false} ParsedNameText(s: Name)
    requires ParseName(false, s).Some?
    ensures var p := ParseName(false, s).value; NameText(p.name) + p.rest == s
    decreases |s|
  {
    if s == [] || s[0] == SLASH {
      assert [] + s == s;
    } else {
      var c, n := ParseNameStep(s);
      hide ParseName, Escaped, NameText;
      ParsedNameText(s[n..]);
      assert s[..n] + s[n..] == s;
      ConsText(c, ParseName(false, s[n..]).value, s, s[..n], s[n..]);
    }
  }

  lemma ConsText(c: Byte, p: Parsed, s: Name, front: Name, back: Name)
    requires NameText(p.name) + p.rest == back && front + back == s && front == Escaped(c)
    ensures NameText([c] + p.name) + p.rest == s
  {
    assert ([c] + p.name)[1..] == p.name;
    Regroup(front, NameText(p.name), p.rest);
  }

  /** Every accepted text that is no fragment is written again as it was. */
  lemma {:induction false} ParsedText(s: Name)
    requires ParseNames(false, s).Some?
    ensures Text(ParseNames(false, s).value) == s
    decreases |s|
  {
    if s != [] {
      var p := ParseName(false, s[1..]).value;
      NameEnds(false, s[1..]);
      ParsedNameText(s[1..]);
      ParsedText(p.rest);
      var names := ParseNames(false, p.rest).value;
      assert ([p.name] + names)[1..] == names;
      Regroup([SLASH], NameText(p.name), p.rest);
      assert [SLASH] + s[1..] == s;
    }
  }

  // ---- section 4 of RFC 6901 -----------------------------------------------------------

  /** Every `a b` replaced by `c`, from the left. */
  function Replaced(t: Name, a: Byte, b: Byte, c: Byte): Name {
    if t == [] then []
    else if |t| >= 2 && t[0] == a && t[1] == b then [c] + Replaced(t[2..], a, b, c)
    else [t[0]] + Replaced(t[1..], a, b, c)
  }

  /** What a reference token means: first every `~1` is replaced by a slash, then every `~0` by a tilde. */
  function Meant(t: Name): Name {
    Replaced(Replaced(t, TILDE, ONE, SLASH), TILDE, ZERO, TILDE)
  }

  /** The length of the text before the first slash. */
  function ToSlash(s: Name): (e: nat)
    ensures e <= |s| && SLASH !in s[..e] && (e < |s| ==> s[e] == SLASH)
  {
    if s == [] || s[0] == SLASH then 0 else 1 + ToSlash(s[1..])
  }

  /** A text cut at its slashes, without what is before the first. */
  function Pieces(s: Name): seq<Name>
    decreases |s|
  {
    var e := ToSlash(s);
    if e == |s| then []
    else
      var rest := s[e + 1..];
      [rest[..ToSlash(rest)]] + Pieces(rest[ToSlash(rest)..])
  }

  function AllMeant(pieces: seq<Name>): (r: seq<Name>)
    ensures |r| == |pieces|
    ensures forall i :: 0 <= i < |pieces| ==> r[i] == Meant(pieces[i])
  {
    if pieces == [] then [] else [Meant(pieces[0])] + AllMeant(pieces[1..])
  }

  /** What a token means, character by character. */
  lemma MeantStep(t: Name)
    requires t != []
    ensures t[0] != TILDE ==> Meant(t) == [t[0]] + Meant(t[1..])
    ensures |t| >= 2 && t[0] == TILDE && t[1] == ONE ==> Meant(t) == [SLASH] + Meant(t[2..])
    ensures |t| >= 2 && t[0] == TILDE && t[1] == ZERO ==> Meant(t) == [TILDE] + Meant(t[2..])
  {
    var r := Replaced(t, TILDE, ONE, SLASH);
    if t[0] != TILDE {
      assert r[1..] == Replaced(t[1..], TILDE, ONE, SLASH);
    } else if |t| >= 2 && t[1] == ONE {
      assert r[1..] == Replaced(t[2..], TILDE, ONE, SLASH);
    } else if |t| >= 2 && t[1] == ZERO {
      assert t[1..][1..] == t[2..];
      assert r == [TILDE, ZERO] + Replaced(t[2..], TILDE, ONE, SLASH);
      assert r[2..] == Replaced(t[2..], TILDE, ONE, SLASH);
    }
  }

  /** A name is what its part of the text means. */
  lemma {:induction false} NameIsMeant(s: Name)
    requires ParseName(false, s).Some?
    ensures ParseName(false, s).value == Parsed(Meant(s[..ToSlash(s)]), s[ToSlash(s)..])
    decreases |s|
  {
    var e := ToSlash(s);
    if s == [] || s[0] == SLASH {
      assert s[..0] == [] && s[0..] == s;
    } else {
      var n := if s[0] == TILDE then 2 else 1;
      assert s[0] == TILDE ==> s[1..][1..] == s[2..];
      assert ParseName(false, s[n..]).Some?;
      NameIsMeant(s[n..]);
      assert e == n + ToSlash(s[n..]);
      assert s[..e][n..] == s[n..][..e - n] && s[e..] == s[n..][e - n..];
      MeantStep(s[..e]);
    }
  }

  /** Section 4 of RFC 6901: the names of an accepted text are what its parts between the slashes mean. */
  lemma {:induction false} NamesAreMeant(s: Name)
    requires ParseNames(false, s).Some?
    ensures ParseNames(false, s).value == AllMeant(Pieces(s))
    decreases |s|
  {
    hide Meant, ToSlash, ParseName, Pieces;
    if s == [] {
      NoPieces();
    } else {
      var rest := s[1..];
      NameEnds(false, rest);
      NameIsMeant(rest);
      NamesAreMeant(rest[ToSlash(rest)..]);
      PiecesStep(s);
    }
  }

  lemma NoPieces()
    ensures Pieces([]) == []
  {
  }

  lemma PiecesStep(s: Name)
    requires s != [] && s[0] == SLASH
    ensures var rest := s[1..];
            && Pieces(s) == [rest[..ToSlash(rest)]] + Pieces(rest[ToSlash(rest)..])
            && Pieces(s)[1..] == Pieces(rest[ToSlash(rest)..])
  {
    assert ToSlash(s) == 0;
  }

  lemma EscapedParsesInFragment(c: Byte, t: Name)
    requires c == TILDE || c == SLASH || !NeedPercentEncode(c)
    ensures ParseName(true, Escaped(c) + t) == Before([c], ParseName(true, t))
  {
    var s := Escaped(c) + t;
    assert s[1..] == if c == TILDE then [ZERO] + t else if c == SLASH then [ONE] + t else t;
    assert c == TILDE || c == SLASH ==> s[1..][1..] == t;
  }

  /** The character that starts a text does not depend on what follows it. */
  lemma CharLengthPrefix(s: Name, more: Name)
    requires CharLength(s) > 0
    ensures CharLength(s[..CharLength(s)] + more) == CharLength(s)
  {
  }

  lemma EncodedCharParses(name: Name, t: Name)
    requires name != [] && NeedPercentEncode(name[0]) && CharLength(name) > 0
    ensures var n := CharLength(name);
            ParseName(true, Triplets(name[..n]) + t) == Before(name[..n], ParseName(true, t))
  {
    var n := CharLength(name);
    var c, s := name[..n], Triplets(name[..n]) + t;
    TripletsDecode(c, t, 4);
    CharLengthPrefix(name, DecodedTriplets(t, 4 - n));
    hide CharLength, DecodedTriplets, TripletValue;
    assert s[0] == PERCENT && s[3 * n..] == t by {
      assert Triplets(c)[0] == Triplet(c[0])[0];
    }
    var d := DecodedTriplets(s, 4);
    assert d[..n] == c;
    hide Triplets;
    if n == 1 {
      assert c == [d[0]] && d[0] != TILDE;
    }
  }

  lemma {:induction false} NameFragmentParses(name: Name, u: Name)
    requires Closes(u) && NameFragment(name).Some?
    ensures ParseName(true, NameFragment(name).value + u) == Some(Parsed(name, u))
    decreases |name|
  {
    hide ParseName, CharLength;
    if name == [] {
      assert [] + u == u;
      EmptyNameParses(u);
    } else if name[0] != TILDE && name[0] != SLASH && NeedPercentEncode(name[0]) {
      var n := CharLength(name);
      NameFragmentParses(name[n..], u);
      Regroup(Triplets(name[..n]), NameFragment(name[n..]).value, u);
      EncodedCharParses(name, NameFragment(name[n..]).value + u);
      assert name[..n] + name[n..] == name;
    } else {
      NameFragmentParses(name[1..], u);
      Regroup(Escaped(name[0]), NameFragment(name[1..]).value, u);
      EscapedParsesInFragment(name[0], NameFragment(name[1..]).value + u);
      assert [name[0]] + name[1..] == name;
    }
  }

  lemma EmptyNameParses(u: Name)
    requires Closes(u)
    ensures ParseName(true, u) == Some(Parsed([], u))
  {
  }

  /** Names in UTF-8, and no others, can be written as a fragment. */
  lemma {:induction false} FragmentIsUtf8(name: Name)
    ensures NameFragment(name).Some? <==> WellFormed8(name)
    decreases |name|
  {
    if name != [] {
      assert name[0] <= 0x7F ==> CharLength(name) == 1;
      if CharLength(name) > 0 {
        FragmentIsUtf8(name[CharLength(name)..]);
      }
    }
  }

  /** ... and every list of such names is recovered from its fragment. */
  lemma {:induction false} FragmentParses(names: seq<Name>)
    requires forall i :: 0 <= i < |names| ==> WellFormed8(names[i])
    ensures Fragment(names).Some? && ParseNames(true, Fragment(names).value) == Some(names)
  {
    if names != [] {
      FragmentIsUtf8(names[0]);
      FragmentParses(names[1..]);
      var first, u := NameFragment(names[0]).value, Fragment(names[1..]).value;
      NameFragmentParses(names[0], u);
      hide ParseName, NameFragment, WellFormed8;
      Regroup([SLASH], first, u);
      assert Fragment(names).value[1..] == first + u;
      assert [names[0]] + names[1..] == names;
    }
  }

  /** Both forms, as the constructor sees them. */
  lemma PointerRoundTrips(names: seq<Name>)
    ensures Names(Text(names)) == Some(names)
    ensures (forall i :: 0 <= i < |names| ==> WellFormed8(names[i])) ==>
              Fragment(names).Some? && Names([HASH] + Fragment(names).value) == Some(names)
  {
    TextParses(names);
    if forall i :: 0 <= i < |names| ==> WellFormed8(names[i]) {
      FragmentParses(names);
      assert ([HASH] + Fragment(names).value)[1..] == Fragment(names).value;
    }
  }

  // ---- as many tokens as slashes -------------------------------------------------------

  function Slashes(s: Name): nat {
    if s == [] then 0 else (if s[0] == SLASH then 1 else 0) + Slashes(s[1..])
  }

  lemma {:induction false} NoSlashIn(front: Name, s: Name)
    requires SLASH !in front
    ensures Slashes(front + s) == Slashes(s)
  {
    if front == [] {
      assert front + s == s;
    } else {
      NoSlashIn(front[1..], s);
      assert (front + s)[1..] == front[1..] + s;
    }
  }

  lemma {:induction false} TripletsHaveNoSlash(s: Name, n: nat)
    requires |DecodedTriplets(s, n)| > 0
    ensures var k := |DecodedTriplets(s, n)|; 3 * k <= |s| && SLASH !in s[..3 * k]
  {
    var k := |DecodedTriplets(s, n)|;
    assert TripletValue(s).Some?;
    assert s[..3] == [s[0], s[1], s[2]] && SLASH !in s[..3];
    if k > 1 {
      TripletsHaveNoSlash(s[3..], n - 1);
      assert s[..3 * k] == s[..3] + s[3..][..3 * (k - 1)];
    } else {
      assert s[..3 * k] == s[..3];
    }
  }

  /** The encoded character lies in the text and holds no slash. */
  lemma EncodedCharInText(s: Name)
    requires EncodedLength(s) > 0
    ensures var n := EncodedLength(s);
            3 * n <= |s| && n <= |DecodedTriplets(s, 4)| && Slashes(s) == Slashes(s[3 * n..])
  {
    var n, k := EncodedLength(s), |DecodedTriplets(s, 4)|;
    TripletsHaveNoSlash(s, 4);
    assert s == s[..3 * n] + s[3 * n..];
    assert forall j :: 0 <= j < 3 * n ==> s[..3 * n][j] == s[..3 * k][j];
    NoSlashIn(s[..3 * n], s[3 * n..]);
  }

  lemma {:induction false} NameHasNoSlash(fragment: bool, s: Name)
    ensures var p := ParseName(fragment, s); p.Some? ==> Slashes(p.value.rest) == Slashes(s)
    decreases |s|, 1
  {
    if s == [] || s[0] == SLASH {
    } else if fragment && s[0] == PERCENT {
      var n := EncodedLength(s);
      if n == 0 || |s| < 3 * n {
      } else {
        EncodedCharInText(s);
        if n == 1 {
          UnescapedHasNoSlash(fragment, DecodedTriplets(s, 4)[0], s[3..]);
        } else {
          NameHasNoSlash(fragment, s[3 * n..]);
        }
      }
    } else {
      UnescapedHasNoSlash(fragment, s[0], s[1..]);
    }
  }

  lemma {:induction false} UnescapedHasNoSlash(fragment: bool, c: Byte, s: Name)
    ensures var p := Unescaped(fragment, c, s); p.Some? ==> Slashes(p.value.rest) == Slashes(s)
    decreases |s|, 2
  {
    if c != TILDE {
      NameHasNoSlash(fragment, s);
    } else if s != [] {
      NameHasNoSlash(fragment, s[1..]);
    }
  }

  /** An accepted text has a name for every slash. */
  lemma {:induction false} NamePerSlash(fragment: bool, s: Name)
    ensures var names := ParseNames(fragment, s); names.Some? ==> |names.value| == Slashes(s)
    decreases |s|
  {
    if s != [] && s[0] == SLASH {
      var p := ParseName(fragment, s[1..]);
      if p.Some? {
        NameEnds(fragment, s[1..]);
        NameHasNoSlash(fragment, s[1..]);
        NamePerSlash(fragment, p.value.rest);
      }
    }
  }

  /** A percent-encoded slash is part of the name: it does not separate tokens. */
  lemma EncodedSlashIsPartOfName(t: Name)
    ensures ParseName(true, [PERCENT, 0x32, 0x46] + t) == Before([SLASH], ParseName(true, t))
  {
    var name := [SLASH];
    assert CharLength(name) == 1 && name[..1] == name;
    EncodedCharParses(name, t);
    assert Triplets(name) == Triplet(SLASH) + Triplets(name[1..]);
    assert Triplet(SLASH) == [PERCENT, 0x32, 0x46];
  }

  // ---- array indices -------------------------------------------------------------------

  const WORD: nat := 0x1_0000_0000
  const INVALID_INDEX: nat := 0xFFFF_FFFF

  predicate IsDigit(c: Byte) {
    ZERO <= c <= NINE
  }

  predicate AllDigits(name: Name) {
    forall i :: 0 <= i < |name| ==> IsDigit(name[i])
  }

  /** What the conversion loop makes of the digits: 32-bit arithmetic, stopping when a step makes the number
      smaller. */
  function Numeral(name: Name): Option<nat>
    requires AllDigits(name)
  {
    if name == [] then Some(0)
    else
      var n := Numeral(name[..|name| - 1]);
      if n.None? then None
      else
        var m := (n.value * 10 + (name[|name| - 1] - ZERO)) % WORD;
        if m < n.value then None else Some(m)
  }

  /** The index of a token: its number if it is one, without leading zero. */
  function Index(name: Name): nat {
    if name == [] || !AllDigits(name) || (|name| > 1 && name[0] == ZERO) || Numeral(name).None? then INVALID_INDEX
    else Numeral(name).value
  }

  function DecimalValue(name: Name): nat
    requires AllDigits(name)
  {
    if name == [] then 0 else DecimalValue(name[..|name| - 1]) * 10 + (name[|name| - 1] - ZERO)
  }

  /** The conversion loop computes modulo 2^32, and exactly as long as the value fits. */
  lemma {:induction false} NumeralIsModulo(name: Name)
    requires AllDigits(name)
    ensures Numeral(name).Some? ==> Numeral(name).value == DecimalValue(name) % WORD
    ensures DecimalValue(name) < WORD ==> Numeral(name) == Some(DecimalValue(name))
  {
    if name != [] {
      NumeralIsModulo(name[..|name| - 1]);
      ModuloStep(DecimalValue(name[..|name| - 1]), name[|name| - 1] - ZERO);
    }
  }

  lemma ModuloStep(n: nat, d: nat)
    ensures (n % WORD * 10 + d) % WORD == (n * 10 + d) % WORD
  {
    var q := n / WORD;
    assert n * 10 + d == q * 10 * WORD + (n % WORD * 10 + d);
    ModuloDrop(q * 10, n % WORD * 10 + d);
  }

  lemma ModuloDrop(k: nat, x: nat)
    ensures (k * WORD + x) % WORD == x % WORD
  {
  }

  /** A number without leading zero. */
  predicate Canonical(name: Name) {
    name != [] && AllDigits(name) && (|name| > 1 ==> name[0] != ZERO)
  }

  /** A token has its number as index exactly if its name is a canonical numeral below 2^32 - 1; that number itself
      marks the tokens without index. */
  lemma IndexIsExact(name: Name)
    ensures AllDigits(name) && Index(name) == DecimalValue(name) != INVALID_INDEX <==>
            Canonical(name) && DecimalValue(name) < INVALID_INDEX
  {
    if AllDigits(name) {
      NumeralIsModulo(name);
    }
  }

  /** What has no canonical numeral has no index; a numeral that is too large has none, or its remainder. */
  lemma OtherIndices(name: Name)
    ensures !Canonical(name) ==> Index(name) == INVALID_INDEX
    ensures Canonical(name) && Index(name) != INVALID_INDEX ==> Index(name) == DecimalValue(name) % WORD
  {
    if AllDigits(name) {
      NumeralIsModulo(name);
    }
  }

  /** The overflow test misses some: the token 6000000000 has the index 1705032704. */
  lemma LargeNumeralWraps()
    ensures var name: Name := [0x36, ZERO, ZERO, ZERO, ZERO, ZERO, ZERO, ZERO, ZERO, ZERO];
            Canonical(name) && DecimalValue(name) == 6000000000 && Index(name) == 1705032704
  {
    var name: Name := [0x36, ZERO, ZERO, ZERO, ZERO, ZERO, ZERO, ZERO, ZERO, ZERO];
    assert Tens(2) == 100 && Tens(4) == 10000 && Tens(6) == 1000000 && Tens(8) == 100000000;
    SixTimesPower(name, 9);
    SixTimesPower(name, 8);
    assert name[..10] == name;
    var front := name[..9];
    NumeralIsModulo(front);
    hide DecimalValue;
    assert Numeral(front) == Some(600000000);
  }

  /** A six and zeros. */
  lemma {:induction false} SixTimesPower(name: Name, k: nat)
    requires |name| == 10 && k <= 9 && name[0] == 0x36 && forall i :: 1 <= i < 10 ==> name[i] == ZERO
    ensures AllDigits(name[..k + 1])
    ensures DecimalValue(name[..k + 1]) == 6 * Tens(k)
  {
    if k > 0 {
      SixTimesPower(name, k - 1);
      assert name[..k + 1][..k] == name[..k];
    } else {
      assert name[..1][..0] == [];
    }
  }

  function Tens(k: nat): nat {
    if k == 0 then 1 else 10 * Tens(k - 1)
  }

  // ---- in the buffers ------------------------------------------------------------------

  /** A token: where its name starts in the buffer, its length, and its index. */
  datatype TokenSpan = TokenSpan(name: nat, length: nat, index: nat)

  /** `PercentDecodeStream.Take`: on a malformed triplet it yields zero, stops where it noticed, and is invalid. */
  method TakeTriplet(source: seq<Byte>, pos: nat) returns (c: Byte, next: nat, valid: bool)
    requires pos <= |source|
    ensures pos <= next <= |source|
    ensures valid <==> TripletValue(source[pos..]).Some?
    ensures valid ==> next == pos + 3 && TripletValue(source[pos..]) == Some(c)
    ensures !valid ==> c == 0
  {
    if pos + 3 > |source| || source[pos] != PERCENT {
      return 0, pos, false;
    }
    assert source[pos..][1] == source[pos + 1] && source[pos..][2] == source[pos + 2];
    next := pos + 1;
    var h := HexValue(source[next]);
    if h.None? {
      return 0, next, false;
    }
    next := next + 1;
    var l := HexValue(source[next]);
    if l.None? {
      return 0, next, false;
    }
    HexIsSmall(source[pos + 1]);
    HexIsSmall(source[pos + 2]);
    c, next, valid := Nibbles(h.value, l.value), next + 1, true;
  }

  lemma HexIsSmall(c: Byte)
    ensures HexValue(c).Some? ==> HexValue(c).value < 16
  {
  }

  /** The `k`th byte, from the triplets before it. */
  lemma {:induction false} TripletAt(s: Name, n: nat, k: nat)
    requires k < n && k <= |DecodedTriplets(s, n)|
    ensures 3 * k <= |s| && |DecodedTriplets(s, n)| <= n
    ensures var d := DecodedTriplets(s, n);
            if TripletValue(s[3 * k..]).Some? then k < |d| && d[k] == TripletValue(s[3 * k..]).value else k == |d|
  {
    TripletsBounded(s, n);
    if k > 0 {
      TripletAt(s[3..], n - 1, k - 1);
      assert s[3..][3 * (k - 1)..] == s[3 * k..];
    } else {
      assert s[0..] == s;
    }
  }

  lemma {:induction false} TripletsBounded(s: Name, n: nat)
    ensures |DecodedTriplets(s, n)| <= n
  {
    if n > 0 && TripletValue(s).Some? {
      TripletsBounded(s[3..], n - 1);
    }
  }

  lemma PutExtends(before: Name, after: Name, name: nat, k: nat, c: Byte, d: Name)
    requires name + k < |before| && after == before[name + k := c]
    ensures after[..name] == before[..name]
    ensures k < |d| && d[k] == c && before[name..name + k] == d[..k] ==> after[name..name + k + 1] == d[..k + 1]
  {
    if k < |d| && d[k] == c && before[name..name + k] == d[..k] {
      assert after[name..name + k + 1] == before[name..name + k] + [c];
    }
  }

  /** Takes byte `k` of the triplets at `start` and puts it; `valid` says whether all before it were triplets. */
  method PutTriplet(source: seq<Byte>, pos: nat, valid: bool, buffer: array<Byte>, name: nat, k: nat, ghost start: nat)
    returns (c: Byte, next: nat, still: bool)
    requires pos <= |source| && name + k < buffer.Length && start <= |source| && k < 4
    requires valid ==> pos == start + 3 * k && k <= |DecodedTriplets(source[start..], 4)|
    requires valid ==> buffer[name..name + k] == DecodedTriplets(source[start..], 4)[..k]
    modifies buffer
    ensures next <= |source| && buffer[..name] == old(buffer[..name])
    ensures still ==> valid && next == start + 3 * (k + 1)
    ensures valid ==> (still <==> k < |DecodedTriplets(source[start..], 4)|)
    ensures valid ==> c == ByteAt(DecodedTriplets(source[start..], 4), k)
    ensures still ==> buffer[name..name + k + 1] == DecodedTriplets(source[start..], 4)[..k + 1]
  {
    hide DecodedTriplets, TripletValue;
    c, next, still := TakeTriplet(source, pos);
    still := still && valid;
    if valid {
      TripletAt(source[start..], 4, k);
      assert source[start..][3 * k..] == source[pos..];
    }
    ghost var before := buffer[..];
    buffer[name + k] := c;
    PutExtends(before, buffer[..], name, k, c, DecodedTriplets(source[start..], 4));
  }

  lemma AsciiAlone(d: Name)
    requires d != [] ==> d[0] <= 0x7F
    ensures CharLength(d) == if d == [] then 0 else 1
  {
  }

  /** How many bytes a character takes whose first byte is of class `kind`. */
  function KindLength(kind: nat): nat {
    if kind == 2 then 2 else if kind in {5, 6, 11} then 4 else 3
  }

  lemma NothingAllowsZero(mask: nat)
    ensures !Allowed(0, mask)
  {
  }

  /** The bytes after the first, whatever they are: all are taken before the verdict. */
  method DecodeTails(source: seq<Byte>, start: nat, buffer: array<Byte>, name: nat, kind: nat)
    returns (ok: bool, next: nat)
    requires start + 3 <= |source| && name + 4 <= buffer.Length && kind in {2, 3, 4, 5, 6, 10, 11}
    requires var d := DecodedTriplets(source[start..], 4); |d| >= 1 && buffer[name..name + 1] == d[..1]
    modifies buffer
    ensures ok <==> TailsAllowed(DecodedTriplets(source[start..], 4), kind)
    ensures ok ==>
              var d, n := DecodedTriplets(source[start..], 4), KindLength(kind);
              n <= |d| && next == start + 3 * n <= |source| && buffer[name..name + n] == d[..n]
    ensures buffer[..name] == old(buffer[..name])
  {
    hide DecodedTriplets, TripletValue, Allowed, SecondMask;
    ghost var d := DecodedTriplets(source[start..], 4);
    var c, valid;
    c, next, valid := PutTriplet(source, start + 3, true, buffer, name, 1, start);
    NothingAllowsZero(SecondMask(kind));
    NothingAllowsZero(0x70);
    ok := Allowed(c, SecondMask(kind));
    assert ok ==> valid;
    if kind != 2 {
      c, next, valid := PutTriplet(source, next, valid, buffer, name, 2, start);
      ok := ok && Allowed(c, 0x70);
      assert ok ==> valid;
    }
    if kind in {5, 6, 11} {
      c, next, valid := PutTriplet(source, next, valid, buffer, name, 3, start);
      ok := ok && Allowed(c, 0x70);
      assert ok ==> valid;
    }
  }

  /** Decodes and validates the percent-encoded character at `start`; up to four bytes are put. */
  method DecodePercent(source: seq<Byte>, start: nat, buffer: array<Byte>, name: nat)
    returns (ok: bool, len: nat, next: nat)
    requires start < |source| == buffer.Length && name + 2 <= start
    modifies buffer
    ensures ok <==> EncodedLength(source[start..]) > 0
    ensures ok ==>
              && len == EncodedLength(source[start..]) <= |DecodedTriplets(source[start..], 4)|
              && next == start + 3 * len <= |source| && name + len <= buffer.Length
              && buffer[name..name + len] == DecodedTriplets(source[start..], 4)[..len]
    ensures buffer[..name] == old(buffer[..name])
  {
    hide DecodedTriplets, TripletValue, CharLength, Allowed, SecondMask;
    ghost var d := DecodedTriplets(source[start..], 4);
    var c, pos, valid := PutTriplet(source, start, true, buffer, name, 0, start);
    if c <= 0x7F {
      AsciiAlone(d);
      return valid, 1, pos;
    }
    TableIsGrammar(d);
    var kind := GetRange(c);
    if kind !in {2, 3, 4, 5, 6, 10, 11} {
      return false, 0, pos;
    }
    len := KindLength(kind);
    assert len == Tails(c) + 1;
    hide GetRange, Tails, TailsAllowed;
    ok, next := DecodeTails(source, start, buffer, name, kind);
  }

  /** Resolves an escape after the character `c`, already taken. */
  method TakeEscape(ghost fragment: bool, source: seq<Byte>, pos: nat, first: Byte)
    returns (ok: bool, c: Byte, next: nat)
    requires pos <= |source|
    ensures ok ==> pos <= next <= |source|
    ensures Unescaped(fragment, first, source[pos..]) ==
            if ok then Before([c], ParseName(fragment, source[next..])) else None
  {
    hide ParseName, Before;
    c, next := first, pos;
    if c == TILDE {
      if next == |source| {
        return false, c, next;
      }
      assert source[pos..][0] == source[pos] && source[pos..][1..] == source[pos + 1..];
      c := source[next];
      if c == ZERO {
        c := TILDE;
      } else if c == ONE {
        c := SLASH;
      } else {
        return false, c, next;
      }
      next := next + 1;
    }
    ok := true;
  }

  lemma ParseNameCases(fragment: bool, s: Name)
    requires s != [] && s[0] != SLASH
    ensures !(fragment && s[0] == PERCENT) ==>
              ParseName(fragment, s) ==
              if fragment && NeedPercentEncode(s[0]) then None else Unescaped(fragment, s[0], s[1..])
    ensures fragment && s[0] == PERCENT && EncodedLength(s) == 0 ==> ParseName(fragment, s) == None
    ensures fragment && s[0] == PERCENT && EncodedLength(s) == 1 && 3 <= |s| ==>
              DecodedTriplets(s, 4) != []
                && ParseName(fragment, s) == Unescaped(fragment, DecodedTriplets(s, 4)[0], s[3..])
    ensures fragment && s[0] == PERCENT && EncodedLength(s) > 1 && 3 * EncodedLength(s) <= |s| ==>
              && EncodedLength(s) <= |DecodedTriplets(s, 4)| && !IsDigit(DecodedTriplets(s, 4)[0])
              && ParseName(fragment, s) ==
                 Before(DecodedTriplets(s, 4)[..EncodedLength(s)], ParseName(fragment, s[3 * EncodedLength(s)..]))
  {
  }

  /** One turn of the inner loop: the next character of a name. */
  method TakeChar(fragment: bool, source: seq<Byte>, i: nat, buffer: array<Byte>, name: nat)
    returns (ok: bool, next: nat, nameEnd: nat, digit: bool)
    requires i < |source| == buffer.Length && source[i] != SLASH && name + (if fragment then 2 else 1) <= i
    modifies buffer
    ensures ok ==> i < next <= |source| && name < nameEnd <= name + (next - i)
    ensures ok ==> (digit <==> AllDigits(buffer[name..nameEnd]))
    ensures ParseName(fragment, source[i..]) ==
            if ok then Before(buffer[name..nameEnd], ParseName(fragment, source[next..])) else None
    ensures buffer[..name] == old(buffer[..name])
  {
    hide ParseName, Before, DecodedTriplets, CharLength, Unescaped;
    ghost var s := source[i..];
    ParseNameCases(fragment, s);
    var c := source[i];
    next := i;
    if fragment {
      if c == PERCENT {
        var len;
        ok, len, next := DecodePercent(source, i, buffer, name);
        if !ok {
          return false, i, name, false;
        }
        assert source[i..][3 * len..] == source[next..];
        if len != 1 {
          assert buffer[name..name + len][0] == DecodedTriplets(s, 4)[0];
          assert !AllDigits(buffer[name..name + len]);
          return true, next, name + len, false;
        }
        assert buffer[name..name + 1][0] == DecodedTriplets(s, 4)[0];
        c := buffer[name];
        next := next - 1;
      } else if NeedPercentEncode(c) {
        return false, i, name, false;
      }
    }
    next := next + 1;
    assert ParseName(fragment, s) == Unescaped(fragment, c, source[next..]);
    ok, c, next := TakeEscape(fragment, source, next, c);
    nameEnd, digit := name + 1, IsDigit(c);
    if ok {
      buffer[name] := c;
      assert buffer[name..nameEnd] == [c];
    }
  }

  lemma BeforeBefore(a: Name, b: Name, p: Option<Parsed>)
    ensures Before(a, Before(b, p)) == Before(a + b, p)
  {
    if p.Some? {
      Regroup(a, b, p.value.name);
    }
  }

  lemma DigitsJoin(a: Name, b: Name)
    ensures AllDigits(a + b) <==> AllDigits(a) && AllDigits(b)
  {
    if AllDigits(a + b) {
      assert forall i :: 0 <= i < |a| ==> (a + b)[i] == a[i];
      assert forall i :: 0 <= i < |b| ==> (a + b)[|a| + i] == b[i];
    }
  }

  lemma NameStops(fragment: bool, s: Name)
    requires s == [] || s[0] == SLASH
    ensures ParseName(fragment, s) == Some(Parsed([], s))
  {
  }

  lemma BeforeNone(a: Name)
    ensures Before(a, None) == None
  {
  }

  /** The inner loop: a whole name, up to the next slash. */
  method TakeName(fragment: bool, source: seq<Byte>, start: nat, buffer: array<Byte>, name: nat)
    returns (ok: bool, next: nat, nameEnd: nat, number: bool)
    requires start <= |source| == buffer.Length && name + (if fragment then 2 else 1) <= start
    modifies buffer
    ensures ok ==> start <= next <= |source| && name <= nameEnd <= name + (next - start)
    ensures ok ==> ParseName(fragment, source[start..]) == Some(Parsed(buffer[name..nameEnd], source[next..]))
    ensures ok ==> (number <==> AllDigits(buffer[name..nameEnd]))
    ensures !ok ==> ParseName(fragment, source[start..]) == None
    ensures buffer[..name] == old(buffer[..name])
  {
    assert AllDigits([]);
    hide ParseName, Before, AllDigits;
    ghost var goal := ParseName(fragment, source[start..]);
    next, nameEnd, number := start, name, true;
    NothingBefore(goal);
    assert buffer[name..nameEnd] == [];
    while next < |source| && source[next] != SLASH
      invariant start <= next <= |source| && name <= nameEnd <= name + (next - start)
      invariant goal == Before(buffer[name..nameEnd], ParseName(fragment, source[next..]))
      invariant number <==> AllDigits(buffer[name..nameEnd])
      invariant buffer[..name] == old(buffer[..name])
      decreases |source| - next
    {
      ghost var done, at, before := buffer[name..nameEnd], nameEnd, buffer[..nameEnd];
      assert before[name..at] == done;
      var digit;
      ok, next, nameEnd, digit := TakeChar(fragment, source, next, buffer, nameEnd);
      if !ok {
        BeforeNone(done);
        return;
      }
      Extended(before, buffer[..], name, at, nameEnd);
      BeforeBefore(done, buffer[at..nameEnd], ParseName(fragment, source[next..]));
      DigitsJoin(done, buffer[at..nameEnd]);
      number := number && digit;
    }
    NameStops(fragment, source[next..]);
    BeforeNothing(buffer[name..nameEnd], source[next..]);
    ok := true;
  }

  lemma NothingBefore(p: Option<Parsed>)
    ensures Before([], p) == p
  {
    assert p.Some? ==> [] + p.value.name == p.value.name;
  }

  lemma BeforeNothing(a: Name, rest: Name)
    ensures Before(a, Some(Parsed([], rest))) == Some(Parsed(a, rest))
  {
    assert a + [] == a;
  }

  lemma Extended(before: Name, after: Name, name: nat, at: nat, end: nat)
    requires name <= at <= end <= |after| && |before| == at && after[..at] == before
    ensures after[name..end] == before[name..at] + after[at..end]
    ensures after[..name] == before[..name]
  {
    assert after[..at] == before[..at];
    SliceOfPrefix(after, before, at, 0, name);
    SliceOfPrefix(after, before, at, name, at);
    assert after[..name] == after[0..name] && before[..name] == before[0..name];
    assert after[name..end] == after[name..at] + after[at..end];
  }

  /** The checks and the conversion loop; `number` says whether all characters are digits. */
  method ToIndex(digits: Name, number: bool) returns (index: nat)
    requires number <==> AllDigits(digits)
    ensures index == Index(digits)
  {
    if digits == [] || !number || (|digits| > 1 && digits[0] == ZERO) {
      return INVALID_INDEX;
    }
    index := 0;
    assert digits[..|digits|] == digits;
    for j := 0 to |digits|
      invariant Numeral(digits[..j]) == Some(index)
    {
      assert digits[..j + 1][..j] == digits[..j];
      var d: int := digits[j];
      var m := (index * 10 + (d - 48)) % WORD;
      if m < index {
        NumeralStops(digits, j + 1);
        return INVALID_INDEX;
      }
      index := m;
    }
  }

  lemma {:induction false} NumeralStops(name: Name, j: nat)
    requires AllDigits(name) && j <= |name| && Numeral(name[..j]).None?
    ensures Numeral(name).None?
    decreases |name| - j
  {
    if j == |name| {
      assert name[..j] == name;
    } else {
      assert name[..j + 1][..j] == name[..j];
      NumeralStops(name, j + 1);
    }
  }

  /** The token holds the name, its NUL and its index, before `limit`. */
  ghost predicate TokenHolds(buf: Name, t: TokenSpan, name: Name, limit: nat) {
    && t.length == |name| && t.name + t.length < limit <= |buf|
    && buf[t.name..t.name + t.length] == name && buf[t.name + t.length] == 0
    && t.index == Index(name)
  }

  ghost predicate TokensHold(buf: Name, tokens: seq<TokenSpan>, names: seq<Name>, limit: nat) {
    |names| <= |tokens| && forall k :: 0 <= k < |names| ==> TokenHolds(buf, tokens[k], names[k], limit)
  }

  lemma TokensStay(buf: Name, after: Name, tokens: seq<TokenSpan>, names: seq<Name>, limit: nat, limit': nat)
    requires TokensHold(buf, tokens, names, limit)
    requires limit <= limit' <= |buf| == |after| && buf[..limit] == after[..limit]
    ensures TokensHold(after, tokens, names, limit')
  {
    forall k | 0 <= k < |names| ensures TokenHolds(after, tokens[k], names[k], limit') {
      var t := tokens[k];
      assert TokenHolds(buf, t, names[k], limit);
      var e := t.name + t.length;
      SliceOfPrefix(buf, after, limit, t.name, e);
      assert buf[e] == buf[..limit][e] && after[e] == after[..limit][e];
    }
  }

  lemma TokenAdded(buf: Name, tokens: seq<TokenSpan>, names: seq<Name>, t: TokenSpan, name: Name, limit: nat)
    requires TokensHold(buf, tokens, names, limit) && |names| < |tokens| && TokenHolds(buf, t, name, limit)
    ensures TokensHold(buf, tokens[|names| := t], names + [name], limit)
  {
    hide TokenHolds;
  }

  /** Names already parsed, before those of the rest. */
  function Onto(names: seq<Name>, rest: Option<seq<Name>>): Option<seq<Name>> {
    if rest.None? then None else Some(names + rest.value)
  }

  lemma ParseNamesStep(fragment: bool, names: seq<Name>, s: Name)
    requires s != [] && s[0] == SLASH
    ensures var p := ParseName(fragment, s[1..]);
            && (p.None? ==> Onto(names, ParseNames(fragment, s)) == None)
            && (p.Some? ==>
                  && Onto(names, ParseNames(fragment, s)) ==
                    Onto(names + [p.value.name], ParseNames(fragment, p.value.rest))
                  && |p.value.rest| < |s| && Closes(p.value.rest) && Slashes(s) == 1 + Slashes(p.value.rest))
  {
    hide ParseName;
    NameEnds(fragment, s[1..]);
    NameHasNoSlash(fragment, s[1..]);
    var p := ParseName(fragment, s[1..]);
    if p.Some? && ParseNames(fragment, p.value.rest).Some? {
      var more := ParseNames(fragment, p.value.rest).value;
      assert names + ([p.value.name] + more) == names + [p.value.name] + more;
    }
  }

  lemma OntoNothing(names: seq<Name>)
    ensures Onto(names, ParseNames(true, [])) == Some(names) && Onto(names, ParseNames(false, [])) == Some(names)
    ensures Slashes([]) == 0
  {
    assert names + [] == names;
  }

  class Pointer {
    var nameBuffer: array<Byte>
    var tokens: array<TokenSpan>
    var valid: bool

    /** The tokens are these names. */
    ghost predicate Represents(names: seq<Name>)
      reads this, nameBuffer, tokens
    {
      tokens.Length == |names| && TokensHold(nameBuffer[..], tokens[..], names, nameBuffer.Length)
    }

    /** `Parse`: valid exactly for the texts of the grammar, with a token for every slash; the name buffer is as
        long as the text, which always suffices. */
    constructor (source: seq<Byte>)
      ensures valid <==> Names(source).Some?
      ensures valid ==> Represents(Names(source).value) && tokens.Length == Slashes(source)
      ensures valid && (source == [] || source[0] != HASH) ==> Represents(AllMeant(Pieces(source)))
      ensures !valid ==> tokens.Length == 0
      ensures nameBuffer.Length == |source|
    {
      nameBuffer := new Byte[|source|];
      tokens := new TokenSpan[0];
      valid := false;
      new;
      var count := CountSlashes(source);
      var fragment := source != [] && source[0] == HASH;
      var i := if fragment then 1 else 0;
      HashIsNoSlash(source);
      if i != |source| && source[i] != SLASH {
        assert source[i..] != [] && source[i..][0] != SLASH;
        return;
      }
      var table := new TokenSpan[count];
      valid := FillTokens(source, fragment, i, nameBuffer, table);
      if valid {
        tokens := table;
        if !fragment {
          NamesAreMeant(source);
        }
      }
    }

    /** `Stringify`, in either form: fails only for a fragment, and then exactly if a name is not UTF-8. */
    method Stringify(fragment: bool, output: OutStream<Byte>, ghost names: seq<Name>) returns (ok: bool)
      requires valid && Represents(names)
      modifies output
      ensures ok <==> AllWritten(fragment, names).Some?
      ensures ok ==>
        output.text == old(output.text) + (if fragment then [HASH] else []) + AllWritten(fragment, names).value
    {
      hide TokenHolds, NameWritten, Index, AllWritten;
      ghost var before := output.text;
      if fragment {
        output.Put(HASH);
      } else {
        assert output.text + [] == output.text;
      }
      ghost var goal := Joined(output.text, AllWritten(fragment, names));
      assert names[0..] == names;
      for k := 0 to tokens.Length
        invariant goal == Joined(output.text, AllWritten(fragment, names[k..]))
      {
        AllWrittenStep(fragment, names[k..]);
        assert names[k..][1..] == names[k + 1..];
        ghost var now := output.text;
        output.Put(SLASH);
        var t := tokens[k];
        TokenIsName(nameBuffer[..], tokens[..], names, k, nameBuffer.Length);
        ok := WriteName(fragment, nameBuffer[t.name..t.name + t.length], output);
        if !ok {
          return;
        }
        Regroup(now, [SLASH], NameWritten(fragment, names[k]).value);
        JoinedJoined(now, [SLASH] + NameWritten(fragment, names[k]).value, AllWritten(fragment, names[k + 1..]));
      }
      ok := true;
      assert names[tokens.Length..] == [];
      NoneWritten(fragment);
      assert output.text + [] == output.text;
    }
  }

  lemma HashIsNoSlash(source: Name)
    ensures source[0..] == source
    ensures source != [] && source[0] == HASH ==> Slashes(source) == Slashes(source[1..])
  {
  }

  method CountSlashes(source: Name) returns (n: nat)
    ensures n == Slashes(source)
  {
    n := 0;
    assert source[0..] == source;
    for i := 0 to |source|
      invariant n + Slashes(source[i..]) == Slashes(source)
    {
      assert source[i..][1..] == source[i + 1..];
      if source[i] == SLASH {
        n := n + 1;
      }
    }
  }

  /** One name into the buffer and one token. */
  method TakeToken(fragment: bool, source: Name, start: nat, buffer: array<Byte>, name: nat, tokens: array<TokenSpan>,
                   k: nat, ghost names: seq<Name>)
    returns (ok: bool, next: nat, nameEnd: nat)
    requires start <= |source| == buffer.Length && name + (if fragment then 2 else 1) <= start
    requires |names| == k < tokens.Length && TokensHold(buffer[..], tokens[..], names, name)
    modifies buffer, tokens
    ensures ok <==> ParseName(fragment, source[start..]).Some?
    ensures ok ==> start <= next <= |source| && nameEnd <= name + 1 + (next - start)
    ensures ok ==> source[next..] == ParseName(fragment, source[start..]).value.rest
    ensures ok ==>
              TokensHold(buffer[..], tokens[..], names + [ParseName(fragment, source[start..]).value.name], nameEnd)
  {
    hide ParseName, TokensHold, Index, AllDigits;
    ghost var before, known := buffer[..], tokens[..];
    var number;
    ok, next, nameEnd, number := TakeName(fragment, source, start, buffer, name);
    if ok {
      ghost var got := buffer[name..nameEnd];
      NameFits(fragment, source, start, next, name, nameEnd);
      buffer[nameEnd] := 0;
      assert buffer[name..nameEnd] == got && buffer[..name] == before[..name];
      var index := ToIndex(buffer[name..nameEnd], number);
      TokensStay(before, buffer[..], known, names, name, nameEnd + 1);
      TokenAdded(buffer[..], known, names, TokenSpan(name, nameEnd - name, index), got, nameEnd + 1);
      tokens[k] := TokenSpan(name, nameEnd - name, index);
      nameEnd := nameEnd + 1;
    }
  }

  lemma NameFits(fragment: bool, source: Name, start: nat, next: nat, name: nat, nameEnd: nat)
    requires start <= next <= |source| && nameEnd <= name + (next - start) && name + 1 <= start
    ensures nameEnd < |source|
  {
  }

  /** The outer loop. */
  method FillTokens(source: Name, fragment: bool, start: nat, nameBuffer: array<Byte>, tokens: array<TokenSpan>)
    returns (ok: bool)
    requires start <= |source| == nameBuffer.Length && (fragment ==> start == 1) && Closes(source[start..])
    requires tokens.Length == Slashes(source[start..])
    modifies nameBuffer, tokens
    ensures ok <==> ParseNames(fragment, source[start..]).Some?
    ensures ok ==> tokens.Length == |ParseNames(fragment, source[start..]).value|
    ensures ok ==>
      TokensHold(nameBuffer[..], tokens[..], ParseNames(fragment, source[start..]).value, nameBuffer.Length)
  {
    ghost var goal, names := ParseNames(fragment, source[start..]), [];
    var i: nat, name: nat, token: nat := start, 0, 0;
    NothingOnto(goal);
    hide ParseName, ParseNames, TokensHold, Onto, Slashes;
    NoTokens(nameBuffer[..], tokens[..]);
    while i < |source|
      invariant start <= i <= |source| && name + (if fragment then 1 else 0) <= i
      invariant goal == Onto(names, ParseNames(fragment, source[i..])) && Closes(source[i..])
      invariant |names| == token && token + Slashes(source[i..]) == tokens.Length
      invariant TokensHold(nameBuffer[..], tokens[..], names, name)
      decreases |source| - i
    {
      ParseNamesStep(fragment, names, source[i..]);
      assert source[i..][1..] == source[i + 1..];
      var next, nameEnd;
      ok, next, nameEnd := TakeToken(fragment, source, i + 1, nameBuffer, name, tokens, token, names);
      if !ok {
        return;
      }
      names := names + [ParseName(fragment, source[i + 1..]).value.name];
      i, name, token := next, nameEnd, token + 1;
    }
    assert source[i..] == [];
    OntoNothing(names);
    TokensStay(nameBuffer[..], nameBuffer[..], tokens[..], names, name, nameBuffer.Length);
    ok := true;
  }

  lemma NothingOnto(p: Option<seq<Name>>)
    ensures Onto([], p) == p
  {
    assert p.Some? ==> [] + p.value == p.value;
  }

  lemma NoTokens(buf: Name, tokens: seq<TokenSpan>)
    ensures TokensHold(buf, tokens, [], 0)
  {
  }

  // ---- writing from the buffers --------------------------------------------------------

  /** A name as it is written in either form. */
  function NameWritten(fragment: bool, name: Name): Option<Name> {
    if fragment then NameFragment(name) else Some(NameText(name))
  }

  lemma NulEndsChar(s: Name)
    requires s != []
    ensures CharLength(s + [0]) == CharLength(s)
  {
  }

  lemma TakenIsPrefix(s: Name, n: nat)
    requires n <= |s|
    ensures Taken(s, n) == s[..n]
  {
  }

  /** The character at the start of `rest`, percent-encoded: the name is read as a C string. */
  method EncodeChar(rest: Name, output: OutStream<Byte>) returns (ok: bool, taken: nat)
    requires rest != []
    modifies output
    ensures ok <==> CharLength(rest) > 0
    ensures ok ==> taken == CharLength(rest) && output.text == old(output.text) + Triplets(rest[..taken])
  {
    var input := new InStream(rest + [0], 0);
    var bytes := new OutStream<Byte>();
    ok := Validate8(input, bytes);
    taken := |rest| + 1 - |input.rest|;
    hide Triplets;
    NulEndsChar(rest);
    if ok {
      CharLengthIsTails(rest + [0]);
      hide CharLength, Tails, Taken;
      TakenIsPrefix(rest + [0], taken);
      assert (rest + [0])[..taken] == rest[..taken];
      assert bytes.text == rest[..taken];
      PutTriplets(bytes.text, output);
    }
  }

  /** `PercentEncodeStream.Put` of each byte. */
  method PutTriplets(bytes: Name, output: OutStream<Byte>)
    modifies output
    ensures output.text == old(output.text) + Triplets(bytes)
  {
    ghost var before := output.text;
    assert bytes[0..] == bytes;
    for i := 0 to |bytes|
      invariant output.text + Triplets(bytes[i..]) == before + Triplets(bytes)
    {
      assert bytes[i..][1..] == bytes[i + 1..];
      Regroup(output.text, Triplet(bytes[i]), Triplets(bytes[i + 1..]));
      ghost var now := output.text;
      output.Put(PERCENT);
      output.Put(HexDigit(bytes[i] / 16));
      output.Put(HexDigit(bytes[i] % 16));
      assert output.text == now + Triplet(bytes[i]);
    }
    assert bytes[|bytes|..] == [];
    assert output.text + [] == output.text;
  }

  /** One character written, by the case it falls under. */
  lemma WrittenStep(fragment: bool, name: Name)
    requires name != []
    ensures var c := name[0];
            NameWritten(fragment, name) ==
            if c != TILDE && c != SLASH && fragment && NeedPercentEncode(c) then
              var n := CharLength(name);
              if n == 0 then None else Joined(Triplets(name[..n]), NameWritten(fragment, name[n..]))
            else Joined(Escaped(c), NameWritten(fragment, name[1..]))
  {
  }

  lemma JoinedJoined(a: Name, b: Name, p: Option<Name>)
    ensures Joined(a, Joined(b, p)) == Joined(a + b, p)
  {
    if p.Some? {
      Regroup(a, b, p.value);
    }
  }

  /** The inner loop of `Stringify`. */
  method WriteName(fragment: bool, name: Name, output: OutStream<Byte>) returns (ok: bool)
    modifies output
    ensures ok <==> NameWritten(fragment, name).Some?
    ensures ok ==> output.text == old(output.text) + NameWritten(fragment, name).value
  {
    hide NameWritten, Triplets, Escaped, CharLength;
    ghost var before := output.text;
    ghost var goal := Joined(before, NameWritten(fragment, name));
    var j: nat := 0;
    assert name[0..] == name;
    while j < |name|
      invariant j <= |name|
      invariant goal == Joined(output.text, NameWritten(fragment, name[j..]))
      decreases |name| - j
    {
      ghost var now := output.text;
      WrittenStep(fragment, name[j..]);
      assert name[j..][1..] == name[j + 1..];
      var c := name[j];
      if c != TILDE && c != SLASH && fragment && NeedPercentEncode(c) {
        var taken;
        ok, taken := EncodeChar(name[j..], output);
        if !ok {
          return;
        }
        assert name[j..][taken..] == name[j + taken..];
        JoinedJoined(now, Triplets(name[j..][..taken]), NameWritten(fragment, name[j + taken..]));
        j := j + taken;
      } else {
        PutEscaped(c, output);
        JoinedJoined(now, Escaped(c), NameWritten(fragment, name[j + 1..]));
        j := j + 1;
      }
    }
    ok := true;
    NothingWritten(fragment, name[j..]);
    assert output.text + [] == output.text;
  }

  lemma NothingWritten(fragment: bool, name: Name)
    requires name == []
    ensures NameWritten(fragment, name) == Some([])
  {
  }

  method PutEscaped(c: Byte, output: OutStream<Byte>)
    modifies output
    ensures output.text == old(output.text) + Escaped(c)
  {
    if c == TILDE {
      output.Put(TILDE);
      output.Put(ZERO);
    } else if c == SLASH {
      output.Put(TILDE);
      output.Put(ONE);
    } else {
      output.Put(c);
    }
  }

  /** All tokens in either form, each after its slash. */
  function AllWritten(fragment: bool, names: seq<Name>): Option<Name> {
    if fragment then Fragment(names) else Some(Text(names))
  }

  lemma AllWrittenStep(fragment: bool, names: seq<Name>)
    requires names != []
    ensures var first := NameWritten(fragment, names[0]);
            AllWritten(fragment, names) ==
            if first.None? then None else Joined([SLASH] + first.value, AllWritten(fragment, names[1..]))
  {
  }

  lemma NoneWritten(fragment: bool)
    ensures AllWritten(fragment, []) == Some([])
  {
  }

  lemma TokenIsName(buf: Name, tokens: seq<TokenSpan>, names: seq<Name>, k: nat, limit: nat)
    requires TokensHold(buf, tokens, names, limit) && k < |names|
    ensures tokens[k].name + tokens[k].length <= |buf|
    ensures buf[tokens[k].name..tokens[k].name + tokens[k].length] == names[k]
  {
    assert TokenHolds(buf, tokens[k], names[k], limit);
  }
}
