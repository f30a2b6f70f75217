/**
 What the fragment form of a JSON Pointer means.  Section 6 of RFC 6901 takes a fragment for its percent-decoded text;
 the parser splits at slashes first and decodes afterwards.  Here the two readings are compared.
 */
module JsonPointerFragment {
  import opened JsonPointer
  import opened Slices
  import opened Utf
  import opened Wrappers

  /** The text with its triplets decoded; other characters stay. */
  function PercentDecoded(s: Name): Name {
    if s == [] then []
    else if TripletValue(s).Some? then [TripletValue(s).value] + PercentDecoded(s[3..])
    else [s[0]] + PercentDecoded(s[1..])
  }

  /** Somewhere in the text there is a triplet for a slash. */
  predicate EncodesSlash(s: Name) {
    s != [] && (TripletValue(s) == Some(SLASH) || EncodesSlash(s[1..]))
  }

  lemma TripletHasNoPercent(s: Name)
    requires TripletValue(s).Some?
    ensures |s| >= 3 && s[0] == PERCENT
    ensures s[1] != PERCENT && s[2] != PERCENT && SLASH !in s[..3]
  {
  }

  /** The scan may step over whole triplets. */
  lemma EncodesSlashStep(s: Name)
    requires TripletValue(s).Some?
    ensures EncodesSlash(s) <==> TripletValue(s).value == SLASH || EncodesSlash(s[3..])
  {
    TripletHasNoPercent(s);
    assert s[1..][1..] == s[2..] && s[2..][1..] == s[3..];
    assert TripletValue(s[1..]) == None && TripletValue(s[2..]) == None;
    hide TripletValue;
    assert EncodesSlash(s[1..]) <==> EncodesSlash(s[2..]);
    assert EncodesSlash(s[2..]) <==> EncodesSlash(s[3..]);
  }

  /** Decoding keeps the slashes and adds the encoded ones. */
  lemma {:induction false} DecodingAddsSlashes(s: Name)
    ensures Slashes(PercentDecoded(s)) >= Slashes(s)
    ensures EncodesSlash(s) ==> Slashes(PercentDecoded(s)) > Slashes(s)
  {
    if s != [] {
      var t := TripletValue(s);
      if t.Some? {
        DecodingAddsSlashes(s[3..]);
        EncodesSlashStep(s);
        TripletHasNoPercent(s);
        assert s == s[..3] + s[3..];
        NoSlashIn(s[..3], s[3..]);
        assert PercentDecoded(s)[1..] == PercentDecoded(s[3..]);
      } else {
        DecodingAddsSlashes(s[1..]);
        assert PercentDecoded(s)[1..] == PercentDecoded(s[1..]);
      }
    }
  }

  // ---- the characters of a fragment ----------------------------------------------------

  /** Every character is a slash, needs no percent-encoding, or is a percent-encoded UTF-8 character. */
  predicate WellEncoded(s: Name) {
    s == [] ||
    if s[0] == PERCENT then
      var n := EncodedLength(s);
      n > 0 && 3 * n <= |s| && WellEncoded(s[3 * n..])
    else (s[0] == SLASH || !NeedPercentEncode(s[0])) && WellEncoded(s[1..])
  }

  /** No tilde, encoded or not, is followed by an encoded character. */
  predicate PlainEscapes(s: Name) {
    s == [] ||
    if TripletValue(s).Some? then
      (TripletValue(s).value == TILDE ==> |s| == 3 || s[3] != PERCENT) && PlainEscapes(s[3..])
    else (s[0] == TILDE ==> |s| == 1 || s[1] != PERCENT) && PlainEscapes(s[1..])
  }

  /** Every tilde is followed by a zero or a one. */
  predicate EscapesOk(t: Name) {
    t == [] ||
    if t[0] == TILDE then |t| >= 2 && (t[1] == ZERO || t[1] == ONE) && EscapesOk(t[2..])
    else EscapesOk(t[1..])
  }

  /** What triplets in a row decode to. */
  lemma {:induction false} TripletRun(s: Name, m: nat, n: nat)
    requires n <= |DecodedTriplets(s, m)|
    ensures 3 * n <= |s|
    ensures PercentDecoded(s) == DecodedTriplets(s, m)[..n] + PercentDecoded(s[3 * n..])
  {
    hide TripletValue;
    var d := DecodedTriplets(s, m);
    if n == 0 {
      assert s[0..] == s && d[..0] == [];
      assert [] + PercentDecoded(s) == PercentDecoded(s);
    } else {
      TripletIsThree(s);
      var e := DecodedTriplets(s[3..], m - 1);
      TripletRun(s[3..], m - 1, n - 1);
      assert s[3..][3 * (n - 1)..] == s[3 * n..];
      assert d == [d[0]] + e && d[..n] == [d[0]] + e[..n - 1];
      assert PercentDecoded(s) == [d[0]] + PercentDecoded(s[3..]);
      hide DecodedTriplets, PercentDecoded;
      Regroup([d[0]], e[..n - 1], PercentDecoded(s[3 * n..]));
    }
  }

  lemma TripletIsThree(s: Name)
    requires TripletValue(s).Some?
    ensures |s| >= 3
  {
  }

  /** Triplets of high bytes hold neither tildes nor slashes. */
  lemma {:induction false} HighRun(s: Name, m: nat, n: nat)
    requires n <= |DecodedTriplets(s, m)| && forall i :: 0 <= i < n ==> DecodedTriplets(s, m)[i] > 0x7F
    ensures 3 * n <= |s|
    ensures PlainEscapes(s) <==> PlainEscapes(s[3 * n..])
    ensures EncodesSlash(s) <==> EncodesSlash(s[3 * n..])
  {
    hide TripletValue;
    var d := DecodedTriplets(s, m);
    if n == 0 {
      assert s[0..] == s;
    } else {
      TripletIsThree(s);
      var e := DecodedTriplets(s[3..], m - 1);
      EncodesSlashStep(s);
      assert d == [d[0]] + e;
      assert forall i :: 0 <= i < n - 1 ==> e[i] == d[i + 1];
      HighRun(s[3..], m - 1, n - 1);
      assert s[3..][3 * (n - 1)..] == s[3 * n..];
    }
  }

  /** A character of more than one byte is all high bytes. */
  lemma LongCharIsHigh(d: Name)
    requires CharLength(d) > 1
    ensures forall i :: 0 <= i < CharLength(d) ==> d[i] > 0x7F
  {
  }

  /** High bytes are ordinary characters of a name. */
  lemma {:induction false} HighBytes(front: Name, t: Name)
    requires forall i :: 0 <= i < |front| ==> front[i] > 0x7F
    ensures ParseName(false, front + t) == Before(front, ParseName(false, t))
    ensures EscapesOk(front + t) <==> EscapesOk(t)
  {
    if front == [] {
      assert front + t == t;
      NothingBefore(ParseName(false, t));
    } else {
      HighBytes(front[1..], t);
      assert (front + t)[1..] == front[1..] + t;
      BeforeBefore([front[0]], front[1..], ParseName(false, t));
      assert [front[0]] + front[1..] == front;
    }
  }

  // ---- the two readings ----------------------------------------------------------------

  /** The encoded character that starts a text, as all the notions see it. */
  lemma EncodedChar(s: Name)
    requires s != [] && s[0] == PERCENT && EncodedLength(s) > 0
    ensures var n, d := EncodedLength(s), DecodedTriplets(s, 4);
            && n <= |d| && 3 * n <= |s| && TripletValue(s) == Some(d[0])
            && PercentDecoded(s) == d[..n] + PercentDecoded(s[3 * n..])
            && (WellEncoded(s) <==> WellEncoded(s[3 * n..]))
            && (n > 1 ==> forall i :: 0 <= i < n ==> d[i] > 0x7F)
            && (n > 1 ==> (PlainEscapes(s) <==> PlainEscapes(s[3 * n..])))
            && (n > 1 ==> (EncodesSlash(s) <==> EncodesSlash(s[3 * n..])))
  {
    var n, d := EncodedLength(s), DecodedTriplets(s, 4);
    TripletRun(s, 4, n);
    if n > 1 {
      LongCharIsHigh(d);
      HighRun(s, 4, n);
    }
  }

  /** Without encoded slashes a name means what its decoded text means. */
  lemma {:induction false} NameDecodes(s: Name)
    requires ParseName(true, s).Some? && !EncodesSlash(s)
    ensures var p := ParseName(true, s).value;
            !EncodesSlash(p.rest) && ParseName(false, PercentDecoded(s)) == Some(Parsed(p.name, PercentDecoded(p.rest)))
    decreases |s|, 1
  {
    if s == [] || s[0] == SLASH {
    } else if s[0] == PERCENT {
      var n, d := EncodedLength(s), DecodedTriplets(s, 4);
      EncodedChar(s);
      if n == 1 {
        EncodesSlashStep(s);
        assert d[..1] == [d[0]];
        TakenDecodes(d[0], s[3..]);
      } else {
        NameDecodes(s[3 * n..]);
        HighBytes(d[..n], PercentDecoded(s[3 * n..]));
      }
    } else {
      assert TripletValue(s) == None;
      TakenDecodes(s[0], s[1..]);
    }
  }

  lemma {:induction false} TakenDecodes(c: Byte, s: Name)
    requires Unescaped(true, c, s).Some? && !EncodesSlash(s) && c != SLASH
    ensures var p := Unescaped(true, c, s).value;
            && !EncodesSlash(p.rest)
            && ParseName(false, [c] + PercentDecoded(s)) == Some(Parsed(p.name, PercentDecoded(p.rest)))
    decreases |s|, 2
  {
    var t := [c] + PercentDecoded(s);
    assert t[1..] == PercentDecoded(s);
    if c != TILDE {
      NameDecodes(s);
    } else {
      assert TripletValue(s) == None;
      assert PercentDecoded(s)[1..] == PercentDecoded(s[1..]);
      NameDecodes(s[1..]);
    }
  }

  /** The names agree as long as no slash is encoded. */
  lemma {:induction false} NamesDecode(s: Name)
    requires ParseNames(true, s).Some? && !EncodesSlash(s)
    ensures ParseNames(false, PercentDecoded(s)) == ParseNames(true, s)
    decreases |s|
  {
    if s != [] {
      assert TripletValue(s) == None;
      NameEnds(true, s[1..]);
      NameDecodes(s[1..]);
      hide ParseName;
      NamesDecode(ParseName(true, s[1..]).value.rest);
      assert PercentDecoded(s)[1..] == PercentDecoded(s[1..]);
    }
  }

  /** A fragment that the parser accepts means what its decoded text means exactly if it encodes no slash. */
  lemma FragmentMeansDecodedText(s: Name)
    requires ParseNames(true, s).Some?
    ensures ParseNames(false, PercentDecoded(s)) == ParseNames(true, s) <==> !EncodesSlash(s)
  {
    if EncodesSlash(s) {
      NamePerSlash(true, s);
      NamePerSlash(false, PercentDecoded(s));
      DecodingAddsSlashes(s);
    } else {
      NamesDecode(s);
    }
  }

  // ---- what the names of a fragment mean -----------------------------------------------

  function AllDecoded(pieces: seq<Name>): (r: seq<Name>)
    ensures |r| == |pieces|
    ensures forall i :: 0 <= i < |pieces| ==> r[i] == PercentDecoded(pieces[i])
  {
    if pieces == [] then [] else [PercentDecoded(pieces[0])] + AllDecoded(pieces[1..])
  }

  lemma {:induction false} ToSlashAfter(front: Name, s: Name)
    requires SLASH !in front
    ensures ToSlash(front + s) == |front| + ToSlash(s)
  {
    if front == [] {
      assert front + s == s;
    } else {
      ToSlashAfter(front[1..], s);
      assert (front + s)[1..] == front[1..] + s;
    }
  }

  /** Triplets are the same in a front part of the text that holds them. */
  lemma {:induction false} TripletsInFront(s: Name, m: nat, n: nat, e: nat)
    requires n <= |DecodedTriplets(s, m)| && 3 * n <= e <= |s|
    ensures DecodedTriplets(s[..e], n) == DecodedTriplets(s, m)[..n]
  {
    if n > 0 {
      TripletsInFront(s[3..], m - 1, n - 1, e - 3);
      assert TripletValue(s[..e]) == TripletValue(s);
      hide TripletValue;
      assert s[..e][3..] == s[3..][..e - 3];
    }
  }

  lemma {:induction false} HighBytesStay(front: Name, t: Name)
    requires forall i :: 0 <= i < |front| ==> front[i] > 0x7F
    ensures Meant(front + t) == front + Meant(t)
  {
    if front == [] {
      assert front + t == t && front + Meant(t) == Meant(t);
    } else {
      HighBytesStay(front[1..], t);
      assert (front + t)[1..] == front[1..] + t;
      MeantStep(front + t);
      hide Meant;
      assert [front[0]] + (front[1..] + Meant(t)) == front + Meant(t);
    }
  }

  /** The encoded character that starts a text lies before the first slash. */
  lemma EncodedCharBeforeSlash(s: Name)
    requires s != [] && s[0] == PERCENT && EncodedLength(s) > 0
    ensures var n, d, e := EncodedLength(s), DecodedTriplets(s, 4), ToSlash(s);
            && n <= |d| && 3 * n <= |s| && e == 3 * n + ToSlash(s[3 * n..])
            && PercentDecoded(s[..e]) == d[..n] + PercentDecoded(s[3 * n..][..e - 3 * n])
            && s[e..] == s[3 * n..][e - 3 * n..]
  {
    hide EncodedLength, DecodedTriplets, PercentDecoded, ToSlash, WellEncoded, PlainEscapes, EncodesSlash;
    var n, d := EncodedLength(s), DecodedTriplets(s, 4);
    EncodedChar(s);
    TripletsHaveNoSlash(s, 4);
    NoSlashInFront(s, 3 * |d|, 3 * n);
    BeforeSlash(s, 3 * n);
    var e := ToSlash(s);
    TripletsInFront(s, 4, n, e);
    TripletRun(s[..e], n, n);
    assert d[..n][..n] == d[..n];
  }

  lemma NoSlashInFront(s: Name, k: nat, n: nat)
    requires n <= k <= |s| && SLASH !in s[..k]
    ensures SLASH !in s[..n]
  {
    assert forall j :: 0 <= j < n ==> s[..n][j] == s[..k][j];
  }

  lemma BeforeSlash(s: Name, k: nat)
    requires k <= |s| && SLASH !in s[..k]
    ensures var e := ToSlash(s);
            e == k + ToSlash(s[k..]) && s[..e][k..] == s[k..][..e - k] && s[e..] == s[k..][e - k..]
  {
    hide ToSlash;
    CutTwice(s, k, k);
    ToSlashAfter(s[..k], s[k..]);
    CutTwice(s, k, ToSlash(s));
  }

  lemma CutTwice(s: Name, k: nat, e: nat)
    requires k <= e <= |s|
    ensures s == s[..k] + s[k..] && s[..e][k..] == s[k..][..e - k] && s[e..] == s[k..][e - k..]
  {
  }

  /** A name is what its part of the fragment means once decoded, encoded slashes included. */
  lemma {:induction false} FragmentNameIsMeant(s: Name)
    requires ParseName(true, s).Some?
    ensures var e := ToSlash(s); ParseName(true, s).value == Parsed(Meant(PercentDecoded(s[..e])), s[e..])
    decreases |s|, 1
  {
    if s == [] || s[0] == SLASH {
      assert s[..0] == [] && s[0..] == s;
    } else if s[0] == PERCENT {
      var n, d := EncodedLength(s), DecodedTriplets(s, 4);
      EncodedCharBeforeSlash(s);
      if n == 1 {
        assert d[..1] == [d[0]];
        hide Meant, PercentDecoded, ToSlash;
        TakenIsMeant(d[0], s[3..]);
      } else {
        EncodedChar(s);
        hide Meant, PercentDecoded, ToSlash;
        FragmentNameIsMeant(s[3 * n..]);
        HighBytesStay(d[..n], PercentDecoded(s[3 * n..][..ToSlash(s[3 * n..])]));
      }
    } else {
      PlainCharBeforeSlash(s);
      hide Meant, PercentDecoded, ToSlash;
      TakenIsMeant(s[0], s[1..]);
    }
  }

  lemma PlainCharBeforeSlash(s: Name)
    requires s != [] && s[0] != SLASH && s[0] != PERCENT
    ensures var e := ToSlash(s);
            && e == 1 + ToSlash(s[1..]) && s[e..] == s[1..][e - 1..]
            && PercentDecoded(s[..e]) == [s[0]] + PercentDecoded(s[1..][..e - 1])
  {
    var e := ToSlash(s);
    assert s[..e][1..] == s[1..][..e - 1];
  }

  lemma {:induction false} TakenIsMeant(c: Byte, s: Name)
    requires Unescaped(true, c, s).Some?
    ensures var e := ToSlash(s);
            Unescaped(true, c, s).value == Parsed(Meant([c] + PercentDecoded(s[..e])), s[e..])
    decreases |s|, 2
  {
    var t := [c] + PercentDecoded(s[..ToSlash(s)]);
    MeantStep(t);
    if c != TILDE {
      assert t[1..] == PercentDecoded(s[..ToSlash(s)]);
      hide Meant, PercentDecoded, ToSlash;
      FragmentNameIsMeant(s);
    } else {
      PlainCharBeforeSlash(s);
      hide Meant, PercentDecoded, ToSlash;
      assert t[2..] == PercentDecoded(s[1..][..ToSlash(s[1..])]);
      FragmentNameIsMeant(s[1..]);
    }
  }

  /** The names of an accepted fragment are what its parts between the slashes mean, each percent-decoded first. */
  lemma {:induction false} FragmentNamesAreMeant(s: Name)
    requires ParseNames(true, s).Some?
    ensures ParseNames(true, s).value == AllMeant(AllDecoded(Pieces(s)))
    decreases |s|
  {
    hide Meant, ToSlash, ParseName, Pieces, PercentDecoded;
    if s == [] {
      NoPieces();
    } else {
      var rest := s[1..];
      NameEnds(true, rest);
      FragmentNameIsMeant(rest);
      FragmentNamesAreMeant(rest[ToSlash(rest)..]);
      PiecesStep(s);
    }
  }

  /** In the terms of the constructor: what the tokens of an accepted source are, in either form; where a fragment
      encodes no slash it may be decoded as a whole, before it is cut. */
  lemma NamesOfSource(source: Name)
    requires Names(source).Some?
    ensures source == [] || source[0] != HASH ==> Names(source).value == AllMeant(Pieces(source))
    ensures source != [] && source[0] == HASH ==> Names(source).value == AllMeant(AllDecoded(Pieces(source[1..])))
    ensures source != [] && source[0] == HASH && !EncodesSlash(source[1..]) ==>
              Names(source).value == AllMeant(Pieces(PercentDecoded(source[1..])))
  {
    if source != [] && source[0] == HASH {
      FragmentNamesAreMeant(source[1..]);
      if !EncodesSlash(source[1..]) {
        NamesDecode(source[1..]);
        NamesAreMeant(PercentDecoded(source[1..]));
      }
    } else {
      NamesAreMeant(source);
    }
  }

  // ---- what is written -----------------------------------------------------------------

  /** A name in a fragment, byte by byte: tilde and slash escaped, and a triplet where one is needed and nowhere
      else. */
  function Bytewise(name: Name): Name {
    if name == [] then []
    else
      var c := name[0];
      (if c == TILDE then [TILDE, ZERO] else if c == SLASH then [TILDE, ONE]
       else if NeedPercentEncode(c) then Triplet(c) else [c]) + Bytewise(name[1..])
  }

  lemma {:induction false} HighBytesAreTriplets(front: Name, name: Name)
    requires forall i :: 0 <= i < |front| ==> NeedPercentEncode(front[i]) && front[i] != SLASH
    ensures Bytewise(front + name) == Triplets(front) + Bytewise(name)
  {
    if front == [] {
      assert front + name == name && Triplets(front) + Bytewise(name) == Bytewise(name);
    } else {
      HighBytesAreTriplets(front[1..], name);
      assert (front + name)[1..] == front[1..] + name;
      assert Bytewise(front + name) == Triplet(front[0]) + Bytewise(front[1..] + name);
      hide Bytewise, Triplet, NeedPercentEncode;
      Regroup(Triplet(front[0]), Triplets(front[1..]), Bytewise(name));
    }
  }

  lemma {:induction false} FragmentIsBytewise(name: Name)
    requires NameFragment(name).Some?
    ensures NameFragment(name).value == Bytewise(name)
    decreases |name|
  {
    if name != [] && name[0] != TILDE && name[0] != SLASH && NeedPercentEncode(name[0]) {
      var n := CharLength(name);
      if n > 1 {
        LongCharIsHigh(name);
      }
      FragmentIsBytewise(name[n..]);
      HighBytesAreTriplets(name[..n], name[n..]);
      assert name[..n] + name[n..] == name;
    } else if name != [] {
      FragmentIsBytewise(name[1..]);
    }
  }

  // ---- what the fragment form rejects --------------------------------------------------

  /** Encoded as it must be, and escapes in plain digits. */
  predicate Good(s: Name) {
    WellEncoded(s) && PlainEscapes(s) && EscapesOk(PercentDecoded(s))
  }

  /** A name is accepted, and what follows it is good, exactly if all is good. */
  lemma {:induction false} NameIsGood(s: Name)
    ensures Good(s) <==> ParseName(true, s).Some? && Good(ParseName(true, s).value.rest)
    decreases |s|, 1
  {
    if s == [] || s[0] == SLASH {
    } else if s[0] == PERCENT {
      var n, d := EncodedLength(s), DecodedTriplets(s, 4);
      if n > 0 {
        EncodedChar(s);
        if n == 1 {
          assert d[..1] == [d[0]];
          TakenIsGood(d[0], s[3..]);
        } else {
          NameIsGood(s[3 * n..]);
          HighBytes(d[..n], PercentDecoded(s[3 * n..]));
        }
      }
    } else {
      assert TripletValue(s) == None;
      TakenIsGood(s[0], s[1..]);
    }
  }

  /** The same after a character taken, plain or encoded. */
  lemma {:induction false} TakenIsGood(c: Byte, s: Name)
    ensures var p := Unescaped(true, c, s);
            WellEncoded(s) && PlainEscapes(s) && (c == TILDE ==> s == [] || s[0] != PERCENT)
              && EscapesOk([c] + PercentDecoded(s)) <==>
            p.Some? && Good(p.value.rest)
    decreases |s|, 2
  {
    var t := [c] + PercentDecoded(s);
    assert t[1..] == PercentDecoded(s);
    if c != TILDE {
      NameIsGood(s);
    } else if s != [] && s[0] != PERCENT {
      assert TripletValue(s) == None;
      assert t[2..] == PercentDecoded(s[1..]);
      if s[0] == ZERO || s[0] == ONE {
        NameIsGood(s[1..]);
      }
    }
  }

  /** The fragment form accepts exactly the texts of slashes and names in which every character is encoded as it
      must be, every tilde is followed by a zero or one once decoded, and that digit is not itself encoded. */
  lemma {:induction false} FragmentIsAccepted(s: Name)
    ensures ParseNames(true, s).Some? <==> Closes(s) && Good(s)
    decreases |s|
  {
    if s != [] && s[0] == SLASH {
      NameIsGood(s[1..]);
      assert TripletValue(s) == None;
      assert PercentDecoded(s)[1..] == PercentDecoded(s[1..]);
      NameEnds(true, s[1..]);
      if ParseName(true, s[1..]).Some? {
        FragmentIsAccepted(ParseName(true, s[1..]).value.rest);
      }
    }
  }

  /** A text outside fragments is accepted exactly if it is slashes and names with complete escapes. */
  lemma {:induction false} TextIsAccepted(t: Name)
    ensures ParseNames(false, t).Some? <==> Closes(t) && EscapesOk(t)
    decreases |t|
  {
    if t != [] && t[0] == SLASH {
      EscapesOfName(t[1..]);
      NameEnds(false, t[1..]);
      if ParseName(false, t[1..]).Some? {
        TextIsAccepted(ParseName(false, t[1..]).value.rest);
      }
    }
  }

  lemma {:induction false} EscapesOfName(t: Name)
    ensures EscapesOk(t) <==> ParseName(false, t).Some? && EscapesOk(ParseName(false, t).value.rest)
    decreases |t|
  {
    if t != [] && t[0] != SLASH {
      if t[0] != TILDE {
        EscapesOfName(t[1..]);
      } else if |t| >= 2 {
        assert t[1..][1..] == t[2..];
        EscapesOfName(t[2..]);
      }
    }
  }

  /** Of the fragments whose decoded text is accepted, the parser rejects exactly those with a character that is not
      encoded as it must be, with an encoded digit after a tilde, or with an encoded slash in front. */
  lemma DecodedTextButNotFragment(s: Name)
    requires ParseNames(false, PercentDecoded(s)).Some?
    ensures ParseNames(true, s) == None <==> !WellEncoded(s) || !PlainEscapes(s) || !Closes(s)
  {
    FragmentIsAccepted(s);
    TextIsAccepted(PercentDecoded(s));
  }
}
