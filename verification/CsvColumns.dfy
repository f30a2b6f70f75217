/**
 Splitting a CSV line into columns and decoding them in place, with double-quote escaping.  A line is a stretch of
 the buffer closed by a NUL; positions stand for the pointers of the source.
 */
module CsvColumns {
  import opened Slices
  import opened Wrappers

  const NUL: char := '\0'

  /** The separator, the quote and the characters trimmed from both ends of a column. */
  datatype Format = Format(sep: char, quote: char, trimmed: set<char>) {
    predicate Valid() {
      sep != quote && sep != NUL && quote != NUL && quote !in trimmed
    }
  }

  // ---- what a line means ---------------------------------------------------------------

  /** Where the first column of a text ends: at a separator outside quotes or at the end; `inside` says whether the
      text starts inside quotes.  None if a quote is not closed. */
  function ColumnEnd(f: Format, t: seq<char>, inside: bool): (e: Option<nat>)
    ensures e.Some? ==> e.value <= |t| && (e.value < |t| ==> t[e.value] == f.sep)
  {
    if t == [] then (if inside then None else Some(0))
    else if !inside && t[0] == f.sep then Some(0)
    else
      var e := ColumnEnd(f, t[1..], if t[0] == f.quote then !inside else inside);
      if e.None? then None else Some(1 + e.value)
  }

  datatype Outcome = Columns(cols: seq<seq<char>>) | TooFew | TooMany | NotClosed

  /** The `n` columns of a line; a line that has been used up is None. */
  function Split(f: Format, line: Option<seq<char>>, n: nat): Outcome
    decreases n
  {
    if n == 0 then (if line.None? then Columns([]) else TooMany)
    else if line.None? then TooFew
    else
      var e := ColumnEnd(f, line.value, false);
      if e.None? then NotClosed
      else
        var rest := Split(f, RestOfLine(line.value, e.value), n - 1);
        if rest.Columns? then Columns([line.value[..e.value]] + rest.cols) else rest
  }

  function RestOfLine(t: seq<char>, e: nat): Option<seq<char>>
    requires e <= |t|
  {
    if e == |t| then None else Some(t[e + 1..])
  }

  function TrimFront(f: Format, t: seq<char>): seq<char> {
    if t != [] && t[0] in f.trimmed then TrimFront(f, t[1..]) else t
  }

  function TrimBack(f: Format, t: seq<char>): seq<char> {
    if t != [] && t[|t| - 1] in f.trimmed then TrimBack(f, t[..|t| - 1]) else t
  }

  /** Two quotes for one. */
  function Undouble(q: char, t: seq<char>): seq<char> {
    if t == [] then []
    else if |t| >= 2 && t[0] == q && t[1] == q then [q] + Undouble(q, t[2..])
    else [t[0]] + Undouble(q, t[1..])
  }

  function Unescape(q: char, t: seq<char>): seq<char> {
    if |t| >= 2 && t[0] == q && t[|t| - 1] == q then Undouble(q, t[1..|t| - 1]) else t
  }

  function Decoded(f: Format, column: seq<char>): seq<char> {
    Unescape(f.quote, TrimBack(f, TrimFront(f, column)))
  }

  // ---- quoting and joining -------------------------------------------------------------

  function Doubled(q: char, t: seq<char>): seq<char> {
    if t == [] then []
    else if t[0] == q then [q, q] + Doubled(q, t[1..])
    else [t[0]] + Doubled(q, t[1..])
  }

  /** A field as it is written, quoted or plain, between characters that will be trimmed. */
  datatype Field =
    | Quoted(before: seq<char>, text: seq<char>, after: seq<char>)
    | Plain(before: seq<char>, text: seq<char>, after: seq<char>)

  predicate Padding(f: Format, t: seq<char>) {
    NUL !in t && f.sep !in t && forall i :: 0 <= i < |t| ==> t[i] in f.trimmed
  }

  /** A plain field must not need its quotes. */
  predicate Writable(f: Format, field: Field) {
    && NUL !in field.text && Padding(f, field.before) && Padding(f, field.after)
    && (field.Plain? ==> f.sep !in field.text && f.quote !in field.text && Trimmed(f, field.text))
  }

  /** Nothing can be trimmed at either end. */
  predicate Trimmed(f: Format, t: seq<char>) {
    t != [] ==> t[0] !in f.trimmed && t[|t| - 1] !in f.trimmed
  }

  /** The field without its padding. */
  function Core(f: Format, field: Field): seq<char> {
    match field
    case Quoted(_, text, _) => [f.quote] + Doubled(f.quote, text) + [f.quote]
    case Plain(_, text, _) => text
  }

  function Written(f: Format, field: Field): seq<char> {
    field.before + Core(f, field) + field.after
  }

  function Joined(f: Format, fields: seq<Field>): seq<char>
    requires fields != []
  {
    if |fields| == 1 then Written(f, fields[0])
    else Written(f, fields[0]) + [f.sep] + Joined(f, fields[1..])
  }

  /** A column end, counted from `k` characters earlier. */
  function Later(k: nat, e: Option<nat>): Option<nat> {
    if e.None? then None else Some(k + e.value)
  }

  /** A text the column ends before. */
  predicate Follows(f: Format, u: seq<char>) {
    u == [] || u[0] == f.sep
  }

  /** One character of a text with column end `e` from there on. */
  lemma ColumnEndCons(f: Format, c: char, t: seq<char>, inside: bool)
    requires inside || c != f.sep
    ensures ColumnEnd(f, [c] + t, inside) == Later(1, ColumnEnd(f, t, if c == f.quote then !inside else inside))
  {
    assert ([c] + t)[1..] == t;
  }

  lemma RegroupFour(a: seq<char>, d: seq<char>, q: seq<char>, u: seq<char>)
    ensures (a + d) + q + u == a + (d + q + u)
  {
    Regroup(a, d, q);
    Regroup(a, d + q, u);
  }

  /** After the closing quote of a quoted text the scan goes on as outside quotes, whatever the text holds. */
  lemma {:induction false} QuotedGoesOn(f: Format, text: seq<char>, u: seq<char>)
    requires f.Valid()
    ensures ColumnEnd(f, Doubled(f.quote, text) + [f.quote] + u, true) ==
            Later(|Doubled(f.quote, text)| + 1, ColumnEnd(f, u, false))
  {
    var q := f.quote;
    if text == [] {
      ColumnEndCons(f, q, u, true);
      assert Doubled(q, text) + [q] + u == [q] + u;
    } else {
      QuotedGoesOn(f, text[1..], u);
      var d := Doubled(q, text[1..]);
      if text[0] == q {
        assert Doubled(q, text) == [q, q] + d;
        hide ColumnEnd, Doubled;
        RegroupFour([q, q], d, [q], u);
        QuotePairInside(f, d + [q] + u);
      } else {
        assert Doubled(q, text) == [text[0]] + d;
        hide ColumnEnd, Doubled;
        RegroupFour([text[0]], d, [q], u);
        ColumnEndCons(f, text[0], d + [q] + u, true);
      }
    }
  }

  lemma QuotedEnds(f: Format, text: seq<char>, u: seq<char>)
    requires f.Valid() && Follows(f, u)
    ensures ColumnEnd(f, Doubled(f.quote, text) + [f.quote] + u, true) == Some(|Doubled(f.quote, text)| + 1)
  {
    QuotedGoesOn(f, text, u);
    assert ColumnEnd(f, u, false) == Some(0);
    hide ColumnEnd;
  }

  lemma QuotePairInside(f: Format, t: seq<char>)
    requires f.Valid()
    ensures ColumnEnd(f, [f.quote, f.quote] + t, true) == Later(2, ColumnEnd(f, t, true))
  {
    ColumnEndCons(f, f.quote, t, false);
    ColumnEndCons(f, f.quote, [f.quote] + t, true);
    hide ColumnEnd;
    assert [f.quote, f.quote] + t == [f.quote] + ([f.quote] + t);
  }

  lemma {:induction false} PlainGoesOn(f: Format, text: seq<char>, u: seq<char>)
    requires f.Valid() && f.sep !in text && f.quote !in text
    ensures ColumnEnd(f, text + u, false) == Later(|text|, ColumnEnd(f, u, false))
  {
    if text == [] {
      assert text + u == u;
    } else {
      PlainGoesOn(f, text[1..], u);
      assert text + u == [text[0]] + (text[1..] + u);
    }
  }

  lemma CoreGoesOn(f: Format, field: Field, u: seq<char>)
    requires f.Valid() && Writable(f, field)
    ensures ColumnEnd(f, Core(f, field) + u, false) == Later(|Core(f, field)|, ColumnEnd(f, u, false))
  {
    match field
    case Plain(_, text, _) => PlainGoesOn(f, text, u);
    case Quoted(_, text, _) =>
      var q, d := f.quote, Doubled(f.quote, text);
      QuotedGoesOn(f, text, u);
      ColumnEndCons(f, q, d + [q] + u, false);
      hide ColumnEnd, Doubled;
      RegroupFour([q], d, [q], u);
  }

  lemma PaddingHasNoQuote(f: Format, t: seq<char>)
    requires f.Valid() && Padding(f, t)
    ensures f.quote !in t
  {
  }

  lemma WrittenEnds(f: Format, field: Field, u: seq<char>)
    requires f.Valid() && Writable(f, field) && Follows(f, u)
    ensures ColumnEnd(f, Written(f, field) + u, false) == Some(|Written(f, field)|)
  {
    assert ColumnEnd(f, u, false) == Some(0);
    PaddingHasNoQuote(f, field.before);
    PaddingHasNoQuote(f, field.after);
    var core := Core(f, field);
    PlainGoesOn(f, field.after, u);
    CoreGoesOn(f, field, field.after + u);
    PlainGoesOn(f, field.before, core + (field.after + u));
    hide ColumnEnd, Core;
    RegroupFour(field.before, core, field.after, u);
    Regroup(core, field.after, u);
  }

  lemma {:induction false} UndoubleDoubled(q: char, text: seq<char>)
    ensures Undouble(q, Doubled(q, text)) == text
  {
    if text != [] {
      UndoubleDoubled(q, text[1..]);
      var d := Doubled(q, text[1..]);
      if text[0] == q {
        assert ([q, q] + d)[2..] == d;
      } else {
        assert ([text[0]] + d)[1..] == d;
      }
    }
  }

  /** Quotes that do not stand in pairs stay. */
  lemma {:induction false} UndoubleKeepsSingle(q: char, t: seq<char>)
    requires forall i :: 0 < i < |t| ==> !(t[i - 1] == q && t[i] == q)
    ensures Undouble(q, t) == t
  {
    if t != [] {
      assert forall i :: 0 < i < |t[1..]| ==> t[1..][i - 1] == t[i] && t[1..][i] == t[i + 1];
      UndoubleKeepsSingle(q, t[1..]);
      assert |t| >= 2 ==> !(t[1 - 1] == q && t[1] == q);
    }
  }

  // ---- trimming ------------------------------------------------------------------------

  lemma {:induction false} FrontIsTrimmed(f: Format, front: seq<char>, t: seq<char>)
    requires forall i :: 0 <= i < |front| ==> front[i] in f.trimmed
    requires t != [] ==> t[0] !in f.trimmed
    ensures TrimFront(f, front + t) == t
  {
    if front == [] {
      assert front + t == t;
    } else {
      assert (front + t)[1..] == front[1..] + t;
      FrontIsTrimmed(f, front[1..], t);
    }
  }

  lemma {:induction false} BackIsTrimmed(f: Format, t: seq<char>, back: seq<char>)
    requires forall i :: 0 <= i < |back| ==> back[i] in f.trimmed
    requires t != [] ==> t[|t| - 1] !in f.trimmed
    ensures TrimBack(f, t + back) == t
  {
    if back == [] {
      assert t + back == t;
    } else {
      var last := |back| - 1;
      assert (t + back)[..|t + back| - 1] == t + back[..last];
      BackIsTrimmed(f, t, back[..last]);
    }
  }

  /** What is trimmed: all of `front` and `back`, if nothing more can be trimmed of what is between. */
  lemma TrimmedIs(f: Format, front: seq<char>, x: seq<char>, back: seq<char>)
    requires forall i :: 0 <= i < |front| ==> front[i] in f.trimmed
    requires forall i :: 0 <= i < |back| ==> back[i] in f.trimmed
    requires Trimmed(f, x)
    ensures Decoded(f, front + x + back) == Unescape(f.quote, x)
  {
    hide TrimFront, TrimBack;
    if x == [] {
      assert front + x + back == (front + back) + x;
      FrontIsTrimmed(f, front + back, x);
      BackIsTrimmed(f, x, x);
      assert x + x == x;
    } else {
      Regroup(front, x, back);
      FrontIsTrimmed(f, front, x + back);
      BackIsTrimmed(f, x, back);
    }
  }

  /** Every column has such a middle: the text that is decoded is the column without the longest stretches of
      trimmed characters at its ends. */
  lemma ColumnIsPadded(f: Format, column: seq<char>) returns (front: seq<char>, x: seq<char>, back: seq<char>)
    ensures column == front + x + back && Trimmed(f, x)
    ensures forall i :: 0 <= i < |front| ==> front[i] in f.trimmed
    ensures forall i :: 0 <= i < |back| ==> back[i] in f.trimmed
    ensures Decoded(f, column) == Unescape(f.quote, x)
  {
    var rest;
    front, rest := SplitFront(f, column);
    x, back := SplitBack(f, rest);
    assert x != [] ==> x[0] == rest[0];
    Regroup(front, x, back);
    TrimmedIs(f, front, x, back);
  }

  lemma {:induction false} SplitFront(f: Format, t: seq<char>) returns (front: seq<char>, rest: seq<char>)
    ensures t == front + rest && (rest != [] ==> rest[0] !in f.trimmed)
    ensures forall i :: 0 <= i < |front| ==> front[i] in f.trimmed
  {
    if t == [] || t[0] !in f.trimmed {
      front, rest := [], t;
    } else {
      front, rest := SplitFront(f, t[1..]);
      front := [t[0]] + front;
    }
  }

  lemma {:induction false} SplitBack(f: Format, t: seq<char>) returns (x: seq<char>, back: seq<char>)
    ensures t == x + back && (x != [] ==> x[|x| - 1] !in f.trimmed)
    ensures forall i :: 0 <= i < |back| ==> back[i] in f.trimmed
  {
    if t == [] || t[|t| - 1] !in f.trimmed {
      x, back := t, [];
    } else {
      x, back := SplitBack(f, t[..|t| - 1]);
      back := back + [t[|t| - 1]];
    }
  }

  lemma WrittenDecodes(f: Format, field: Field)
    requires f.Valid() && Writable(f, field)
    ensures Decoded(f, Written(f, field)) == field.text
  {
    TrimmedIs(f, field.before, Core(f, field), field.after);
    CoreDecodes(f, field);
    hide Decoded, Core, Unescape;
  }

  lemma CoreDecodes(f: Format, field: Field)
    requires f.Valid() && Writable(f, field)
    ensures Unescape(f.quote, Core(f, field)) == field.text
  {
    match field
    case Plain(_, text, _) => assert text != [] ==> text[0] in text;
    case Quoted(_, text, _) =>
      var w := Core(f, field);
      assert w[1..|w| - 1] == Doubled(f.quote, text);
      UndoubleDoubled(f.quote, text);
  }

  /** The column is the field as written, and decodes to it. */
  predicate Reads(f: Format, column: seq<char>, field: Field) {
    column == Written(f, field) && Decoded(f, column) == field.text
  }

  lemma SplitOne(f: Format, field: Field, u: seq<char>, n: nat)
    requires f.Valid() && Writable(f, field) && Follows(f, u) && n > 0
    ensures var rest := Split(f, if u == [] then None else Some(u[1..]), n - 1);
            Split(f, Some(Written(f, field) + u), n) ==
            if rest.Columns? then Columns([Written(f, field)] + rest.cols) else rest
  {
    var w := Written(f, field);
    WrittenEnds(f, field, u);
    hide Written, ColumnEnd, Writable;
    assert (w + u)[..|w|] == w;
    assert u != [] ==> (w + u)[|w| + 1..] == u[1..];
  }

  predicate AllRead(f: Format, cols: seq<seq<char>>, fields: seq<Field>) {
    |cols| == |fields| && forall i :: 0 <= i < |fields| ==> Reads(f, cols[i], fields[i])
  }

  lemma AllReadCons(f: Format, column: seq<char>, cols: seq<seq<char>>, fields: seq<Field>)
    requires fields != [] && Reads(f, column, fields[0]) && AllRead(f, cols, fields[1..])
    ensures AllRead(f, [column] + cols, fields)
  {
    hide Reads;
    forall i | 0 <= i < |fields| ensures Reads(f, ([column] + cols)[i], fields[i]) {
      assert i > 0 ==> Reads(f, cols[i - 1], fields[1..][i - 1]);
    }
  }

  /** Writing a line and splitting it gives the written columns back, and each decodes to its field, whatever
      separators, quotes and newlines quoted fields hold, and however fields are padded. */
  lemma {:induction false} JoinedSplits(f: Format, fields: seq<Field>)
    requires f.Valid() && fields != [] && (forall i :: 0 <= i < |fields| ==> Writable(f, fields[i]))
    ensures var r := Split(f, Some(Joined(f, fields)), |fields|);
            r.Columns? && AllRead(f, r.cols, fields)
  {
    hide Reads, Written, ColumnEnd, Writable, Split, Decoded, AllRead;
    if |fields| == 1 {
      assert fields[1..] == [];
      SplitNone(f);
      AllReadNone(f);
      JoinedStep(f, fields, []);
    } else {
      JoinedSplits(f, fields[1..]);
      JoinedStep(f, fields, [f.sep] + Joined(f, fields[1..]));
    }
  }

  lemma JoinedStep(f: Format, fields: seq<Field>, u: seq<char>)
    requires f.Valid() && fields != [] && Writable(f, fields[0])
    requires u == if |fields| == 1 then [] else [f.sep] + Joined(f, fields[1..])
    requires var rest := Split(f, if u == [] then None else Some(u[1..]), |fields| - 1);
             rest.Columns? && AllRead(f, rest.cols, fields[1..])
    ensures var r := Split(f, Some(Joined(f, fields)), |fields|);
            r.Columns? && AllRead(f, r.cols, fields)
  {
    hide AllRead, Split, Writable, Decoded, Written, ColumnEnd;
    var w := Written(f, fields[0]);
    assert Joined(f, fields) == w + u by {
      assert |fields| == 1 ==> w + [] == w;
      assert |fields| > 1 ==> w + ([f.sep] + Joined(f, fields[1..])) == w + [f.sep] + Joined(f, fields[1..]);
    }
    hide Joined;
    WrittenDecodes(f, fields[0]);
    assert Reads(f, w, fields[0]);
    hide Reads;
    SplitOne(f, fields[0], u, |fields|);
    AllReadCons(f, w, Split(f, if u == [] then None else Some(u[1..]), |fields| - 1).cols, fields);
  }

  lemma AllReadNone(f: Format)
    ensures AllRead(f, [], [])
  {
  }

  lemma SplitNone(f: Format)
    ensures Split(f, None, 0) == Columns([])
  {
  }

  // ---- how many columns ----------------------------------------------------------------

  function Quotes(q: char, t: seq<char>): nat {
    if t == [] then 0 else (if t[0] == q then 1 else 0) + Quotes(q, t[1..])
  }

  /** A position inside quotes, which `inside` says of the start. */
  predicate InQuotes(q: char, t: seq<char>, inside: bool, i: nat)
    requires i <= |t|
  {
    (Quotes(q, t[..i]) % 2 == 1) != inside
  }

  /** A column ends at the first separator outside quotes or at the end, and there must not be inside quotes. */
  predicate EndsAt(f: Format, t: seq<char>, inside: bool, e: nat) {
    && e <= |t| && (e < |t| ==> t[e] == f.sep)
    && !InQuotes(f.quote, t, inside, e)
    && forall i :: 0 <= i < e && t[i] == f.sep ==> InQuotes(f.quote, t, inside, i)
  }

  lemma InQuotesStep(q: char, t: seq<char>, inside: bool, i: nat)
    requires 0 < i <= |t|
    ensures InQuotes(q, t, inside, i) <==> InQuotes(q, t[1..], if t[0] == q then !inside else inside, i - 1)
  {
    assert t[..i][1..] == t[1..][..i - 1];
  }

  lemma EndsAtStep(f: Format, t: seq<char>, inside: bool, e: nat)
    requires f.Valid() && 0 < e <= |t| && (t[0] == f.sep ==> inside)
    ensures EndsAt(f, t, inside, e) <==> EndsAt(f, t[1..], if t[0] == f.quote then !inside else inside, e - 1)
  {
    hide InQuotes;
    var more, rest := if t[0] == f.quote then !inside else inside, t[1..];
    forall i | 0 <= i < e
      ensures InQuotes(f.quote, t, inside, i + 1) <==> InQuotes(f.quote, rest, more, i)
    {
      InQuotesStep(f.quote, t, inside, i + 1);
    }
    NothingQuoted(f.quote, t, inside);
    forall i | 0 <= i < e
      ensures i > 0 && t[i] == f.sep ==> (InQuotes(f.quote, t, inside, i) <==> InQuotes(f.quote, rest, more, i - 1))
      ensures i < e - 1 ==> rest[i] == t[i + 1]
    {
    }
    if EndsAt(f, t, inside, e) {
      forall i | 0 <= i < e - 1 && rest[i] == f.sep
        ensures InQuotes(f.quote, rest, more, i)
      {
        assert t[i + 1] == f.sep;
      }
    }
  }

  lemma NothingQuoted(q: char, t: seq<char>, inside: bool)
    ensures InQuotes(q, t, inside, 0) <==> inside
  {
  }

  /** What `ColumnEnd` finds, counting quotes. */
  lemma {:induction false} ColumnEndIs(f: Format, t: seq<char>, inside: bool, e: nat)
    requires f.Valid()
    ensures ColumnEnd(f, t, inside) == Some(e) <==> EndsAt(f, t, inside, e)
  {
    hide InQuotes, EndsAt;
    EndsAtFirst(f, t, inside, e);
    if t != [] && !(t[0] == f.sep && !inside) && e > 0 && e <= |t| {
      ColumnEndIs(f, t[1..], if t[0] == f.quote then !inside else inside, e - 1);
      EndsAtStep(f, t, inside, e);
    }
  }

  lemma EndsAtFirst(f: Format, t: seq<char>, inside: bool, e: nat)
    requires f.Valid()
    ensures EndsAt(f, t, inside, e) ==> e <= |t|
    ensures EndsAt(f, t, inside, 0) <==> !inside && (t == [] || t[0] == f.sep)
    ensures t != [] && t[0] == f.sep && !inside && e > 0 ==> !EndsAt(f, t, inside, e)
  {
    hide InQuotes;
    NothingQuoted(f.quote, t, inside);
  }

  /** Columns with the separators between them. */
  function WithSeparators(f: Format, cols: seq<seq<char>>): seq<char>
    requires cols != []
  {
    if |cols| == 1 then cols[0] else cols[0] + [f.sep] + WithSeparators(f, cols[1..])
  }

  /** A line that splits into `n` columns has exactly these: asked for fewer it has too many, asked for more too
      few. */
  lemma {:induction false} OtherCounts(f: Format, line: Option<seq<char>>, n: nat, m: nat)
    requires Split(f, line, n).Columns?
    ensures m < n ==> Split(f, line, m) == TooMany
    ensures m > n ==> Split(f, line, m) == TooFew
    decreases n
  {
    if n > 0 && m > 0 {
      var e := ColumnEnd(f, line.value, false);
      OtherCounts(f, RestOfLine(line.value, e.value), n - 1, m - 1);
    }
  }

  /** A line that splits into no number of columns has a quote that is not closed, after `k` closed columns. */
  lemma {:induction false} OpenLine(f: Format, line: seq<char>) returns (n: nat)
    ensures n > 0 && (Split(f, Some(line), n).Columns? || Split(f, Some(line), n) == NotClosed)
    ensures Split(f, Some(line), n) == NotClosed ==> forall m :: 0 <= m < n ==> Split(f, Some(line), m) == TooMany
    ensures Split(f, Some(line), n) == NotClosed ==> forall m :: m >= n ==> Split(f, Some(line), m) == NotClosed
    decreases |line|
  {
    var e := ColumnEnd(f, line, false);
    if e.None? {
      n := 1;
    } else if e.value == |line| {
      n := 1;
    } else {
      var rest := line[e.value + 1..];
      var k := OpenLine(f, rest);
      n := k + 1;
      assert forall m: nat :: m > 0 ==> Split(f, Some(line), m).Columns? == Split(f, Some(rest), m - 1).Columns?;
    }
  }

  /** Closed columns, one or more. */
  predicate ClosedColumns(f: Format, cols: seq<seq<char>>) {
    cols != [] && forall k :: 0 <= k < |cols| ==> EndsAt(f, cols[k], false, |cols[k]|)
  }

  /** A line splits into these columns exactly if each is closed and they make up the line. */
  lemma {:induction false} SplitIs(f: Format, line: seq<char>, cols: seq<seq<char>>)
    requires f.Valid() && cols != []
    ensures Split(f, Some(line), |cols|) == Columns(cols) <==> ClosedColumns(f, cols) && WithSeparators(f, cols) == line
  {
    if Split(f, Some(line), |cols|) == Columns(cols) {
      SplitRebuilds(f, line, cols);
    }
    if ClosedColumns(f, cols) && WithSeparators(f, cols) == line {
      RowSplits(f, cols);
    }
  }

  lemma {:induction false} SplitRebuilds(f: Format, line: seq<char>, cols: seq<seq<char>>)
    requires f.Valid() && cols != [] && Split(f, Some(line), |cols|) == Columns(cols)
    ensures ClosedColumns(f, cols) && WithSeparators(f, cols) == line
  {
    hide EndsAt, ColumnEnd, Split;
    SplitParts(f, line, cols);
    var e := ColumnEnd(f, line, false).value;
    ColumnAlone(f, line, e);
    if e < |line| {
      var rest := line[e + 1..];
      SplitRebuilds(f, rest, cols[1..]);
      assert line == line[..e] + [f.sep] + rest;
      ClosedCons(f, cols);
    }
  }

  lemma SplitParts(f: Format, line: seq<char>, cols: seq<seq<char>>)
    requires cols != [] && Split(f, Some(line), |cols|) == Columns(cols)
    ensures ColumnEnd(f, line, false).Some?
    ensures var e := ColumnEnd(f, line, false).value;
            && cols[0] == line[..e]
            && if e == |line| then |cols| == 1
               else |cols| > 1 && Split(f, Some(line[e + 1..]), |cols| - 1) == Columns(cols[1..])
  {
    hide ColumnEnd;
    var e := ColumnEnd(f, line, false).value;
    var rest := Split(f, RestOfLine(line, e), |cols| - 1);
    assert cols == [line[..e]] + rest.cols;
    assert cols[1..] == rest.cols;
  }

  lemma ClosedCons(f: Format, cols: seq<seq<char>>)
    requires |cols| > 1 && EndsAt(f, cols[0], false, |cols[0]|) && ClosedColumns(f, cols[1..])
    ensures ClosedColumns(f, cols)
  {
    hide EndsAt;
    forall k | 0 < k < |cols|
      ensures EndsAt(f, cols[k], false, |cols[k]|)
    {
      assert cols[k] == cols[1..][k - 1];
    }
  }

  lemma ColumnAlone(f: Format, line: seq<char>, e: nat)
    requires f.Valid() && ColumnEnd(f, line, false) == Some(e)
    ensures EndsAt(f, line[..e], false, |line[..e]|)
  {
    ColumnEndIs(f, line, false, e);
    assert forall i :: 0 <= i <= e ==> line[..e][..i] == line[..i];
  }

  lemma ColumnInLine(f: Format, column: seq<char>, u: seq<char>)
    requires f.Valid() && EndsAt(f, column, false, |column|) && Follows(f, u)
    ensures ColumnEnd(f, column + u, false) == Some(|column|)
  {
    var line := column + u;
    assert forall i :: 0 <= i <= |column| ==> line[..i] == column[..i];
    assert EndsAt(f, line, false, |column|);
    ColumnEndIs(f, line, false, |column|);
  }

  lemma {:induction false} RowSplits(f: Format, cols: seq<seq<char>>)
    requires f.Valid() && ClosedColumns(f, cols)
    ensures Split(f, Some(WithSeparators(f, cols)), |cols|) == Columns(cols)
  {
    hide EndsAt, ColumnEnd;
    var line := WithSeparators(f, cols);
    if |cols| == 1 {
      ColumnInLine(f, cols[0], []);
      assert cols[0] + [] == cols[0] == line && cols == [line[..|line|]];
      SplitNone(f);
    } else {
      assert ClosedColumns(f, cols[1..]);
      RowSplits(f, cols[1..]);
      var u := [f.sep] + WithSeparators(f, cols[1..]);
      ColumnInLine(f, cols[0], u);
      assert line == cols[0] + u && line[..|cols[0]|] == cols[0];
      assert line[|cols[0]| + 1..] == WithSeparators(f, cols[1..]);
      assert cols == [cols[0]] + cols[1..];
    }
  }

  // ---- in the buffer -------------------------------------------------------------------

  /** The text from `i` to the next NUL. */
  predicate TextAt(s: seq<char>, i: nat, t: seq<char>) {
    i + |t| < |s| && s[i..i + |t|] == t && s[i + |t|] == NUL && NUL !in t
  }

  ghost predicate Holds(buf: array<char>, begin: nat, t: seq<char>)
    reads buf
  {
    TextAt(buf[..], begin, t)
  }

  lemma Peek(buf: array<char>, begin: nat, t: seq<char>, i: nat)
    requires Holds(buf, begin, t) && begin <= i <= begin + |t|
    ensures i < buf.Length && (if i < begin + |t| then buf[i] == t[i - begin] && buf[i] != NUL else buf[i] == NUL)
  {
    assert i < begin + |t| ==> buf[..][begin..begin + |t|][i - begin] == t[i - begin] && t[i - begin] in t;
  }

  /** The column end as seen from position `k` of the text. */
  function EndFrom(f: Format, t: seq<char>, k: nat, inside: bool): int
    requires k <= |t|
  {
    match ColumnEnd(f, t[k..], inside)
    case None => NOT_CLOSED
    case Some(e) => k + e
  }

  const NOT_CLOSED := -1

  lemma EndFromStep(f: Format, t: seq<char>, k: nat, inside: bool)
    requires k <= |t|
    ensures EndFrom(f, t, k, inside) ==
            if k == |t| then (if inside then NOT_CLOSED else k)
            else if !inside && t[k] == f.sep then k
            else EndFrom(f, t, k + 1, if t[k] == f.quote then !inside else inside)
  {
    if k < |t| {
      assert t[k..][1..] == t[k + 1..];
    }
  }

  /** `find_next_column_end`; not closed where the source throws. */
  method FindNextColumnEnd(f: Format, buf: array<char>, begin: nat, ghost t: seq<char>) returns (closed: bool, col: nat)
    requires f.Valid() && Holds(buf, begin, t)
    ensures closed <==> ColumnEnd(f, t, false).Some?
    ensures closed ==> col == begin + ColumnEnd(f, t, false).value
  {
    col := begin;
    closed := true;
    EndFromStart(f, t);
    hide EndFrom, ColumnEnd, Holds, Format.Valid;
    Peek(buf, begin, t, begin + |t|);
    Peek(buf, begin, t, col);
    while buf[col] != f.sep && buf[col] != NUL
      invariant begin <= col <= begin + |t| && begin + |t| < buf.Length
      invariant buf[col] == if col < begin + |t| then t[col - begin] else NUL
      invariant col < begin + |t| ==> buf[col] != NUL
      invariant EndFrom(f, t, 0, false) == EndFrom(f, t, col - begin, false)
      decreases begin + |t| - col
    {
      if buf[col] != f.quote {
        EndFromStep(f, t, col - begin, false);
        col := col + 1;
      } else {
        closed, col := SkipQuoted(f, buf, begin, col, t);
        if !closed {
          return;
        }
      }
      Peek(buf, begin, t, col);
    }
    EndFromStep(f, t, col - begin, false);
  }

  lemma EndFromStart(f: Format, t: seq<char>)
    ensures ColumnEnd(f, t, false).Some? <==> EndFrom(f, t, 0, false) != NOT_CLOSED
    ensures ColumnEnd(f, t, false).Some? ==> ColumnEnd(f, t, false).value == EndFrom(f, t, 0, false)
  {
    assert t[0..] == t;
  }

  /** Steps over quoted parts until one is not followed by a quote. */
  method SkipQuoted(f: Format, buf: array<char>, begin: nat, start: nat, ghost t: seq<char>)
    returns (closed: bool, col: nat)
    requires f.Valid() && Holds(buf, begin, t) && begin <= start < begin + |t| && t[start - begin] == f.quote
    ensures closed ==> start < col <= begin + |t|
    ensures closed ==> EndFrom(f, t, start - begin, false) == EndFrom(f, t, col - begin, false)
    ensures !closed ==> EndFrom(f, t, start - begin, false) == NOT_CLOSED
  {
    hide EndFrom, ColumnEnd, Later, Holds;
    ghost var goal := EndFrom(f, t, start - begin, false);
    col := start;
    var again := true;
    while again
      invariant start <= col <= begin + |t|
      invariant again ==> col < begin + |t| && t[col - begin] == f.quote
      invariant !again ==> start < col
      invariant goal == EndFrom(f, t, col - begin, false)
      decreases begin + |t| - col, again
    {
      EndFromStep(f, t, col - begin, false);
      closed, col := ScanToQuote(f, buf, begin, col + 1, t);
      if !closed {
        return;
      }
      EndFromStep(f, t, col - begin, true);
      col := col + 1;
      Peek(buf, begin, t, col);
      again := buf[col] == f.quote;
    }
    closed := true;
  }

  method ScanToQuote(f: Format, buf: array<char>, begin: nat, start: nat, ghost t: seq<char>)
    returns (found: bool, col: nat)
    requires f.Valid() && Holds(buf, begin, t) && begin <= start <= begin + |t|
    ensures found ==> start <= col < begin + |t| && t[col - begin] == f.quote
    ensures found ==> EndFrom(f, t, start - begin, true) == EndFrom(f, t, col - begin, true)
    ensures !found ==> EndFrom(f, t, start - begin, true) == NOT_CLOSED
  {
    hide EndFrom, ColumnEnd, Later, Holds;
    col := start;
    Peek(buf, begin, t, begin + |t|);
    while buf[col] != f.quote
      invariant start <= col <= begin + |t| && begin + |t| < buf.Length
      invariant EndFrom(f, t, start - begin, true) == EndFrom(f, t, col - begin, true)
      decreases begin + |t| - col
    {
      Peek(buf, begin, t, col);
      EndFromStep(f, t, col - begin, true);
      if buf[col] == NUL {
        return false, col;
      }
      col := col + 1;
    }
    Peek(buf, begin, t, col);
    found := true;
  }

  /** `trim`, and the NUL behind what is left. */
  method Trim(f: Format, buf: array<char>, begin: nat, end: nat) returns (b: nat, e: nat)
    requires begin <= end < buf.Length
    modifies buf
    ensures begin <= b <= e <= end
    ensures old(buf[b..e]) == TrimBack(f, TrimFront(f, old(buf[begin..end])))
    ensures buf[..] == old(buf[..])[e := NUL]
  {
    b, e := begin, end;
    ghost var s := buf[..];
    ghost var front := TrimFront(f, s[begin..end]);
    while b != e && buf[b] in f.trimmed
      invariant begin <= b <= e == end && buf[..] == s
      invariant TrimFront(f, s[b..e]) == front
      decreases e - b
    {
      assert s[b..e][1..] == s[b + 1..e];
      b := b + 1;
    }
    ghost var back := TrimBack(f, s[b..e]);
    while b != e && buf[e - 1] in f.trimmed
      invariant begin <= b <= e <= end && buf[..] == s
      invariant TrimBack(f, s[b..e]) == back
      decreases e - b
    {
      assert s[b..e][..e - b - 1] == s[b..e - 1];
      e := e - 1;
    }
    buf[e] := NUL;
  }

  lemma UndoubleStep(q: char, s: seq<char>, i: nat, end: nat)
    requires i < end <= |s|
    ensures if s[i] == q && i + 1 < end && s[i + 1] == q
            then Undouble(q, s[i..end]) == [q] + Undouble(q, s[i + 2..end])
            else Undouble(q, s[i..end]) == [s[i]] + Undouble(q, s[i + 1..end])
  {
    assert s[i..end][1..] == s[i + 1..end];
    if i + 1 < end {
      assert s[i..end][2..] == s[i + 2..end];
    }
  }

  /** The decoding loop of `unescape`: writes behind itself, never past what it has read. */
  method UndoubleInPlace(q: char, buf: array<char>, begin: nat, end: nat) returns (out: nat)
    requires begin <= end < buf.Length
    modifies buf
    ensures begin <= out <= end && buf[begin..out] == Undouble(q, old(buf[begin..end]))
    ensures buf[..begin] == old(buf[..begin]) && buf[end..] == old(buf[end..])
  {
    hide Undouble;
    ghost var s := buf[..];
    ghost var goal := Undouble(q, s[begin..end]);
    out := begin;
    var i := begin;
    assert buf[begin..out] + Undouble(q, s[i..end]) == goal;
    while i != end
      invariant begin <= out <= i <= end
      invariant buf[..begin] == s[..begin] && buf[i..] == s[i..]
      invariant buf[begin..out] + Undouble(q, s[i..end]) == goal
      decreases end - i
    {
      SameFrom(buf[..], s, i);
      UndoubleStep(q, s, i, end);
      ghost var before, now := buf[..], i;
      if buf[i] == q && i + 1 != end && buf[i + 1] == q {
        i := i + 1;
      }
      buf[out] := buf[i];
      Wrote(before, buf[..], s, begin, out, now, i);
      out := out + 1;
      i := i + 1;
      Append(before[begin..out - 1], s[i - 1], Undouble(q, s[i..end]));
    }
    UndoubleNothing(q, s[end..end]);
  }

  lemma Append(a: seq<char>, c: char, b: seq<char>)
    ensures a + ([c] + b) == a + [c] + b
  {
  }

  lemma SameFrom(s: seq<char>, t: seq<char>, i: nat)
    requires i < |s| == |t| && s[i..] == t[i..]
    ensures s[i] == t[i] && (i + 1 < |s| ==> s[i + 1] == t[i + 1])
  {
    assert s[i] == s[i..][0] && t[i] == t[i..][0];
    assert i + 1 < |s| ==> s[i + 1] == s[i..][1] && t[i + 1] == t[i..][1];
  }

  lemma UndoubleNothing(q: char, t: seq<char>)
    requires t == []
    ensures Undouble(q, t) == []
  {
  }

  lemma Wrote(before: seq<char>, after: seq<char>, s: seq<char>, begin: nat, out: nat, now: nat, i: nat)
    requires begin <= out <= now <= i < |s| == |before| && before[now..] == s[now..]
    requires after == before[out := before[i]]
    ensures before[i] == s[i]
    ensures after[..begin] == before[..begin] && after[i + 1..] == s[i + 1..]
    ensures after[begin..out + 1] == before[begin..out] + [s[i]]
  {
    assert before[i] == before[now..][i - now] == s[now..][i - now];
    SliceOfSuffix(before, s, now, i + 1, |s|);
    assert after[i + 1..] == before[i + 1..] == before[i + 1..|s|] && s[i + 1..] == s[i + 1..|s|];
  }

  lemma Outside(s: seq<char>, t: seq<char>, begin: nat, end: nat)
    requires begin < end <= |s| == |t| && s[..begin + 1] == t[..begin + 1] && s[end - 1..] == t[end - 1..]
    ensures s[..begin] == t[..begin] && s[end..] == t[end..]
  {
    SliceOfPrefix(s, t, begin + 1, 0, begin);
    SliceOfSuffix(s, t, end - 1, end, |s|);
    assert s[0..begin] == s[..begin] && t[0..begin] == t[..begin] && s[end..|s|] == s[end..] && t[end..|t|] == t[end..];
  }

  /** `unescape`. */
  method UnescapeInPlace(q: char, buf: array<char>, begin: nat, end: nat) returns (b: nat, e: nat)
    requires begin <= end < buf.Length && buf[end] == NUL
    modifies buf
    ensures begin <= b <= e <= end && buf[b..e] == Unescape(q, old(buf[begin..end])) && buf[e] == NUL
    ensures buf[..begin] == old(buf[..begin]) && buf[end..] == old(buf[end..])
  {
    hide Undouble;
    b, e := begin, end;
    if end - begin >= 2 {
      if buf[begin] == q && buf[end - 1] == q {
        ghost var raw := buf[begin..end];
        assert raw[1..|raw| - 1] == buf[begin + 1..end - 1];
        ghost var s := buf[..];
        b, e := begin + 1, end - 1;
        e := UndoubleInPlace(q, buf, b, e);
        ghost var t := buf[..];
        Outside(s, t, begin, end);
        buf[e] := NUL;
        assert buf[b..e] == t[b..e];
        assert buf[..begin] == t[..begin] && buf[end..] == t[end..];
      }
    }
  }

  /** A C string that lies, with its NUL, before `limit`. */
  predicate StringBefore(s: seq<char>, p: nat, x: seq<char>, limit: nat) {
    p + |x| < limit <= |s| && s[p..p + |x|] == x && s[p + |x|] == NUL
  }

  lemma StringStays(s: seq<char>, s': seq<char>, p: nat, x: seq<char>, limit: nat, limit': nat)
    requires StringBefore(s, p, x, limit) && limit <= limit' <= |s| == |s'| && s[..limit] == s'[..limit]
    ensures StringBefore(s', p, x, limit')
  {
    SliceOfPrefix(s, s', limit, p, p + |x|);
    assert s[p + |x|] == s[..limit][p + |x|] && s'[p + |x|] == s'[..limit][p + |x|];
  }

  /** Trims and unescapes a column and returns where it now starts. */
  method DecodeColumn(f: Format, buf: array<char>, begin: nat, end: nat) returns (p: nat)
    requires begin <= end < buf.Length
    modifies buf
    ensures StringBefore(buf[..], p, Decoded(f, old(buf[begin..end])), end + 1)
    ensures buf[..begin] == old(buf[..begin]) && buf[end + 1..] == old(buf[end + 1..])
  {
    hide TrimFront, TrimBack, Unescape;
    ghost var s := buf[..];
    var b, e := Trim(f, buf, begin, end);
    ghost var trimmed, t := s[b..e], buf[..];
    assert t[b..e] == trimmed;
    b, e := UnescapeInPlace(f.quote, buf, b, e);
    p := b;
    assert Unescape(f.quote, trimmed) == Decoded(f, s[begin..end]);
  }

  /** `chop_next_column`: the column's bounds, closed by a NUL, and the rest of the line if there is one. */
  method ChopNextColumn(f: Format, buf: array<char>, line: nat, ghost t: seq<char>)
    returns (ok: bool, begin: nat, end: nat, next: Option<nat>)
    requires f.Valid() && TextAt(buf[..], line, t)
    modifies buf
    ensures ok <==> ColumnEnd(f, t, false).Some?
    ensures ok ==>
              && begin == line && end == line + ColumnEnd(f, t, false).value && end < buf.Length
              && buf[..] == old(buf[..])[end := NUL]
              && next == if ColumnEnd(f, t, false).value == |t| then None else Some(end + 1)
  {
    hide ColumnEnd;
    ghost var s := buf[..];
    begin := line;
    ok, end := FindNextColumnEnd(f, buf, begin, t);
    if !ok {
      return false, begin, begin, None;
    }
    Peek(buf, line, t, end);
    if buf[end] == NUL {
      assert s[end := NUL] == s;
      next := None;
    } else {
      buf[end] := NUL;
      next := Some(end + 1);
    }
  }

  /** The columns already parsed, before those of the rest of the line. */
  function Prepend(cols: seq<seq<char>>, r: Outcome): Outcome {
    if r.Columns? then Columns(cols + r.cols) else r
  }

  /** Where the columns go: column k to entry order[k], or nowhere if that is -1; no entry twice. */
  predicate Ordered(order: seq<int>, n: nat) {
    && (forall k :: 0 <= k < |order| ==> -1 <= order[k] < n)
    && (forall j, k :: 0 <= j < k < |order| && order[j] == order[k] ==> order[j] == -1)
  }

  /** Every wanted column among `cols` is where its entry points, decoded, before `limit`. */
  ghost predicate Delivered(f: Format, s: seq<char>, sorted: seq<nat>, order: seq<int>, cols: seq<seq<char>>,
    limit: nat)
  {
    |cols| <= |order| && Ordered(order, |sorted|) &&
    forall k :: 0 <= k < |cols| && order[k] != -1 ==>
      StringBefore(s, sorted[order[k]], Decoded(f, cols[k]), limit)
  }

  lemma DeliveredStays(f: Format, s: seq<char>, s': seq<char>, sorted: seq<nat>, order: seq<int>, cols: seq<seq<char>>,
                       limit: nat, limit': nat)
    requires Delivered(f, s, sorted, order, cols, limit)
    requires limit <= limit' <= |s| == |s'| && s[..limit] == s'[..limit]
    ensures Delivered(f, s', sorted, order, cols, limit')
  {
    hide StringBefore, Decoded;
    forall k | 0 <= k < |cols| && order[k] != -1
      ensures StringBefore(s', sorted[order[k]], Decoded(f, cols[k]), limit')
    {
      StringStays(s, s', sorted[order[k]], Decoded(f, cols[k]), limit, limit');
    }
  }

  lemma DeliverOne(f: Format, s: seq<char>, sorted: seq<nat>, order: seq<int>, cols: seq<seq<char>>, column: seq<char>,
                   p: nat, limit: nat)
    requires Delivered(f, s, sorted, order, cols, limit) && |cols| < |order|
    requires order[|cols|] != -1 ==> StringBefore(s, p, Decoded(f, column), limit)
    ensures var sorted' := if order[|cols|] == -1 then sorted else sorted[order[|cols|] := p];
            Delivered(f, s, sorted', order, cols + [column], limit)
  {
    hide StringBefore, Decoded;
  }

  /** Decodes a wanted column and stores its entry. */
  method PlaceColumn(f: Format, buf: array<char>, begin: nat, end: nat, sorted: array<nat>, order: seq<int>,
                     k: nat, ghost column: seq<char>, ghost cols: seq<seq<char>>)
    requires begin <= end < buf.Length && buf[begin..end] == column && |cols| == k < |order|
    requires Delivered(f, buf[..], sorted[..], order, cols, begin)
    modifies buf, sorted
    ensures Delivered(f, buf[..], sorted[..], order, cols + [column], end + 1)
    ensures buf[end + 1..] == old(buf[end + 1..])
  {
    assert Ordered(order, sorted.Length);
    hide Delivered, Decoded, StringBefore;
    var i := order[k];
    ghost var s := buf[..];
    if i == -1 {
      DeliveredStays(f, s, buf[..], sorted[..], order, cols, begin, end + 1);
      DeliverOne(f, buf[..], sorted[..], order, cols, column, 0, end + 1);
      return;
    }
    var p := DecodeColumn(f, buf, begin, end);
    DeliveredStays(f, s, buf[..], sorted[..], order, cols, begin, end + 1);
    DeliverOne(f, buf[..], sorted[..], order, cols, column, p, end + 1);
    sorted[i] := p;
  }

  lemma ColumnIsThere(s: seq<char>, chopped: seq<char>, line: nat, t: seq<char>, e: nat)
    requires TextAt(s, line, t) && e <= |t| && chopped == s[line + e := NUL]
    ensures chopped[line..line + e] == t[..e] && chopped[..line] == s[..line]
  {
    SliceSlice(s, line, line + |t|, 0, e);
    assert t[0..e] == t[..e] && chopped[line..line + e] == s[line..line + e];
  }

  lemma RestIsThere(s: seq<char>, chopped: seq<char>, buf: array<char>, line: nat, t: seq<char>, e: nat)
    requires TextAt(s, line, t) && e < |t| && chopped == s[line + e := NUL] && buf.Length == |s|
    requires buf[line + e + 1..] == chopped[line + e + 1..]
    ensures TextAt(buf[..], line + e + 1, t[e + 1..])
  {
    var i, u := line + e + 1, t[e + 1..];
    assert buf[..][i..] == chopped[i..] == s[i..];
    SliceOfSuffix(buf[..], s, i, i, i + |u|);
    SliceSlice(s, line, line + |t|, e + 1, |t|);
    assert t[e + 1..|t|] == u;
    assert buf[..][i + |u|] == buf[..][i..][|u|] == s[i..][|u|];
  }

  /** The column work is where it should be: `cols` delivered, and the rest of the line, if any, still in place. */
  ghost predicate Parsing(f: Format, buf: array<char>, sorted: array<nat>, order: seq<int>, cols: seq<seq<char>>,
                          line: Option<nat>, rest: Option<seq<char>>, stop: nat)
    reads buf, sorted
  {
    && (line.Some? <==> rest.Some?)
    && (line.Some? ==> TextAt(buf[..], line.value, rest.value) && line.value + |rest.value| == stop)
    && Delivered(f, buf[..], sorted[..], order, cols, if line.Some? then line.value else stop + 1)
  }

  lemma ParsingFacts(f: Format, buf: array<char>, sorted: array<nat>, order: seq<int>, cols: seq<seq<char>>,
                     line: Option<nat>, rest: Option<seq<char>>, stop: nat)
    requires Parsing(f, buf, sorted, order, cols, line, rest, stop)
    ensures line.Some? <==> rest.Some?
    ensures line.None? ==> Delivered(f, buf[..], sorted[..], order, cols, stop + 1)
  {
  }

  /** One turn of `parse_line`. */
  method TakeColumn(f: Format, buf: array<char>, line: nat, sorted: array<nat>, order: seq<int>, k: nat,
                    ghost text: seq<char>, ghost cols: seq<seq<char>>, ghost stop: nat)
    returns (ok: bool, next: Option<nat>)
    requires f.Valid() && |cols| == k < |order|
    requires Parsing(f, buf, sorted, order, cols, Some(line), Some(text), stop)
    modifies buf, sorted
    ensures ok <==> ColumnEnd(f, text, false).Some?
    ensures ok ==>
              var e := ColumnEnd(f, text, false).value;
              Parsing(f, buf, sorted, order, cols + [text[..e]], next, RestOfLine(text, e), stop)
  {
    hide Delivered, ColumnEnd, TextAt;
    ghost var before := buf[..];
    var begin, end;
    ok, begin, end, next := ChopNextColumn(f, buf, line, text);
    if ok {
      ghost var e := ColumnEnd(f, text, false).value;
      ghost var column, chopped := text[..e], buf[..];
      ColumnIsThere(before, chopped, line, text, e);
      DeliveredStays(f, before, chopped, sorted[..], order, cols, line, begin);
      PlaceColumn(f, buf, begin, end, sorted, order, k, column, cols);
      if e < |text| {
        RestIsThere(before, chopped, buf, line, text, e);
      }
    }
  }

  /** `parse_line`: the outcome is that of `Split`, and if it is a full row every wanted column is found decoded
      through its entry. */
  method ParseLine(f: Format, buf: array<char>, start: nat, sorted: array<nat>, order: seq<int>, ghost t: seq<char>)
    returns (r: Outcome)
    requires f.Valid() && TextAt(buf[..], start, t) && Ordered(order, sorted.Length)
    modifies buf, sorted
    ensures r.Columns? <==> Split(f, Some(t), |order|).Columns?
    ensures !r.Columns? ==> r == Split(f, Some(t), |order|)
    ensures r.Columns? ==>
              Delivered(f, buf[..], sorted[..], order, Split(f, Some(t), |order|).cols, start + |t| + 1)
  {
    hide Split, Delivered, ColumnEnd, TextAt, Ordered, Prepend, Parsing, RestOfLine, Format.Valid;
    ghost var all, cols := Split(f, Some(t), |order|), [];
    var line: Option<nat> := Some(start);
    ghost var rest: Option<seq<char>> := Some(t);
    ParsingStart(f, buf, sorted, order, start, t);
    PrependNothing(all);
    for k := 0 to |order|
      invariant |cols| == k && all == Prepend(cols, Split(f, rest, |order| - k))
      invariant Parsing(f, buf, sorted, order, cols, line, rest, start + |t|)
    {
      SplitStep(f, rest, |order| - k);
      ParsingFacts(f, buf, sorted, order, cols, line, rest, start + |t|);
      if line.None? {
        PrependKind(cols, TooFew);
        return TooFew;
      }
      var ok, next := TakeColumn(f, buf, line.value, sorted, order, k, rest.value, cols, start + |t|);
      if !ok {
        PrependKind(cols, NotClosed);
        return NotClosed;
      }
      ghost var e := ColumnEnd(f, rest.value, false).value;
      PrependPrepend(cols, rest.value[..e], Split(f, RestOfLine(rest.value, e), |order| - k - 1));
      cols, rest, line := cols + [rest.value[..e]], RestOfLine(rest.value, e), next;
    }
    SplitStep(f, rest, 0);
    ParsingFacts(f, buf, sorted, order, cols, line, rest, start + |t|);
    r := if line.None? then Columns([]) else TooMany;
    PrependKind(cols, r);
  }

  lemma PrependKind(cols: seq<seq<char>>, r: Outcome)
    requires r.Columns? ==> r.cols == []
    ensures Prepend(cols, r) == if r.Columns? then Columns(cols) else r
  {
    assert cols + [] == cols;
  }

  lemma PrependPrepend(cols: seq<seq<char>>, column: seq<char>, r: Outcome)
    ensures Prepend(cols, Prepend([column], r)) == Prepend(cols + [column], r)
  {
    if r.Columns? {
      assert cols + ([column] + r.cols) == cols + [column] + r.cols;
    }
  }

  lemma ParsingStart(f: Format, buf: array<char>, sorted: array<nat>, order: seq<int>, start: nat, t: seq<char>)
    requires TextAt(buf[..], start, t) && Ordered(order, sorted.Length)
    ensures Parsing(f, buf, sorted, order, [], Some(start), Some(t), start + |t|)
  {
  }

  lemma PrependNothing(r: Outcome)
    ensures Prepend([], r) == r
  {
    assert r.Columns? ==> [] + r.cols == r.cols;
  }

  lemma SplitStep(f: Format, line: Option<seq<char>>, n: nat)
    ensures n == 0 ==> Split(f, line, n) == if line.None? then Columns([]) else TooMany
    ensures n > 0 && line.None? ==> Split(f, line, n) == TooFew
    ensures n > 0 && line.Some? ==> var e := ColumnEnd(f, line.value, false);
            Split(f, line, n) ==
            if e.None? then NotClosed
            else Prepend([line.value[..e.value]], Split(f, RestOfLine(line.value, e.value), n - 1))
  {
  }

  /** The round trip: when a line of written fields has been parsed into as many columns, every entry points to its
      field, NUL-terminated. */
  lemma WrittenLineIsReadBack(f: Format, fields: seq<Field>, s: seq<char>, sorted: seq<nat>, order: seq<int>,
    limit: nat)
    requires f.Valid() && fields != [] && (forall i :: 0 <= i < |fields| ==> Writable(f, fields[i]))
    requires |order| == |fields| && limit <= |s|
    requires var r := Split(f, Some(Joined(f, fields)), |order|);
             r.Columns? ==> Delivered(f, s, sorted, order, r.cols, limit)
    ensures Split(f, Some(Joined(f, fields)), |order|).Columns?
    ensures forall k :: 0 <= k < |fields| && order[k] != -1 ==>
              0 <= order[k] < |sorted| && StringBefore(s, sorted[order[k]], fields[k].text, limit)
  {
    hide Split, Joined, Writable, StringBefore, Written, Decoded;
    JoinedSplits(f, fields);
    var cols := Split(f, Some(Joined(f, fields)), |order|).cols;
    forall k | 0 <= k < |fields| && order[k] != -1
      ensures 0 <= order[k] < |sorted| && StringBefore(s, sorted[order[k]], fields[k].text, limit)
    {
      assert Reads(f, cols[k], fields[k]);
    }
  }

  /** A written line holds no NUL, so that it can stand in the buffer as a C string. */
  lemma {:induction false} JoinedHasNoNul(f: Format, fields: seq<Field>)
    requires f.Valid() && fields != [] && (forall i :: 0 <= i < |fields| ==> Writable(f, fields[i]))
    ensures NUL !in Joined(f, fields)
  {
    WrittenHasNoNul(f, fields[0]);
    if |fields| > 1 {
      JoinedHasNoNul(f, fields[1..]);
    }
  }

  lemma WrittenHasNoNul(f: Format, field: Field)
    requires f.Valid() && Writable(f, field)
    ensures NUL !in Written(f, field)
  {
    if field.Quoted? {
      DoubledHasNoNul(f.quote, field.text);
    }
    assert NUL !in Core(f, field);
    hide Core;
  }

  lemma {:induction false} DoubledHasNoNul(q: char, t: seq<char>)
    requires q != NUL && NUL !in t
    ensures NUL !in Doubled(q, t)
  {
    if t != [] {
      DoubledHasNoNul(q, t[1..]);
    }
  }

  /** Parsing a line that holds written fields: it succeeds, and every wanted field stands, decoded and
      NUL-terminated, where its entry points. */
  method ParseWrittenLine(f: Format, buf: array<char>, start: nat, sorted: array<nat>, order: seq<int>,
                          ghost fields: seq<Field>)
    returns (r: Outcome)
    requires f.Valid() && fields != [] && (forall i :: 0 <= i < |fields| ==> Writable(f, fields[i]))
    requires |order| == |fields| && Ordered(order, sorted.Length)
    requires var line := Joined(f, fields);
             start + |line| < buf.Length && buf[start..start + |line|] == line && buf[start + |line|] == NUL
    modifies buf, sorted
    ensures r.Columns?
    ensures forall k :: 0 <= k < |fields| && order[k] != -1 ==>
              0 <= order[k] < sorted.Length && StringBefore(buf[..], sorted[order[k]], fields[k].text, buf.Length)
  {
    hide Joined, Writable, Split, StringBefore, Delivered;
    ghost var line := Joined(f, fields);
    JoinedHasNoNul(f, fields);
    assert TextAt(buf[..], start, line) by {
      assert buf[..][start..start + |line|] == buf[start..start + |line|];
    }
    hide TextAt;
    r := ParseLine(f, buf, start, sorted, order, line);
    if r.Columns? {
      DeliveredStays(f, buf[..], buf[..], sorted[..], order, Split(f, Some(line), |order|).cols, start + |line| + 1,
        buf.Length);
    }
    WrittenLineIsReadBack(f, fields, buf[..], sorted[..], order, buf.Length);
  }
}
