/**
 The language of the two parsers, given by printing concrete syntax (sections 2.2 and 2.3 of RFC 4627, plus
 the optional trailing comma), and the proof that the parsers accept exactly that language and send the
 events of the value that the text denotes.
 */
module JsonGrammar {
  import opened JsonValue
  import opened JsonReader
  import opened Slices

  datatype Syntax =
    | Lit(x: Scalar)
    | Arr(items: seq<Syntax>, trailing: bool)
    | Obj(fields: seq<Field>, trailing: bool)

  datatype Field = Field(name: string, value: Syntax)

  function Print(s: Syntax): (ts: seq<Token>)
    ensures |ts| > 0
  {
    match s
    case Lit(x) => [Good(x)]
    case Arr(items, trailing) => [LeftBracket] + PrintItems(items) + Tail(trailing, RightBracket)
    case Obj(fields, trailing) => [LeftCurly] + PrintFields(fields) + Tail(trailing, RightCurly)
  }

  function Tail(trailing: bool, close: Token): seq<Token> {
    if trailing then [Comma, close] else [close]
  }

  function PrintItems(items: seq<Syntax>): (ts: seq<Token>)
    ensures |items| > 0 ==> |ts| > 0
  {
    if items == [] then []
    else if |items| == 1 then Print(items[0])
    else Print(items[0]) + [Comma] + PrintItems(items[1..])
  }

  function PrintField(f: Field): seq<Token> {
    [Good(Text(f.name)), Colon] + Print(f.value)
  }

  function PrintFields(fields: seq<Field>): (ts: seq<Token>)
    ensures |fields| > 0 ==> |ts| > 0
  {
    if fields == [] then []
    else if |fields| == 1 then PrintField(fields[0])
    else PrintField(fields[0]) + [Comma] + PrintFields(fields[1..])
  }

  /** A trailing comma needs the flag, and something before it. */
  predicate Legal(s: Syntax, commas: bool) {
    match s
    case Lit(_) => true
    case Arr(items, trailing) =>
      (trailing ==> commas && items != []) && forall i :: 0 <= i < |items| ==> Legal(items[i], commas)
    case Obj(fields, trailing) =>
      (trailing ==> commas && fields != []) && forall i :: 0 <= i < |fields| ==> Legal(fields[i].value, commas)
  }

  /** The value that a text denotes. */
  function Denoted(s: Syntax): Value {
    match s
    case Lit(x) => Leaf(x)
    case Arr(items, _) => Array(DenotedItems(items))
    case Obj(fields, _) => Object(DenotedFields(fields))
  }

  function DenotedItems(items: seq<Syntax>): (vs: seq<Value>)
    ensures |vs| == |items|
  {
    if items == [] then [] else [Denoted(items[0])] + DenotedItems(items[1..])
  }

  function DenotedFields(fields: seq<Field>): (ms: seq<Member>)
    ensures |ms| == |fields|
  {
    if fields == [] then [] else [Member(fields[0].name, Denoted(fields[0].value))] + DenotedFields(fields[1..])
  }

  // ---- events from the front -----------------------------------------------------------

  lemma {:induction false} ElementEventsFront(v: Value, es: seq<Value>)
    ensures ElementEvents([v] + es) == Events(v) + ElementEvents(es)
  {
    if es == [] {
      assert ([v] + es)[..0] == [];
    } else {
      assert ([v] + es)[..|es|] == [v] + es[..|es| - 1];
      ElementEventsFront(v, es[..|es| - 1]);
    }
  }

  lemma {:induction false} MemberEventsFront(m: Member, ms: seq<Member>)
    ensures MemberEvents([m] + ms) == [Key(m.name)] + Events(m.value) + MemberEvents(ms)
  {
    if ms == [] {
      assert ([m] + ms)[..0] == [];
    } else {
      assert ([m] + ms)[..|ms|] == [m] + ms[..|ms| - 1];
      MemberEventsFront(m, ms[..|ms| - 1]);
    }
  }

  // ---- stretches of the input ----------------------------------------------------------

  /** The tokens `ts` stand in the text at `pos`. */
  ghost predicate At(p: Parse, pos: nat, ts: seq<Token>) {
    pos + |ts| <= |p.tokens| && p.tokens[pos..pos + |ts|] == ts
  }

  lemma AtSplit(p: Parse, pos: nat, a: seq<Token>, b: seq<Token>)
    ensures At(p, pos, a + b) <==> At(p, pos, a) && At(p, pos + |a|, b)
  {
    if At(p, pos, a + b) {
      SliceSlice(p.tokens, pos, pos + |a + b|, 0, |a|);
      SliceSlice(p.tokens, pos, pos + |a + b|, |a|, |a + b|);
      assert (a + b)[0..|a|] == a && (a + b)[|a|..|a + b|] == b;
    }
  }

  lemma AtOne(p: Parse, pos: nat, t: Token)
    ensures At(p, pos, [t]) <==> p.Sees(pos, t)
  {
  }

  /** The handler never stops the parse. */
  ghost predicate Willing(p: Parse) {
    forall log :: p.accepts(log)
  }

  /** What follows the items or fields of a container. */
  lemma TailAt(p: Parse, pos: nat, trailing: bool, close: Token)
    requires close != Comma
    ensures At(p, pos, Tail(trailing, close)) <==>
            if trailing then p.Sees(pos, Comma) && p.Sees(pos + 1, close) else p.Sees(pos, close)
  {
    hide At;
    if trailing {
      assert [Comma] + [close] == Tail(trailing, close);
      AtSplit(p, pos, [Comma], [close]);
      AtOne(p, pos, Comma);
      AtOne(p, pos + 1, close);
    } else {
      AtOne(p, pos, close);
    }
  }

  lemma NothingPrinted()
    ensures PrintItems([]) == [] && PrintFields([]) == []
    ensures DenotedItems([]) == [] && DenotedFields([]) == []
    ensures ElementEvents([]) == [] && MemberEvents([]) == []
  {
  }

  /** The printed form of a container, cut at its brackets. */
  lemma ArrayAt(p: Parse, pos: nat, items: seq<Syntax>, trailing: bool)
    ensures At(p, pos, Print(Arr(items, trailing))) <==>
      p.Sees(pos, LeftBracket) && At(p, pos + 1, PrintItems(items)) &&
      At(p, pos + 1 + |PrintItems(items)|, Tail(trailing, RightBracket))
  {
    AtSplit(p, pos, [LeftBracket] + PrintItems(items), Tail(trailing, RightBracket));
    AtSplit(p, pos, [LeftBracket], PrintItems(items));
    AtOne(p, pos, LeftBracket);
  }

  lemma ObjectAt(p: Parse, pos: nat, fields: seq<Field>, trailing: bool)
    ensures At(p, pos, Print(Obj(fields, trailing))) <==>
      p.Sees(pos, LeftCurly) && At(p, pos + 1, PrintFields(fields)) &&
      At(p, pos + 1 + |PrintFields(fields)|, Tail(trailing, RightCurly))
  {
    AtSplit(p, pos, [LeftCurly] + PrintFields(fields), Tail(trailing, RightCurly));
    AtSplit(p, pos, [LeftCurly], PrintFields(fields));
    AtOne(p, pos, LeftCurly);
  }

  lemma FieldAt(p: Parse, pos: nat, f: Field)
    ensures |PrintField(f)| == 2 + |Print(f.value)|
    ensures At(p, pos, PrintField(f)) <==>
      p.Sees(pos, Good(Text(f.name))) && p.Sees(pos + 1, Colon) && At(p, pos + 2, Print(f.value))
  {
    AtSplit(p, pos, [Good(Text(f.name)), Colon], Print(f.value));
    AtSplit(p, pos, [Good(Text(f.name))], [Colon]);
    assert [Good(Text(f.name))] + [Colon] == [Good(Text(f.name)), Colon];
  }

  lemma CommaAt(p: Parse, pos: nat, a: seq<Token>, b: seq<Token>)
    ensures |a + [Comma] + b| == |a| + 1 + |b|
    ensures At(p, pos, a + [Comma] + b) <==>
      At(p, pos, a) && p.Sees(pos + |a|, Comma) && At(p, pos + |a| + 1, b)
  {
    hide At;
    AtSplit(p, pos, a + [Comma], b);
    AtSplit(p, pos, a, [Comma]);
    AtOne(p, pos + |a|, Comma);
  }

  /** The printed form of a list, cut after its first entry. */
  lemma ItemsAt(p: Parse, pos: nat, first: Syntax, rest: seq<Syntax>)
    requires rest != []
    ensures |PrintItems([first] + rest)| == |Print(first)| + 1 + |PrintItems(rest)|
    ensures At(p, pos, PrintItems([first] + rest)) <==>
      At(p, pos, Print(first)) && p.Sees(pos + |Print(first)|, Comma)
        && At(p, pos + |Print(first)| + 1, PrintItems(rest))
  {
    hide At, Print;
    assert ([first] + rest)[1..] == rest;
    CommaAt(p, pos, Print(first), PrintItems(rest));
  }

  lemma FieldsAt(p: Parse, pos: nat, first: Field, rest: seq<Field>)
    requires rest != []
    ensures |PrintFields([first] + rest)| == |PrintField(first)| + 1 + |PrintFields(rest)|
    ensures At(p, pos, PrintFields([first] + rest)) <==>
      At(p, pos, PrintField(first)) && p.Sees(pos + |PrintField(first)|, Comma) &&
      At(p, pos + |PrintField(first)| + 1, PrintFields(rest))
  {
    hide At, PrintField;
    assert ([first] + rest)[1..] == rest;
    CommaAt(p, pos, PrintField(first), PrintFields(rest));
  }

  lemma ItemsDoNotClose(p: Parse, items: seq<Syntax>, pos: nat)
    requires items != [] && At(p, pos, PrintItems(items))
    ensures !p.Sees(pos, RightBracket)
  {
    assert p.tokens[pos..pos + |PrintItems(items)|][0] == PrintItems(items)[0] == Print(items[0])[0];
  }

  lemma FieldsDoNotClose(p: Parse, fields: seq<Field>, pos: nat)
    requires fields != [] && At(p, pos, PrintFields(fields))
    ensures !p.Sees(pos, RightCurly)
  {
    assert p.tokens[pos..pos + |PrintFields(fields)|][0] == PrintFields(fields)[0] == PrintField(fields[0])[0];
  }

  /** The log after a container: start event, contents, end event. */
  lemma ContainerLog(log: seq<Event>, open: Event, inner: seq<Event>, close: Event)
    ensures log + [open] + (inner + [close]) == log + ([open] + inner + [close])
  {
  }

  lemma ElementLog(log: seq<Event>, v: Value, vs: seq<Value>, close: Event)
    ensures log + Events(v) + (ElementEvents(vs) + [close]) == log + (ElementEvents([v] + vs) + [close])
  {
    ElementEventsFront(v, vs);
    assert log + Events(v) + (ElementEvents(vs) + [close]) == log + (Events(v) + ElementEvents(vs) + [close]);
  }

  lemma MemberLog(log: seq<Event>, m: Member, ms: seq<Member>, close: Event)
    ensures log + [Key(m.name)] + Events(m.value) + (MemberEvents(ms) + [close])
      == log + (MemberEvents([m] + ms) + [close])
  {
    MemberEventsFront(m, ms);
    assert log + [Key(m.name)] + Events(m.value) + (MemberEvents(ms) + [close])
      == log + ([Key(m.name)] + Events(m.value) + MemberEvents(ms) + [close]);
  }

  // ---- completeness: printed syntax is accepted ----------------------------------------

  lemma {:induction false} PrintedValueRead(p: Parse, s: Syntax, pos: nat, log: seq<Event>)
    requires Willing(p) && Legal(s, p.trailingCommas) && At(p, pos, Print(s))
    ensures ReadValue(p, pos, log) == Outcome(true, pos + |Print(s)|, log + Events(Denoted(s)))
    decreases s, 1
  {
    hide At, PrintItems, PrintFields, ReadElements, ReadMembers, Tail, ElementEvents, MemberEvents, DenotedItems,
      DenotedFields;
    NothingPrinted();
    match s
    case Lit(x) =>
      AtOne(p, pos, Good(x));
    case Arr(items, trailing) =>
      ArrayAt(p, pos, items, trailing);
      TailAt(p, pos + 1 + |PrintItems(items)|, trailing, RightBracket);
      ContainerLog(log, StartArray, ElementEvents(DenotedItems(items)), EndArray(|items|));
      if items == [] {
        TailLength(trailing, RightBracket);
      } else {
        ItemsDoNotClose(p, items, pos + 1);
        PrintedItemsRead(p, items, trailing, pos + 1, log + [StartArray], 0);
      }
    case Obj(fields, trailing) =>
      ObjectAt(p, pos, fields, trailing);
      TailAt(p, pos + 1 + |PrintFields(fields)|, trailing, RightCurly);
      ContainerLog(log, StartObject, MemberEvents(DenotedFields(fields)), EndObject(|fields|));
      if fields == [] {
        TailLength(trailing, RightCurly);
      } else {
        FieldsDoNotClose(p, fields, pos + 1);
        PrintedFieldsRead(p, fields, trailing, pos + 1, log + [StartObject], 0);
      }
  }

  lemma TailLength(trailing: bool, close: Token)
    ensures |Tail(trailing, close)| == if trailing then 2 else 1
  {
  }

  lemma {:induction false} PrintedItemsRead(p: Parse, items: seq<Syntax>, trailing: bool, pos: nat, log: seq<Event>,
    count: nat)
    requires Willing(p) && items != [] && (trailing ==> p.trailingCommas)
    requires forall i :: 0 <= i < |items| ==> Legal(items[i], p.trailingCommas)
    requires At(p, pos, PrintItems(items)) && At(p, pos + |PrintItems(items)|, Tail(trailing, RightBracket))
    ensures ReadElements(p, pos, log, count) ==
            Outcome(true, pos + |PrintItems(items)| + |Tail(trailing, RightBracket)|,
                    log + (ElementEvents(DenotedItems(items)) + [EndArray(count + |items|)]))
    decreases items, 0
  {
    hide At, Print, Events, Denoted, ElementEvents, ReadValue, Tail;
    var first, rest := items[0], items[1..];
    assert [first] + rest == items;
    ElementLog(log, Denoted(first), DenotedItems(rest), EndArray(count + |items|));
    TailAt(p, pos + |PrintItems(items)|, trailing, RightBracket);
    TailLength(trailing, RightBracket);
    if rest == [] {
      NothingPrinted();
      PrintedValueRead(p, first, pos, log);
      assert [] + [EndArray(count + 1)] == [EndArray(count + 1)];
    } else {
      ItemsAt(p, pos, first, rest);
      PrintedValueRead(p, first, pos, log);
      ItemsDoNotClose(p, rest, pos + |Print(first)| + 1);
      PrintedItemsRead(p, rest, trailing, pos + |Print(first)| + 1, log + Events(Denoted(first)), count + 1);
    }
  }

  lemma ReadOneField(p: Parse, pos: nat, name: string, log: seq<Event>, count: nat)
    requires Willing(p) && p.Sees(pos, Good(Text(name))) && p.Sees(pos + 1, Colon)
    requires ReadValue(p, pos + 2, log + [Key(name)]).ok
    ensures var v := ReadValue(p, pos + 2, log + [Key(name)]);
            ReadMembers(p, pos, log, count) == NextMember(p, v.pos, v.log, count + 1)
  {
    hide ReadValue, NextMember;
    assert p.accepts(log + [Key(name)]);
  }

  lemma {:induction false} PrintedFieldsRead(p: Parse, fields: seq<Field>, trailing: bool, pos: nat, log: seq<Event>,
    count: nat)
    requires Willing(p) && fields != [] && (trailing ==> p.trailingCommas)
    requires forall i :: 0 <= i < |fields| ==> Legal(fields[i].value, p.trailingCommas)
    requires At(p, pos, PrintFields(fields)) && At(p, pos + |PrintFields(fields)|, Tail(trailing, RightCurly))
    ensures ReadMembers(p, pos, log, count) ==
            Outcome(true, pos + |PrintFields(fields)| + |Tail(trailing, RightCurly)|,
                    log + (MemberEvents(DenotedFields(fields)) + [EndObject(count + |fields|)]))
    decreases fields, 0
  {
    hide At, Print, PrintField, Events, Denoted, MemberEvents, ReadValue, ReadMembers, Tail;
    var first, rest := fields[0], fields[1..];
    assert [first] + rest == fields;
    assert DenotedFields(fields) == [Member(first.name, Denoted(first.value))] + DenotedFields(rest);
    assert rest == [] ==> DenotedFields(rest) == [] && PrintFields(fields) == PrintField(first);
    hide DenotedFields, PrintFields;
    MemberLog(log, Member(first.name, Denoted(first.value)), DenotedFields(rest), EndObject(count + |fields|));
    TailAt(p, pos + |PrintFields(fields)|, trailing, RightCurly);
    TailLength(trailing, RightCurly);
    if rest == [] {
      NothingPrinted();
      PrintedFieldRead(p, first, pos, log);
      ReadOneField(p, pos, first.name, log, count);
      assert [] + [EndObject(count + 1)] == [EndObject(count + 1)];
    } else {
      FieldsAt(p, pos, first, rest);
      PrintedFieldRead(p, first, pos, log);
      ReadOneField(p, pos, first.name, log, count);
      FieldsDoNotClose(p, rest, pos + |PrintField(first)| + 1);
      PrintedFieldsRead(p, rest, trailing, pos + |PrintField(first)| + 1,
                        log + [Key(first.name)] + Events(Denoted(first.value)), count + 1);
    }
  }

  lemma {:induction false} PrintedFieldRead(p: Parse, f: Field, pos: nat, log: seq<Event>)
    requires Willing(p) && Legal(f.value, p.trailingCommas) && At(p, pos, PrintField(f))
    ensures p.Sees(pos, Good(Text(f.name))) && p.Sees(pos + 1, Colon)
    ensures ReadValue(p, pos + 2, log + [Key(f.name)]) ==
            Outcome(true, pos + |PrintField(f)|, log + [Key(f.name)] + Events(Denoted(f.value)))
    decreases f
  {
    hide At, Print, Events, Denoted, ReadValue;
    FieldAt(p, pos, f);
    PrintedValueRead(p, f.value, pos + 2, log + [Key(f.name)]);
  }

  // ---- soundness: what is accepted is printed syntax -----------------------------------

  lemma {:induction false} ReadValueIsPrinted(p: Parse, pos: nat, log: seq<Event>) returns (s: Syntax)
    requires ReadValue(p, pos, log).ok
    ensures Legal(s, p.trailingCommas) && At(p, pos, Print(s))
    ensures ReadValue(p, pos, log).pos == pos + |Print(s)|
    ensures ReadValue(p, pos, log).log == log + Events(Denoted(s))
    decreases |p.tokens| - pos, 1
  {
    hide At, PrintItems, PrintFields, ReadElements, ReadMembers, Tail, ElementEvents, MemberEvents, DenotedItems,
      DenotedFields;
    NothingPrinted();
    match p.tokens[pos]
    case Good(x) =>
      s := Lit(x);
      AtOne(p, pos, Good(x));
    case LeftBracket =>
      var items, trailing := [], false;
      if !p.Sees(pos + 1, RightBracket) {
        items, trailing := ReadElementsIsPrinted(p, pos + 1, log + [StartArray], 0);
      } else {
        EmptyAt(p, pos + 1);
      }
      s := Arr(items, trailing);
      ArrayAt(p, pos, items, trailing);
      TailAt(p, pos + 1 + |PrintItems(items)|, trailing, RightBracket);
      TailLength(trailing, RightBracket);
      ContainerLog(log, StartArray, ElementEvents(DenotedItems(items)), EndArray(|items|));
    case LeftCurly =>
      var fields, trailing := [], false;
      if !p.Sees(pos + 1, RightCurly) {
        fields, trailing := ReadMembersIsPrinted(p, pos + 1, log + [StartObject], 0);
      } else {
        EmptyAt(p, pos + 1);
      }
      s := Obj(fields, trailing);
      ObjectAt(p, pos, fields, trailing);
      TailAt(p, pos + 1 + |PrintFields(fields)|, trailing, RightCurly);
      TailLength(trailing, RightCurly);
      ContainerLog(log, StartObject, MemberEvents(DenotedFields(fields)), EndObject(|fields|));
  }

  lemma EmptyAt(p: Parse, pos: nat)
    ensures pos <= |p.tokens| ==> At(p, pos, [])
  {
  }

  lemma {:induction false} ReadElementsIsPrinted(p: Parse, pos: nat, log: seq<Event>, count: nat)
    returns (items: seq<Syntax>, trailing: bool)
    requires ReadElements(p, pos, log, count).ok
    ensures items != [] && (trailing ==> p.trailingCommas)
    ensures forall i :: 0 <= i < |items| ==> Legal(items[i], p.trailingCommas)
    ensures At(p, pos, PrintItems(items)) && At(p, pos + |PrintItems(items)|, Tail(trailing, RightBracket))
    ensures ReadElements(p, pos, log, count).pos == pos + |PrintItems(items)| + |Tail(trailing, RightBracket)|
    ensures ReadElements(p, pos, log, count).log ==
      log + (ElementEvents(DenotedItems(items)) + [EndArray(count + |items|)])
    decreases |p.tokens| - pos, 2
  {
    hide At, Print, Events, Denoted, ElementEvents, ReadValue, Tail, Legal;
    var first := ReadValueIsPrinted(p, pos, log);
    var v := ReadValue(p, pos, log);
    if p.Sees(v.pos, Comma) && !(p.trailingCommas && p.Sees(v.pos + 1, RightBracket)) {
      var rest;
      rest, trailing := ReadElementsIsPrinted(p, v.pos + 1, v.log, count + 1);
      items := [first] + rest;
      assert items[1..] == rest;
      ItemsAt(p, pos, first, rest);
      ElementLog(log, Denoted(first), DenotedItems(rest), EndArray(count + |items|));
    } else {
      items, trailing := [first], p.Sees(v.pos, Comma);
      NothingPrinted();
      TailAt(p, v.pos, trailing, RightBracket);
      TailLength(trailing, RightBracket);
      assert [] + [EndArray(count + 1)] == [EndArray(count + 1)] && items[1..] == [];
      ElementLog(log, Denoted(first), [], EndArray(count + 1));
    }
  }

  lemma {:induction false} ReadMembersIsPrinted(p: Parse, pos: nat, log: seq<Event>, count: nat)
    returns (fields: seq<Field>, trailing: bool)
    requires ReadMembers(p, pos, log, count).ok
    ensures fields != [] && (trailing ==> p.trailingCommas)
    ensures forall i :: 0 <= i < |fields| ==> Legal(fields[i].value, p.trailingCommas)
    ensures At(p, pos, PrintFields(fields)) && At(p, pos + |PrintFields(fields)|, Tail(trailing, RightCurly))
    ensures ReadMembers(p, pos, log, count).pos == pos + |PrintFields(fields)| + |Tail(trailing, RightCurly)|
    ensures ReadMembers(p, pos, log, count).log ==
      log + (MemberEvents(DenotedFields(fields)) + [EndObject(count + |fields|)])
    decreases |p.tokens| - pos, 2
  {
    hide At, Print, PrintField, Events, Denoted, MemberEvents, ReadValue, Tail, Legal, ReadElements;
    var name := p.tokens[pos].x.s;
    var value := ReadValueIsPrinted(p, pos + 2, log + [Key(name)]);
    var v := ReadValue(p, pos + 2, log + [Key(name)]);
    var first, m := Field(name, value), Member(name, Denoted(value));
    FieldAt(p, pos, first);
    if p.Sees(v.pos, Comma) && !(p.trailingCommas && p.Sees(v.pos + 1, RightCurly)) {
      var rest;
      rest, trailing := ReadMembersIsPrinted(p, v.pos + 1, v.log, count + 1);
      fields := [first] + rest;
      assert fields[1..] == rest;
      FieldsAt(p, pos, first, rest);
      MemberLog(log, m, DenotedFields(rest), EndObject(count + |fields|));
    } else {
      fields, trailing := [first], p.Sees(v.pos, Comma);
      NothingPrinted();
      TailAt(p, v.pos, trailing, RightCurly);
      TailLength(trailing, RightCurly);
      assert [] + [EndObject(count + 1)] == [EndObject(count + 1)] && fields[1..] == [];
      MemberLog(log, m, [], EndObject(count + 1));
    }
  }

  // ---- the language of both parsers ----------------------------------------------------

  /** A printed text is accepted, and its events are those of the value it denotes. */
  lemma TextIsAccepted(p: Parse, s: Syntax)
    requires Willing(p) && Legal(s, p.trailingCommas) && Print(s) == p.tokens
    ensures ReadText(p) == Outcome(true, |p.tokens|, Events(Denoted(s)))
    ensures Iterate(p, Machine(Start, 0, [], [])) == ReadText(p)
  {
    assert p.tokens[0..0 + |Print(s)|] == Print(s);
    PrintedValueRead(p, s, 0, []);
    assert [] + Events(Denoted(s)) == Events(Denoted(s));
    ParsersAgree(p);
  }

  /** Whatever the handler, an accepted text is a printed one. */
  lemma AcceptedTextIsPrinted(p: Parse) returns (s: Syntax)
    requires ReadText(p).ok && !p.stopWhenDone
    ensures Legal(s, p.trailingCommas) && Print(s) == p.tokens && ReadText(p).log == Events(Denoted(s))
    ensures Iterate(p, Machine(Start, 0, [], [])) == ReadText(p)
  {
    s := ReadValueIsPrinted(p, 0, []);
    assert p.tokens[0..|p.tokens|] == p.tokens;
    assert [] + Events(Denoted(s)) == Events(Denoted(s));
    ParsersAgree(p);
  }
}
