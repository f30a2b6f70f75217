/**
 The DOM side of the JSON library: `Accept`, the document's event handlers, which rebuild a value on a
 stack, and what that says about parsing a text into a document.
 */
module JsonDocument {
  import opened JsonValue
  import opened JsonReader
  import opened JsonGrammar
  import opened Wrappers

  // ---- the handlers as a stack machine -------------------------------------------------

  /** The member list that the top of the stack encodes: name, value, name, value, ... */
  function PairUp(vs: seq<Value>): Option<seq<Member>> {
    if vs == [] then Some([])
    else if |vs| == 1 then None
    else
      match PairUp(vs[..|vs| - 2])
      case None => None
      case Some(ms) =>
        var name := vs[|vs| - 2];
        if name.Leaf? && name.x.Text? then Some(ms + [Member(name.x.s, vs[|vs| - 1])]) else None
  }

  /** What one event does to the stack; `None` where the source would leave it undefined. */
  function Handled(stack: seq<Value>, e: Event): Option<seq<Value>> {
    match e
    case Plain(x) => Some(stack + [Leaf(x)])
    case Key(name) => Some(stack + [Leaf(Text(name))])
    case StartObject => Some(stack + [Object([])])
    case StartArray => Some(stack + [Array([])])
    case EndObject(n) =>
      if |stack| < 2 * n + 1 then None
      else
        var base := |stack| - 2 * n;
        (match PairUp(stack[base..])
         case None => None
         case Some(ms) => Some(stack[..base - 1] + [Object(ms)]))
    case EndArray(n) =>
      if |stack| < n + 1 then None
      else
        var base := |stack| - n;
        Some(stack[..base - 1] + [Array(stack[base..])])
  }

  function Fed(stack: seq<Value>, es: seq<Event>): Option<seq<Value>>
    decreases |es|
  {
    if es == [] then Some(stack)
    else
      match Handled(stack, es[0])
      case None => None
      case Some(next) => Fed(next, es[1..])
  }

  lemma {:induction false} FedConcat(stack: seq<Value>, a: seq<Event>, b: seq<Event>)
    requires Fed(stack, a).Some?
    ensures Fed(stack, a + b) == Fed(Fed(stack, a).value, b)
    decreases |a|
  {
    if a == [] {
      assert a + b == b;
    } else {
      assert (a + b)[1..] == a[1..] + b;
      FedConcat(Handled(stack, a[0]).value, a[1..], b);
    }
  }

  lemma FedOne(stack: seq<Value>, e: Event)
    ensures Fed(stack, [e]) == Handled(stack, e)
  {
    if Handled(stack, e).Some? {
      assert Fed(Handled(stack, e).value, [e][1..]) == Handled(stack, e);
    }
  }

  /** The stack segment of a member list. */
  function Flat(ms: seq<Member>): (vs: seq<Value>)
    ensures |vs| == 2 * |ms|
  {
    if ms == [] then []
    else Flat(ms[..|ms| - 1]) + [Leaf(Text(ms[|ms| - 1].name)), ms[|ms| - 1].value]
  }

  lemma {:induction false} PairUpFlat(ms: seq<Member>)
    ensures PairUp(Flat(ms)) == Some(ms)
  {
    if ms != [] {
      var vs := Flat(ms);
      assert vs[..|vs| - 2] == Flat(ms[..|ms| - 1]);
      PairUpFlat(ms[..|ms| - 1]);
      assert vs[|vs| - 2] == Leaf(Text(ms[|ms| - 1].name)) && vs[|vs| - 1] == ms[|ms| - 1].value;
      assert ms[..|ms| - 1] + [Member(ms[|ms| - 1].name, ms[|ms| - 1].value)] == ms;
    }
  }

  lemma EndArrayBuilds(stack: seq<Value>, es: seq<Value>)
    ensures Handled(stack + [Array([])] + es, EndArray(|es|)) == Some(stack + [Array(es)])
  {
    var s := stack + [Array([])] + es;
    assert s[|s| - |es|..] == es && s[..|s| - |es| - 1] == stack;
  }

  lemma EndObjectBuilds(stack: seq<Value>, ms: seq<Member>)
    ensures Handled(stack + [Object([])] + Flat(ms), EndObject(|ms|)) == Some(stack + [Object(ms)])
  {
    hide PairUp, Flat;
    var s := stack + [Object([])] + Flat(ms);
    assert s[|s| - 2 * |ms|..] == Flat(ms) && s[..|s| - 2 * |ms| - 1] == stack;
    PairUpFlat(ms);
  }

  /** Feeding the events of a value pushes exactly that value, whatever the stack below. */
  lemma {:induction false} EventsRebuild(stack: seq<Value>, v: Value)
    ensures Fed(stack, Events(v)) == Some(stack + [v])
    decreases v, 1
  {
    match v
    case Leaf(x) =>
      FedOne(stack, Plain(x));
    case Array(es) =>
      FedOne(stack, StartArray);
      ElementsRebuild(stack + [Array([])], es);
      FedConcat(stack, [StartArray], ElementEvents(es));
      FedConcat(stack, [StartArray] + ElementEvents(es), [EndArray(|es|)]);
      EndArrayBuilds(stack, es);
      FedOne(stack + [Array([])] + es, EndArray(|es|));
    case Object(ms) =>
      FedOne(stack, StartObject);
      MembersRebuild(stack + [Object([])], ms);
      FedConcat(stack, [StartObject], MemberEvents(ms));
      FedConcat(stack, [StartObject] + MemberEvents(ms), [EndObject(|ms|)]);
      EndObjectBuilds(stack, ms);
      FedOne(stack + [Object([])] + Flat(ms), EndObject(|ms|));
  }

  lemma {:induction false} ElementsRebuild(stack: seq<Value>, es: seq<Value>)
    ensures Fed(stack, ElementEvents(es)) == Some(stack + es)
    decreases es, 0
  {
    if es == [] {
      assert stack + es == stack;
    } else {
      var init, last := es[..|es| - 1], es[|es| - 1];
      ElementsRebuild(stack, init);
      EventsRebuild(stack + init, last);
      FedConcat(stack, ElementEvents(init), Events(last));
      assert stack + init + [last] == stack + es;
    }
  }

  lemma {:induction false} MembersRebuild(stack: seq<Value>, ms: seq<Member>)
    ensures Fed(stack, MemberEvents(ms)) == Some(stack + Flat(ms))
    decreases ms, 0
  {
    if ms == [] {
      assert stack + Flat(ms) == stack;
    } else {
      var init, last := ms[..|ms| - 1], ms[|ms| - 1];
      MembersRebuild(stack, init);
      var named := stack + Flat(init) + [Leaf(Text(last.name))];
      FedConcat(stack, MemberEvents(init), [Key(last.name)]);
      FedOne(stack + Flat(init), Key(last.name));
      EventsRebuild(named, last.value);
      FedConcat(stack, MemberEvents(init) + [Key(last.name)], Events(last.value));
      assert named + [last.value] == stack + Flat(ms);
    }
  }

  // ---- consequences for whole texts ----------------------------------------------------

  /** Different values have different events. */
  lemma EventsDetermineValue(v: Value, w: Value)
    requires Events(v) == Events(w)
    ensures v == w
  {
    EventsRebuild([], v);
    EventsRebuild([], w);
    assert ([] + [v])[0] == v && ([] + [w])[0] == w;
  }

  /** A text has one meaning, trailing commas or not. */
  lemma TextIsUnambiguous(s: Syntax, t: Syntax)
    requires Legal(s, true) && Legal(t, true) && Print(s) == Print(t)
    ensures Denoted(s) == Denoted(t)
  {
    var p := Parse(Print(s), true, false, _ => true);
    TextIsAccepted(p, s);
    TextIsAccepted(p, t);
    EventsDetermineValue(Denoted(s), Denoted(t));
  }

  /** Either parser followed by the handlers: parsing succeeds exactly on printed texts, and then the
      document stack holds one root, the value that the text denotes. */
  lemma DocumentOfText(p: Parse)
    requires Willing(p) && !p.stopWhenDone
    ensures ReadText(p).ok <==> exists s :: Legal(s, p.trailingCommas) && Print(s) == p.tokens
    ensures forall s :: Legal(s, p.trailingCommas) && Print(s) == p.tokens ==>
      Fed([], ReadText(p).log) == Some([Denoted(s)])
    ensures Iterate(p, Machine(Start, 0, [], [])).Same(ReadText(p))
  {
    ParsersAgree(p);
    if ReadText(p).ok {
      var s := AcceptedTextIsPrinted(p);
    }
    forall s | Legal(s, p.trailingCommas) && Print(s) == p.tokens
      ensures ReadText(p).ok && Fed([], ReadText(p).log) == Some([Denoted(s)])
    {
      TextIsAccepted(p, s);
      EventsRebuild([], Denoted(s));
      assert [] + [Denoted(s)] == [Denoted(s)];
    }
  }

  // ---- the document object -------------------------------------------------------------

  /** The document as an event handler.  `Accept` with it as the handler is a deep copy. */
  class Document {
    var stack: seq<Value>

    constructor ()
      ensures stack == []
    {
      stack := [];
    }

    method Scalar(x: Scalar)
      modifies this
      ensures Some(stack) == Handled(old(stack), Plain(x))
    {
      stack := stack + [Leaf(x)];
    }

    method Key(name: string)
      modifies this
      ensures Some(stack) == Handled(old(stack), Event.Key(name))
    {
      Scalar(Text(name));
    }

    method StartObject()
      modifies this
      ensures Some(stack) == Handled(old(stack), Event.StartObject)
    {
      stack := stack + [Object([])];
    }

    method EndObject(memberCount: nat)
      requires Handled(stack, Event.EndObject(memberCount)).Some?
      modifies this
      ensures Some(stack) == Handled(old(stack), Event.EndObject(memberCount))
    {
      var base := |stack| - 2 * memberCount;
      var members := PairUp(stack[base..]);
      stack := stack[..base - 1] + [Object(members.value)];
    }

    method StartArray()
      modifies this
      ensures Some(stack) == Handled(old(stack), Event.StartArray)
    {
      stack := stack + [Array([])];
    }

    method EndArray(elementCount: nat)
      requires Handled(stack, Event.EndArray(elementCount)).Some?
      modifies this
      ensures Some(stack) == Handled(old(stack), Event.EndArray(elementCount))
    {
      var base := |stack| - elementCount;
      stack := stack[..base - 1] + [Array(stack[base..])];
    }

    /** `Accept`: sends the events of `v` to this document. */
    method Accept(v: Value)
      modifies this
      ensures stack == old(stack) + [v]
      decreases v
    {
      match v
      case Leaf(x) =>
        Scalar(x);
      case Object(ms) =>
        StartObject();
        var i := 0;
        while i < |ms|
          invariant 0 <= i <= |ms|
          invariant stack == old(stack) + [Object([])] + Flat(ms[..i])
        {
          Key(ms[i].name);
          Accept(ms[i].value);
          assert ms[..i + 1][..i] == ms[..i];
          i := i + 1;
        }
        assert ms[..i] == ms;
        EndObjectBuilds(old(stack), ms);
        EndObject(|ms|);
      case Array(es) =>
        StartArray();
        var i := 0;
        while i < |es|
          invariant 0 <= i <= |es|
          invariant stack == old(stack) + [Array([])] + es[..i]
        {
          Accept(es[i]);
          i := i + 1;
        }
        assert es[..i] == es;
        EndArrayBuilds(old(stack), es);
        EndArray(|es|);
    }
  }
}
