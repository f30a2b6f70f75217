/**
 The two parsers of one language: the recursive-descent `ParseValue`/`ParseObject`/`ParseArray` and the
 table-driven `Predict`/`Transit`/`IterativeParse`.  White space, comments and the text of leaves are
 already tokens here; a leaf whose text would not parse is a `Malformed` token.
 */
module JsonReader {
  import opened JsonValue

  datatype TokenKind =
    | LeftBracketToken | RightBracketToken | LeftCurlyBracketToken | RightCurlyBracketToken
    | CommaToken | ColonToken | StringToken | FalseToken | TrueToken | NullToken | NumberToken

  datatype Token =
    | LeftBracket | RightBracket | LeftCurly | RightCurly | Comma | Colon
    | Good(x: Scalar)
    | Malformed(kind: TokenKind)

  /** `Tokenize`: which column of the prediction table a token selects. */
  function Tokenize(t: Token): TokenKind {
    match t
    case LeftBracket => LeftBracketToken
    case RightBracket => RightBracketToken
    case LeftCurly => LeftCurlyBracketToken
    case RightCurly => RightCurlyBracketToken
    case Comma => CommaToken
    case Colon => ColonToken
    case Good(Null) => NullToken
    case Good(Bool(b)) => if b then TrueToken else FalseToken
    case Good(Number(_)) => NumberToken
    case Good(Text(_)) => StringToken
    case Malformed(k) => if IsLeafKind(k) then k else NumberToken
  }

  predicate IsLeafKind(k: TokenKind) {
    k in {StringToken, FalseToken, TrueToken, NullToken, NumberToken}
  }

  /** One parse: the text, the parse flags and the handler, which may stop the parse at any event. */
  datatype Parse = Parse(tokens: seq<Token>, trailingCommas: bool, stopWhenDone: bool, accepts: seq<Event> -> bool) {
    predicate AtEnd(pos: nat) {
      pos >= |tokens|
    }

    predicate Sees(pos: nat, t: Token) {
      pos < |tokens| && tokens[pos] == t
    }
  }

  /** How a parse ends: whether it succeeded, how far it read, and the events sent so far. */
  datatype Outcome = Outcome(ok: bool, pos: nat, log: seq<Event>) {
    predicate Same(other: Outcome) {
      ok == other.ok && log == other.log && (ok ==> pos == other.pos)
    }
  }

  // ---- the recursive parser, as functions ----------------------------------------------

  /** Sends one event and continues at `pos` if the handler agrees. */
  function Send(p: Parse, pos: nat, log: seq<Event>, e: Event): Outcome {
    Outcome(p.accepts(log + [e]), pos, log + [e])
  }

  function ReadValue(p: Parse, pos: nat, log: seq<Event>): (r: Outcome)
    ensures r.ok ==> pos < r.pos <= |p.tokens|
    decreases |p.tokens| - pos, 1
  {
    if p.AtEnd(pos) then Outcome(false, pos, log)
    else
      match p.tokens[pos]
      case Good(x) => Send(p, pos + 1, log, Plain(x))
      case LeftCurly =>
        var start := Send(p, pos + 1, log, StartObject);
        if !start.ok then start
        else if p.Sees(pos + 1, RightCurly) then Send(p, pos + 2, start.log, EndObject(0))
        else ReadMembers(p, pos + 1, start.log, 0)
      case LeftBracket =>
        var start := Send(p, pos + 1, log, StartArray);
        if !start.ok then start
        else if p.Sees(pos + 1, RightBracket) then Send(p, pos + 2, start.log, EndArray(0))
        else ReadElements(p, pos + 1, start.log, 0)
      case _ => Outcome(false, pos, log)
  }

  /** The loop of `ParseArray`, from the element numbered `count`. */
  function ReadElements(p: Parse, pos: nat, log: seq<Event>, count: nat): (r: Outcome)
    ensures r.ok ==> pos < r.pos <= |p.tokens|
    decreases |p.tokens| - pos, 2
  {
    var v := ReadValue(p, pos, log);
    if !v.ok then v else NextElement(p, v.pos, v.log, count + 1)
  }

  /** The rest of the loop of `ParseArray` once `count` elements are read. */
  function NextElement(p: Parse, pos: nat, log: seq<Event>, count: nat): (r: Outcome)
    ensures r.ok ==> pos < r.pos <= |p.tokens|
    decreases |p.tokens| - pos, 0
  {
    if p.Sees(pos, Comma) then
      if p.trailingCommas && p.Sees(pos + 1, RightBracket) then Send(p, pos + 2, log, EndArray(count))
      else ReadElements(p, pos + 1, log, count)
    else if p.Sees(pos, RightBracket) then Send(p, pos + 1, log, EndArray(count))
    else Outcome(false, pos, log)
  }

  /** The loop of `ParseObject`, from the member numbered `count`. */
  function ReadMembers(p: Parse, pos: nat, log: seq<Event>, count: nat): (r: Outcome)
    ensures r.ok ==> pos < r.pos <= |p.tokens|
    decreases |p.tokens| - pos, 2
  {
    if p.AtEnd(pos) || !p.tokens[pos].Good? || !p.tokens[pos].x.Text? then Outcome(false, pos, log)
    else
      var key := Send(p, pos + 1, log, Key(p.tokens[pos].x.s));
      if !key.ok then key
      else if !p.Sees(pos + 1, Colon) then Outcome(false, pos + 1, key.log)
      else
        var v := ReadValue(p, pos + 2, key.log);
        if !v.ok then v else NextMember(p, v.pos, v.log, count + 1)
  }

  /** The rest of the loop of `ParseObject` once `count` members are read. */
  function NextMember(p: Parse, pos: nat, log: seq<Event>, count: nat): (r: Outcome)
    ensures r.ok ==> pos < r.pos <= |p.tokens|
    decreases |p.tokens| - pos, 0
  {
    if p.Sees(pos, Comma) then
      if p.trailingCommas && p.Sees(pos + 1, RightCurly) then Send(p, pos + 2, log, EndObject(count))
      else ReadMembers(p, pos + 1, log, count)
    else if p.Sees(pos, RightCurly) then Send(p, pos + 1, log, EndObject(count))
    else Outcome(false, pos, log)
  }

  /** The non-iterative `Parse`: one value, and nothing after it unless `stopWhenDone`. */
  function ReadText(p: Parse): Outcome {
    if p.AtEnd(0) then Outcome(false, 0, [])
    else
      var v := ReadValue(p, 0, []);
      if v.ok && !p.stopWhenDone && !p.AtEnd(v.pos) then Outcome(false, v.pos, v.log) else v
  }

  // ---- the iterative parser, as functions ----------------------------------------------

  datatype State =
    | Finish | Error | Start
    | ObjectInitial | MemberKey | MemberValue | ObjectFinish
    | ArrayInitial | Element | ArrayFinish
    | SingleValue
    | ElementDelimiter | MemberDelimiter | KeyValueDelimiter

  /** The prediction table, row by row. */
  function Predict(state: State, token: TokenKind): State {
    match state
    case Start =>
      (match token
       case LeftBracketToken => ArrayInitial
       case LeftCurlyBracketToken => ObjectInitial
       case _ => if IsLeafKind(token) then SingleValue else Error)
    case ObjectInitial =>
      (match token
       case RightCurlyBracketToken => ObjectFinish
       case StringToken => MemberKey
       case _ => Error)
    case MemberKey =>
      if token == ColonToken then KeyValueDelimiter else Error
    case MemberValue =>
      (match token
       case RightCurlyBracketToken => ObjectFinish
       case CommaToken => MemberDelimiter
       case _ => Error)
    case ArrayInitial =>
      (match token
       case LeftBracketToken => ArrayInitial
       case RightBracketToken => ArrayFinish
       case LeftCurlyBracketToken => ObjectInitial
       case _ => if IsLeafKind(token) then Element else Error)
    case Element =>
      (match token
       case RightBracketToken => ArrayFinish
       case CommaToken => ElementDelimiter
       case _ => Error)
    case ElementDelimiter =>
      (match token
       case LeftBracketToken => ArrayInitial
       case RightBracketToken => ArrayFinish
       case LeftCurlyBracketToken => ObjectInitial
       case _ => if IsLeafKind(token) then Element else Error)
    case MemberDelimiter =>
      (match token
       case RightCurlyBracketToken => ObjectFinish
       case StringToken => MemberKey
       case _ => Error)
    case KeyValueDelimiter =>
      (match token
       case LeftBracketToken => ArrayInitial
       case LeftCurlyBracketToken => ObjectInitial
       case _ => if IsLeafKind(token) then MemberValue else Error)
    case _ => Error
  }

  /** A saved state and the number of members or elements counted so far. */
  datatype Frame = Frame(state: State, count: nat)

  datatype Machine = Machine(state: State, pos: nat, stack: seq<Frame>, log: seq<Event>)

  /** The state to return to when the container that starts in `src` ends. */
  function Saved(src: State): State {
    if src == ArrayInitial || src == ElementDelimiter then Element
    else if src == KeyValueDelimiter then MemberValue
    else src
  }

  function Restored(n: State): State {
    if n == Start then Finish else n
  }

  /** `Transit`: acts on the token at `m.pos` for predicted state `dst`; an `Error` state keeps the events. */
  function Transit(p: Parse, m: Machine, dst: State): (r: Machine)
    requires !p.AtEnd(m.pos) && dst == Predict(m.state, Tokenize(p.tokens[m.pos]))
    ensures r.state != Error ==> r.pos == m.pos + 1
  {
    var failed := Machine(Error, m.pos, m.stack, m.log);
    match dst
    case Error => failed
    case ObjectInitial => Opened(p, m, dst, StartObject)
    case ArrayInitial => Opened(p, m, dst, StartArray)
    case MemberKey =>
      (match p.tokens[m.pos]
       case Good(Text(s)) => Reported(p, m, dst, Key(s))
       case _ => failed)
    case KeyValueDelimiter => Machine(dst, m.pos + 1, m.stack, m.log)
    case MemberValue => ReadLeaf(p, m, dst)
    case Element => ReadLeaf(p, m, dst)
    case MemberDelimiter => Counted(m, dst)
    case ElementDelimiter => Counted(m, dst)
    case ObjectFinish =>
      if !p.trailingCommas && m.state == MemberDelimiter then failed else Closed(p, m, true)
    case ArrayFinish =>
      if !p.trailingCommas && m.state == ElementDelimiter then failed else Closed(p, m, false)
    case _ => ReadLeaf(p, m, Finish)
  }

  /** Sends an event; the handler may turn the step into an error. */
  function Reported(p: Parse, m: Machine, dst: State, e: Event): Machine {
    if p.accepts(m.log + [e]) then Machine(dst, m.pos + 1, m.stack, m.log + [e])
    else Machine(Error, m.pos, m.stack, m.log + [e])
  }

  function ReadLeaf(p: Parse, m: Machine, dst: State): Machine
    requires !p.AtEnd(m.pos)
  {
    match p.tokens[m.pos]
    case Good(x) => Reported(p, m, dst, Plain(x))
    case _ => Machine(Error, m.pos, m.stack, m.log)
  }

  function Opened(p: Parse, m: Machine, dst: State, e: Event): Machine {
    Reported(p, m.(stack := m.stack + [Frame(Saved(m.state), 0)]), dst, e)
  }

  function Counted(m: Machine, dst: State): Machine {
    if m.stack == [] then Machine(Error, m.pos, m.stack, m.log)
    else
      var top := m.stack[|m.stack| - 1];
      Machine(dst, m.pos + 1, m.stack[..|m.stack| - 1] + [top.(count := top.count + 1)], m.log)
  }

  function Closed(p: Parse, m: Machine, ofObject: bool): Machine {
    if m.stack == [] then Machine(Error, m.pos, m.stack, m.log)
    else
      var top := m.stack[|m.stack| - 1];
      var last := if ofObject then MemberValue else Element;
      var c := top.count + if m.state == last then 1 else 0;
      Reported(p, m.(stack := m.stack[..|m.stack| - 1]), Restored(top.state),
        if ofObject then EndObject(c) else EndArray(c))
  }

  function Step(p: Parse, m: Machine): (r: Machine)
    requires !p.AtEnd(m.pos)
    ensures r.state != Error ==> r.pos == m.pos + 1
  {
    Transit(p, m, Predict(m.state, Tokenize(p.tokens[m.pos])))
  }

  /** The loop of `IterativeParse` from machine `m`. */
  function Iterate(p: Parse, m: Machine): Outcome
    decreases |p.tokens| - m.pos
  {
    if p.AtEnd(m.pos) then Outcome(m.state == Finish, m.pos, m.log)
    else
      var d := Step(p, m);
      if d.state == Error then Outcome(false, d.pos, d.log)
      else if p.stopWhenDone && d.state == Finish then Outcome(true, d.pos, d.log)
      else Iterate(p, d)
  }

  // ---- the iterative parser simulates the recursive one --------------------------------

  /** The machine goes on from `from` exactly as the recursive outcome `r` followed by `next` says. */
  ghost predicate Follows(p: Parse, from: Machine, r: Outcome, next: State, stack: seq<Frame>) {
    if !r.ok then Iterate(p, from).Same(r)
    else Iterate(p, from) == Resume(p, Machine(next, r.pos, stack, r.log))
  }

  /** What the loop does after a step into `m`. */
  function Resume(p: Parse, m: Machine): Outcome {
    if p.stopWhenDone && m.state == Finish then Outcome(true, m.pos, m.log) else Iterate(p, m)
  }

  function After(src: State): State {
    Restored(Saved(src))
  }

  predicate ExpectsValue(s: State) {
    s in {Start, ArrayInitial, ElementDelimiter, KeyValueDelimiter}
  }

  lemma Unroll(p: Parse, m: Machine)
    ensures p.AtEnd(m.pos) ==> Iterate(p, m) == Outcome(m.state == Finish, m.pos, m.log)
    ensures !p.AtEnd(m.pos) ==>
      Iterate(p, m) == var d := Step(p, m); if d.state == Error then Outcome(false, d.pos, d.log) else Resume(p, d)
  {
  }

  /** What one step of the machine does, token by token. */
  lemma StepOnValue(p: Parse, m: Machine)
    requires ExpectsValue(m.state) && !p.AtEnd(m.pos)
    ensures p.tokens[m.pos] == LeftCurly ==> Step(p, m) == Opened(p, m, ObjectInitial, StartObject)
    ensures p.tokens[m.pos] == LeftBracket ==> Step(p, m) == Opened(p, m, ArrayInitial, StartArray)
    ensures p.tokens[m.pos].Good? ==> Step(p, m) == Reported(p, m, After(m.state), Plain(p.tokens[m.pos].x))
    ensures p.tokens[m.pos].Malformed? || p.tokens[m.pos] in {RightCurly, Comma, Colon} ==>
      Step(p, m) == Machine(Error, m.pos, m.stack, m.log)
    ensures
      && p.tokens[m.pos] == RightBracket && m.state != ArrayInitial
      && (m.state == ElementDelimiter ==> !p.trailingCommas) ==>
        Step(p, m) == Machine(Error, m.pos, m.stack, m.log)
  {
  }

  /** After an element: a comma counts it, a bracket closes the array, anything else is an error. */
  lemma StepAfterElement(p: Parse, m: Machine, below: seq<Frame>, f: Frame)
    requires !p.AtEnd(m.pos) && m.stack == below + [f] && m.state == Element
    ensures p.tokens[m.pos] == Comma ==>
      Step(p, m) == Machine(ElementDelimiter, m.pos + 1, below + [f.(count := f.count + 1)], m.log)
    ensures p.tokens[m.pos] == RightBracket ==>
      Step(p, m) == Reported(p, m.(stack := below), Restored(f.state), EndArray(f.count + 1))
    ensures p.tokens[m.pos] !in {Comma, RightBracket} ==> Step(p, m) == Machine(Error, m.pos, m.stack, m.log)
  {
    assert m.stack[..|m.stack| - 1] == below;
  }

  lemma StepAfterMember(p: Parse, m: Machine, below: seq<Frame>, f: Frame)
    requires !p.AtEnd(m.pos) && m.stack == below + [f] && m.state == MemberValue
    ensures p.tokens[m.pos] == Comma ==>
      Step(p, m) == Machine(MemberDelimiter, m.pos + 1, below + [f.(count := f.count + 1)], m.log)
    ensures p.tokens[m.pos] == RightCurly ==>
      Step(p, m) == Reported(p, m.(stack := below), Restored(f.state), EndObject(f.count + 1))
    ensures p.tokens[m.pos] !in {Comma, RightCurly} ==> Step(p, m) == Machine(Error, m.pos, m.stack, m.log)
  {
    assert m.stack[..|m.stack| - 1] == below;
  }

  /** A closing bracket right after an opening one, or after a comma when that is allowed. */
  lemma StepClosesEarly(p: Parse, m: Machine, below: seq<Frame>, f: Frame)
    requires !p.AtEnd(m.pos) && m.stack == below + [f]
    ensures
      && p.tokens[m.pos] == RightBracket
      && (m.state == ArrayInitial || (m.state == ElementDelimiter && p.trailingCommas)) ==>
        Step(p, m) == Reported(p, m.(stack := below), Restored(f.state), EndArray(f.count))
    ensures
      && p.tokens[m.pos] == RightCurly
      && (m.state == ObjectInitial || (m.state == MemberDelimiter && p.trailingCommas)) ==>
        Step(p, m) == Reported(p, m.(stack := below), Restored(f.state), EndObject(f.count))
  {
    assert m.stack[..|m.stack| - 1] == below;
  }

  lemma StepOnKey(p: Parse, m: Machine)
    requires !p.AtEnd(m.pos)
    requires m.state in {ObjectInitial, MemberDelimiter, MemberKey}
    requires p.tokens[m.pos] == RightCurly ==>
      m.state != ObjectInitial && (m.state == MemberDelimiter ==> !p.trailingCommas)
    ensures m.state != MemberKey ==>
      Step(p, m) == if p.tokens[m.pos].Good? && p.tokens[m.pos].x.Text?
                    then Reported(p, m, MemberKey, Key(p.tokens[m.pos].x.s))
                    else Machine(Error, m.pos, m.stack, m.log)
    ensures m.state == MemberKey ==>
      Step(p, m) == Machine(if p.tokens[m.pos] == Colon then KeyValueDelimiter else Error,
                            if p.tokens[m.pos] == Colon then m.pos + 1 else m.pos, m.stack, m.log)
  {
  }

  lemma {:induction false} ValueSimulated(p: Parse, m: Machine)
    requires ExpectsValue(m.state)
    requires p.Sees(m.pos, RightBracket) ==>
      m.state != ArrayInitial && (m.state == ElementDelimiter ==> !p.trailingCommas)
    ensures Follows(p, m, ReadValue(p, m.pos, m.log), After(m.state), m.stack)
    decreases |p.tokens| - m.pos, 1
  {
    hide Step, Iterate, ReadMembers, ReadElements;
    Unroll(p, m);
    if p.AtEnd(m.pos) {
      return;
    }
    StepOnValue(p, m);
    var d, f := Step(p, m), Frame(Saved(m.state), 0);
    if p.tokens[m.pos] == LeftCurly && d.state != Error {
      Unroll(p, d);
      if p.Sees(m.pos + 1, RightCurly) {
        StepClosesEarly(p, d, m.stack, f);
      } else {
        MembersSimulated(p, d, m.stack, f);
      }
    } else if p.tokens[m.pos] == LeftBracket && d.state != Error {
      Unroll(p, d);
      if p.Sees(m.pos + 1, RightBracket) {
        StepClosesEarly(p, d, m.stack, f);
      } else {
        ElementsSimulated(p, d, m.stack, f);
      }
    }
  }

  lemma {:induction false} ElementsSimulated(p: Parse, m: Machine, below: seq<Frame>, f: Frame)
    requires m.state == ArrayInitial || m.state == ElementDelimiter
    requires m.stack == below + [f] && f.state != Error
    requires p.Sees(m.pos, RightBracket) ==> m.state == ElementDelimiter && !p.trailingCommas
    ensures Follows(p, m, ReadElements(p, m.pos, m.log, f.count), Restored(f.state), below)
    decreases |p.tokens| - m.pos, 2
  {
    hide Step, Iterate, ReadValue, NextElement;
    ValueSimulated(p, m);
    var v := ReadValue(p, m.pos, m.log);
    if v.ok {
      NextElementSimulated(p, Machine(Element, v.pos, m.stack, v.log), below, f);
    }
  }

  lemma {:induction false} NextElementSimulated(p: Parse, n: Machine, below: seq<Frame>, f: Frame)
    requires n.state == Element && n.stack == below + [f] && f.state != Error
    ensures Follows(p, n, NextElement(p, n.pos, n.log, f.count + 1), Restored(f.state), below)
    decreases |p.tokens| - n.pos, 0
  {
    hide Step, Iterate, ReadElements;
    Unroll(p, n);
    if !p.AtEnd(n.pos) {
      StepAfterElement(p, n, below, f);
      if p.tokens[n.pos] == Comma {
        var d, f' := Step(p, n), f.(count := f.count + 1);
        Unroll(p, d);
        if p.trailingCommas && p.Sees(n.pos + 1, RightBracket) {
          StepClosesEarly(p, d, below, f');
        } else {
          ElementsSimulated(p, d, below, f');
        }
      }
    }
  }

  lemma {:induction false} MembersSimulated(p: Parse, m: Machine, below: seq<Frame>, f: Frame)
    requires m.state == ObjectInitial || m.state == MemberDelimiter
    requires m.stack == below + [f] && f.state != Error
    requires p.Sees(m.pos, RightCurly) ==> m.state == MemberDelimiter && !p.trailingCommas
    ensures Follows(p, m, ReadMembers(p, m.pos, m.log, f.count), Restored(f.state), below)
    decreases |p.tokens| - m.pos, 2
  {
    hide Step, Iterate, ReadValue, NextMember;
    Unroll(p, m);
    if p.AtEnd(m.pos) {
      return;
    }
    StepOnKey(p, m);
    var key := Step(p, m);
    Unroll(p, key);
    if key.state == Error || p.AtEnd(key.pos) {
      return;
    }
    StepOnKey(p, key);
    if p.tokens[key.pos] == Colon {
      var colon := Step(p, key);
      ValueSimulated(p, colon);
      var v := ReadValue(p, colon.pos, colon.log);
      if v.ok {
        NextMemberSimulated(p, Machine(MemberValue, v.pos, m.stack, v.log), below, f);
      }
    }
  }

  lemma {:induction false} NextMemberSimulated(p: Parse, n: Machine, below: seq<Frame>, f: Frame)
    requires n.state == MemberValue && n.stack == below + [f] && f.state != Error
    ensures Follows(p, n, NextMember(p, n.pos, n.log, f.count + 1), Restored(f.state), below)
    decreases |p.tokens| - n.pos, 0
  {
    hide Step, Iterate, ReadMembers;
    Unroll(p, n);
    if !p.AtEnd(n.pos) {
      StepAfterMember(p, n, below, f);
      if p.tokens[n.pos] == Comma {
        var d, f' := Step(p, n), f.(count := f.count + 1);
        Unroll(p, d);
        if p.trailingCommas && p.Sees(n.pos + 1, RightCurly) {
          StepClosesEarly(p, d, below, f');
        } else {
          MembersSimulated(p, d, below, f');
        }
      }
    }
  }

  /** For every token sequence, flags and handler: the same verdict, the same events, the same end. */
  lemma ParsersAgree(p: Parse)
    ensures Iterate(p, Machine(Start, 0, [], [])).Same(ReadText(p))
  {
    if !p.AtEnd(0) {
      ValueSimulated(p, Machine(Start, 0, [], []));
    }
  }

  // ---- the reader object ---------------------------------------------------------------

  /** The reader: the input position, the parse result, the container stack and the events sent so far. */
  class Reader {
    const p: Parse
    var pos: nat
    var failed: bool
    var stack: seq<Frame>
    var log: seq<Event>

    constructor (p: Parse)
      ensures this.p == p && pos == 0 && !failed && stack == [] && log == []
    {
      this.p := p;
      pos, failed, stack, log := 0, false, [], [];
    }

    /** The fields say what the outcome `r` says. */
    ghost predicate Ended(r: Outcome)
      reads this
    {
      failed == !r.ok && log == r.log && (r.ok ==> pos == r.pos)
    }

    predicate Peeks(t: Token)
      reads this`pos
    {
      p.Sees(pos, t)
    }

    /** Sends an event, and stops the parse when the handler says so. */
    method Handle(e: Event)
      requires !failed
      modifies this`log, this`failed
      ensures Ended(Send(p, pos, old(log), e))
    {
      log := log + [e];
      failed := !p.accepts(log);
    }

    method ParseValue()
      requires !failed
      modifies this`pos, this`log, this`failed
      ensures Ended(ReadValue(p, old(pos), old(log)))
      decreases |p.tokens| - pos, 1
    {
      hide ReadElements, ReadMembers;
      if p.AtEnd(pos) {
        failed := true;
      } else {
        match p.tokens[pos]
        case Good(x) =>
          pos := pos + 1;
          Handle(Plain(x));
        case LeftCurly => ParseObject();
        case LeftBracket => ParseArray();
        case _ => failed := true;
      }
    }

    method ParseObject()
      requires !failed && Peeks(LeftCurly)
      modifies this`pos, this`log, this`failed
      ensures Ended(ReadValue(p, old(pos), old(log)))
      decreases |p.tokens| - pos, 0
    {
      hide ReadElements, ReadMembers;
      pos := pos + 1;
      Handle(StartObject);
      if failed {
        return;
      }
      if Peeks(RightCurly) {
        pos := pos + 1;
        Handle(EndObject(0));
        return;
      }
      var memberCount := 0;
      while true
        invariant !failed && old(pos) < pos
        invariant ReadValue(p, old(pos), old(log)) == ReadMembers(p, pos, log, memberCount)
        decreases |p.tokens| - pos
      {
        ParseMember(memberCount);
        if failed {
          return;
        }
        memberCount := memberCount + 1;
        if Peeks(Comma) {
          pos := pos + 1;
        } else if Peeks(RightCurly) {
          pos := pos + 1;
          Handle(EndObject(memberCount));
          return;
        } else {
          failed := true;
          return;
        }
        if p.trailingCommas && Peeks(RightCurly) {
          Handle(EndObject(memberCount));
          pos := pos + 1;
          return;
        }
      }
    }

    /** Name, colon and value: the first half of the loop body of `ParseObject`. */
    method ParseMember(ghost memberCount: nat)
      requires !failed
      modifies this`pos, this`log, this`failed
      ensures failed ==> Ended(ReadMembers(p, old(pos), old(log), memberCount))
      ensures !failed ==> old(pos) < pos
      ensures !failed ==> ReadMembers(p, old(pos), old(log), memberCount) == NextMember(p, pos, log, memberCount + 1)
      decreases |p.tokens| - pos, 2
    {
      hide ReadValue, NextMember;
      if p.AtEnd(pos) || !p.tokens[pos].Good? || !p.tokens[pos].x.Text? {
        failed := true;
        return;
      }
      pos := pos + 1;
      Handle(Key(p.tokens[pos - 1].x.s));
      if failed {
        return;
      }
      if !Peeks(Colon) {
        failed := true;
        return;
      }
      pos := pos + 1;
      ParseValue();
    }

    method ParseArray()
      requires !failed && Peeks(LeftBracket)
      modifies this`pos, this`log, this`failed
      ensures Ended(ReadValue(p, old(pos), old(log)))
      decreases |p.tokens| - pos, 0
    {
      hide ReadMembers, NextMember;
      pos := pos + 1;
      Handle(StartArray);
      if failed {
        return;
      }
      if Peeks(RightBracket) {
        pos := pos + 1;
        Handle(EndArray(0));
        return;
      }
      var elementCount := 0;
      while true
        invariant !failed && old(pos) < pos
        invariant ReadValue(p, old(pos), old(log)) == ReadElements(p, pos, log, elementCount)
        decreases |p.tokens| - pos
      {
        ParseValue();
        if failed {
          return;
        }
        elementCount := elementCount + 1;
        if Peeks(Comma) {
          pos := pos + 1;
        } else if Peeks(RightBracket) {
          pos := pos + 1;
          Handle(EndArray(elementCount));
          return;
        } else {
          failed := true;
          return;
        }
        if p.trailingCommas && Peeks(RightBracket) {
          Handle(EndArray(elementCount));
          pos := pos + 1;
          return;
        }
      }
    }

    /** `Parse` without the iterative flag. */
    method ParseRecursively()
      requires !failed && pos == 0 && log == []
      modifies this`pos, this`log, this`failed
      ensures Ended(ReadText(p))
    {
      if p.AtEnd(pos) {
        failed := true;
      } else {
        ParseValue();
        if !failed && !p.stopWhenDone && !p.AtEnd(pos) {
          failed := true;
        }
      }
    }

    ghost function View(state: State): Machine
      reads this
    {
      Machine(state, pos, stack, log)
    }

    /** `Transit`: performs the predicted step on the stack, the handler and the input. */
    method TransitTo(src: State, dst: State) returns (d: State)
      requires !failed && !p.AtEnd(pos) && dst == Predict(src, Tokenize(p.tokens[pos]))
      modifies this`pos, this`log, this`failed, this`stack
      ensures d == Transit(p, old(View(src)), dst).state && log == Transit(p, old(View(src)), dst).log
      ensures d != Error ==> View(d) == Transit(p, old(View(src)), dst) && !failed
    {
      hide Predict, Tokenize, Reported, ReadLeaf, Counted, Closed;
      match dst
      case Error =>
        d := Error;
      case ObjectInitial =>
        stack := stack + [Frame(Saved(src), 0)];
        d := Report(StartObject, src, dst);
      case ArrayInitial =>
        stack := stack + [Frame(Saved(src), 0)];
        d := Report(StartArray, src, dst);
      case MemberKey =>
        if p.tokens[pos].Good? && p.tokens[pos].x.Text? {
          d := Report(Key(p.tokens[pos].x.s), src, dst);
        } else {
          d := Error;
        }
      case KeyValueDelimiter =>
        pos := pos + 1;
        d := dst;
      case MemberValue =>
        d := Leaf(src, dst);
      case Element =>
        d := Leaf(src, dst);
      case MemberDelimiter =>
        d := CountTop(src, dst);
      case ElementDelimiter =>
        d := CountTop(src, dst);
      case ObjectFinish =>
        if !p.trailingCommas && src == MemberDelimiter {
          d := Error;
        } else {
          d := Close(src, true);
        }
      case ArrayFinish =>
        if !p.trailingCommas && src == ElementDelimiter {
          d := Error;
        } else {
          d := Close(src, false);
        }
      case _ =>
        d := Leaf(src, Finish);
    }

    method Report(e: Event, ghost src: State, dst: State) returns (d: State)
      requires !failed
      modifies this`pos, this`log, this`failed
      ensures d == Reported(p, old(View(src)), dst, e).state && log == Reported(p, old(View(src)), dst, e).log
      ensures d != Error ==> View(d) == Reported(p, old(View(src)), dst, e) && !failed
    {
      Handle(e);
      if failed {
        d := Error;
      } else {
        pos := pos + 1;
        d := dst;
      }
    }

    method Leaf(ghost src: State, dst: State) returns (d: State)
      requires !failed && !p.AtEnd(pos)
      modifies this`pos, this`log, this`failed
      ensures d == ReadLeaf(p, old(View(src)), dst).state && log == ReadLeaf(p, old(View(src)), dst).log
      ensures d != Error ==> View(d) == ReadLeaf(p, old(View(src)), dst) && !failed
    {
      if p.tokens[pos].Good? {
        d := Report(Plain(p.tokens[pos].x), src, dst);
      } else {
        d := Error;
      }
    }

    method CountTop(ghost src: State, dst: State) returns (d: State)
      modifies this`pos, this`stack
      ensures d == Counted(old(View(src)), dst).state && log == Counted(old(View(src)), dst).log
      ensures d != Error ==> View(d) == Counted(old(View(src)), dst)
    {
      if stack == [] {
        return Error;
      }
      pos := pos + 1;
      var top := stack[|stack| - 1];
      stack := stack[..|stack| - 1] + [top.(count := top.count + 1)];
      d := dst;
    }

    method Close(src: State, ofObject: bool) returns (d: State)
      requires !failed
      modifies this`pos, this`log, this`failed, this`stack
      ensures d == Closed(p, old(View(src)), ofObject).state && log == Closed(p, old(View(src)), ofObject).log
      ensures d != Error ==> View(d) == Closed(p, old(View(src)), ofObject) && !failed
    {
      if stack == [] {
        return Error;
      }
      var top := stack[|stack| - 1];
      stack := stack[..|stack| - 1];
      var c := top.count;
      if src == (if ofObject then MemberValue else Element) {
        c := c + 1;
      }
      d := Report(if ofObject then EndObject(c) else EndArray(c), src, Restored(top.state));
    }

    /** The table-driven parser, run to its end; it agrees with the recursive one. */
    method ParseIteratively()
      requires !failed && pos == 0 && log == [] && stack == []
      modifies this`pos, this`log, this`failed, this`stack
      ensures failed == !ReadText(p).ok && log == ReadText(p).log && (!failed ==> pos == ReadText(p).pos)
    {
      hide Transit, Predict, Tokenize, ReadText;
      var state := Start;
      ParsersAgree(p);
      while !p.AtEnd(pos)
        invariant !failed && Iterate(p, View(state)) == Iterate(p, Machine(Start, 0, [], []))
        decreases |p.tokens| - pos
      {
        Unroll(p, View(state));
        var d := TransitTo(state, Predict(state, Tokenize(p.tokens[pos])));
        if d == Error {
          failed, stack := true, [];
          return;
        }
        state := d;
        if p.stopWhenDone && state == Finish {
          stack := [];
          return;
        }
      }
      Unroll(p, View(state));
      failed, stack := state != Finish, [];
    }
  }
}
