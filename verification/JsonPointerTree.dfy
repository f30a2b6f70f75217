/**
 Resolving a JSON Pointer in a value, and creating the value it points to.  Values are immutable here: where the source
 moves a pointer into the tree and changes the tree in place, `Create` returns the new tree.
 */
module JsonPointerTree {
  import opened JsonValue
  import opened JsonEquality
  import opened Wrappers

  const INVALID_INDEX: nat := 0xFFFF_FFFF

  datatype PathToken = PathToken(name: string, index: nat)

  /** A token as parsed: the dash is no number. */
  predicate Parsed(tokens: seq<PathToken>) {
    forall k :: 0 <= k < |tokens| ==> (tokens[k].name == "-" ==> tokens[k].index == INVALID_INDEX)
  }

  // ---- positions -----------------------------------------------------------------------

  function Width(v: Value): nat {
    match v
    case Leaf(_) => 0
    case Array(es) => |es|
    case Object(ms) => |ms|
  }

  function Child(v: Value, i: nat): Value
    requires i < Width(v)
  {
    match v
    case Array(es) => es[i]
    case Object(ms) => ms[i].value
  }

  function Put(v: Value, i: nat, c: Value): (r: Value)
    requires i < Width(v)
    ensures Width(r) == Width(v) && Child(r, i) == c
    ensures forall j :: 0 <= j < Width(v) && j != i ==> Child(r, j) == Child(v, j)
  {
    match v
    case Array(es) => Array(es[i := c])
    case Object(ms) => Object(ms[i := Member(ms[i].name, c)])
  }

  /** The value at a path of positions. */
  function At(v: Value, path: seq<nat>): Option<Value> {
    if path == [] then Some(v)
    else if path[0] < Width(v) then At(Child(v, path[0]), path[1..])
    else None
  }

  // ---- resolving -----------------------------------------------------------------------

  /** The position a token means, or the width if there is none. */
  function Step(v: Value, t: PathToken): (i: nat)
    ensures i <= Width(v)
  {
    match v
    case Leaf(_) => 0
    case Array(es) => if t.index == INVALID_INDEX || t.index >= |es| then |es| else t.index
    case Object(ms) => Find(ms, t.name)
  }

  /** `Get`. */
  function Get(v: Value, tokens: seq<PathToken>): Option<Value> {
    if tokens == [] then Some(v)
    else
      var i := Step(v, tokens[0]);
      if i == Width(v) then None else Get(Child(v, i), tokens[1..])
  }

  /** Section 4 of RFC 6901: a token means the element of that number, or the first member of that name. */
  lemma TokenMeans(v: Value, t: PathToken, rest: seq<PathToken>)
    ensures v.Leaf? ==> Get(v, [t] + rest) == None
    ensures v.Array? ==>
              Get(v, [t] + rest) ==
              if t.index != INVALID_INDEX && t.index < |v.elements| then Get(v.elements[t.index], rest) else None
    ensures v.Object? && (forall i :: 0 <= i < |v.members| ==> v.members[i].name != t.name) ==>
              Get(v, [t] + rest) == None
    ensures v.Object? ==>
              forall i :: 0 <= i < |v.members| && v.members[i].name == t.name
                          && (forall j :: 0 <= j < i ==> v.members[j].name != t.name) ==>
                Get(v, [t] + rest) == Get(v.members[i].value, rest)
  {
    assert ([t] + rest)[1..] == rest;
  }

  // ---- creating ------------------------------------------------------------------------

  predicate Appends(v: Value, t: PathToken) {
    v.Array? && t.name == "-"
  }

  /** The value is changed to an object or array to take the token. */
  predicate Converts(v: Value, t: PathToken) {
    !Appends(v, t) && if t.index == INVALID_INDEX then !v.Object? else v.Leaf?
  }

  function Nulls(n: nat): (r: seq<Value>)
    ensures |r| == n
  {
    seq(n, _ => Leaf(Null))
  }

  /** The node with the token's child in it, and the child's position. */
  function Enter(v: Value, t: PathToken): (r: (Value, nat))
    requires t.name == "-" ==> t.index == INVALID_INDEX
    ensures r.1 < Width(r.0)
  {
    if Appends(v, t) then (Array(v.elements + [Leaf(Null)]), |v.elements|)
    else
      var w := if !Converts(v, t) then v else if t.index == INVALID_INDEX then Object([]) else Array([]);
      if w.Array? then
        (if t.index >= |w.elements| then Array(w.elements + Nulls(t.index + 1 - |w.elements|)) else w, t.index)
      else
        var i := Find(w.members, t.name);
        (if i == |w.members| then Object(w.members + [Member(t.name, Leaf(Null))]) else w, i)
  }

  /** The tree after `Create`, the path of the created or existing value in it, and whether that existed. */
  datatype Created = Created(tree: Value, path: seq<nat>, exist: bool)

  function Create(v: Value, tokens: seq<PathToken>): Created
    requires Parsed(tokens)
    decreases |tokens|
  {
    if tokens == [] then Created(v, [], true)
    else
      var (w, i) := Enter(v, tokens[0]);
      var below := Create(Child(w, i), tokens[1..]);
      Created(Put(w, i, below.tree), [i] + below.path, Step(v, tokens[0]) < Width(v) && below.exist)
  }

  // ---- what Create does ----------------------------------------------------------------

  /** Entering an existing child changes nothing; otherwise the child is a new null. */
  lemma EnterFinds(v: Value, t: PathToken)
    requires t.name == "-" ==> t.index == INVALID_INDEX
    ensures var (w, i) := Enter(v, t);
            if Step(v, t) < Width(v) then w == v && i == Step(v, t)
            else Child(w, i) == Leaf(Null) && (!Appends(v, t) ==> Step(w, t) == i)
  {
    var (w, i) := Enter(v, t);
    if w.Object? && Step(v, t) == Width(v) {
      FindAppended(if v.Object? then v.members else [], t.name);
    }
  }

  /** What a node becomes: an object keeps its members, an array its elements, filled up with nulls; what is neither
      for the token is replaced. */
  lemma NodeBecomes(v: Value, t: PathToken)
    requires t.name == "-" ==> t.index == INVALID_INDEX
    ensures var r, added := Enter(v, t).0, Member(t.name, Leaf(Null));
            && (v.Object? && (exists i :: 0 <= i < |v.members| && v.members[i].name == t.name) ==> r == v)
            && (v.Object? && (forall i :: 0 <= i < |v.members| ==> v.members[i].name != t.name) ==>
                  r == Object(v.members + [added]))
            && (v.Array? && t.name == "-" ==> r == Array(v.elements + [Leaf(Null)]))
            && (v.Array? && t.index < |v.elements| && t.index != INVALID_INDEX ==> r == v)
            && (!v.Object? && t.index != INVALID_INDEX && t.index >= Width(v) ==>
                  && r.Array? && |r.elements| == t.index + 1
                  && (forall i :: 0 <= i < Width(v) ==> r.elements[i] == v.elements[i])
                  && (forall i :: Width(v) <= i <= t.index ==> r.elements[i] == Leaf(Null)))
            && (t.index == INVALID_INDEX && (v.Leaf? || (v.Array? && t.name != "-")) ==> r == Object([added]))
  {
  }

  lemma {:induction false} FindAppended(ms: seq<Member>, name: string)
    requires Find(ms, name) == |ms|
    ensures Find(ms + [Member(name, Leaf(Null))], name) == |ms|
  {
    if ms != [] {
      FindAppended(ms[1..], name);
      assert (ms + [Member(name, Leaf(Null))])[1..] == ms[1..] + [Member(name, Leaf(Null))];
    }
  }

  /** A pointer into null resolves to nothing. */
  lemma NothingInNull(tokens: seq<PathToken>)
    requires tokens != []
    ensures Get(Leaf(Null), tokens) == None
  {
  }

  /** `Create` says that the value exists exactly if `Get` finds it, and then changes nothing; what it makes is a
      null.  The result is at the path returned. */
  lemma {:induction false} CreateIsGet(v: Value, tokens: seq<PathToken>)
    requires Parsed(tokens)
    ensures var r := Create(v, tokens);
            && (r.exist <==> Get(v, tokens).Some?)
            && (r.exist ==> r.tree == v)
            && At(r.tree, r.path) == Some(if r.exist then Get(v, tokens).value else Leaf(Null))
    decreases |tokens|
  {
    if tokens != [] {
      var (w, i) := Enter(v, tokens[0]);
      var below := Create(Child(w, i), tokens[1..]);
      EnterFinds(v, tokens[0]);
      CreateIsGet(Child(w, i), tokens[1..]);
      assert ([i] + below.path)[1..] == below.path;
      if Step(v, tokens[0]) < Width(v) {
        if below.exist {
          PutSame(v, i);
        }
      } else if tokens[1..] != [] {
        NothingInNull(tokens[1..]);
      }
    }
  }

  lemma PutSame(v: Value, i: nat)
    requires i < Width(v)
    ensures Put(v, i, Child(v, i)) == v
  {
    match v
    case Array(es) => assert es[i := es[i]] == es;
    case Object(ms) => assert ms[i := ms[i]] == ms;
  }

  /** No dash is met where the value is an array. */
  predicate NoDash(v: Value, tokens: seq<PathToken>)
    requires Parsed(tokens)
    decreases |tokens|
  {
    tokens == [] || (!Appends(v, tokens[0]) && var (w, i) := Enter(v, tokens[0]); NoDash(Child(w, i), tokens[1..]))
  }

  /** After `Create` the same pointer resolves to the value, unless a dash appended. */
  lemma {:induction false} GetAfterCreate(v: Value, tokens: seq<PathToken>)
    requires Parsed(tokens) && NoDash(v, tokens)
    ensures Get(Create(v, tokens).tree, tokens) ==
      Some(if Get(v, tokens).Some? then Get(v, tokens).value else Leaf(Null))
    decreases |tokens|
  {
    if tokens != [] {
      var (w, i) := Enter(v, tokens[0]);
      var below := Create(Child(w, i), tokens[1..]);
      EnterFinds(v, tokens[0]);
      GetAfterCreate(Child(w, i), tokens[1..]);
      StepAfterPut(w, i, below.tree, tokens[0]);
      if Step(v, tokens[0]) == Width(v) && tokens[1..] != [] {
        NothingInNull(tokens[1..]);
      }
    }
  }

  /** A dash appends at the end of an array but means no position there, so that what `Create` made is not found
      under the same pointer. */
  lemma {:induction false} DashIsNotFoundAgain(v: Value, tokens: seq<PathToken>)
    requires Parsed(tokens) && !NoDash(v, tokens)
    ensures Get(Create(v, tokens).tree, tokens) == None
    decreases |tokens|
  {
    var (w, i) := Enter(v, tokens[0]);
    if !Appends(v, tokens[0]) {
      var below := Create(Child(w, i), tokens[1..]);
      EnterFinds(v, tokens[0]);
      DashIsNotFoundAgain(Child(w, i), tokens[1..]);
      StepAfterPut(w, i, below.tree, tokens[0]);
    }
  }

  /** Some front part of the pointer resolves to an array, and a dash follows it. */
  predicate MeetsDash(v: Value, tokens: seq<PathToken>) {
    exists k :: 0 <= k < |tokens| && ArrayAt(v, tokens, k) && tokens[k].name == "-"
  }

  predicate ArrayAt(v: Value, tokens: seq<PathToken>, k: nat)
    requires k <= |tokens|
  {
    Get(v, tokens[..k]).Some? && Get(v, tokens[..k]).value.Array?
  }

  /** What `Create` makes on its way is never an array that a dash follows: so before the call it can be seen by
      resolving alone whether a dash will append. */
  lemma {:induction false} DashByResolving(v: Value, tokens: seq<PathToken>)
    requires Parsed(tokens)
    ensures NoDash(v, tokens) <==> !MeetsDash(v, tokens)
    decreases |tokens|
  {
    if tokens != [] {
      var (w, i) := Enter(v, tokens[0]);
      EnterFinds(v, tokens[0]);
      FirstDash(v, tokens);
      if Step(v, tokens[0]) < Width(v) {
        DashByResolving(Child(v, i), tokens[1..]);
      } else if !Appends(v, tokens[0]) {
        NoDashInNull(tokens[1..]);
      }
    }
  }

  /** A dash is met at the first token, or behind the child that it means. */
  lemma FirstDash(v: Value, tokens: seq<PathToken>)
    requires tokens != []
    ensures MeetsDash(v, tokens) <==>
            || Appends(v, tokens[0])
            || (Step(v, tokens[0]) < Width(v) && MeetsDash(Child(v, Step(v, tokens[0])), tokens[1..]))
  {
    var i := Step(v, tokens[0]);
    forall k | 0 < k <= |tokens|
      ensures ArrayAt(v, tokens, k) <==> i < Width(v) && ArrayAt(Child(v, i), tokens[1..], k - 1)
    {
      assert tokens[..k][1..] == tokens[1..][..k - 1];
    }
    assert ArrayAt(v, tokens, 0) <==> v.Array?;
    if i < Width(v) && MeetsDash(Child(v, i), tokens[1..]) {
      var k :| 0 <= k < |tokens[1..]| && ArrayAt(Child(v, i), tokens[1..], k) && tokens[1..][k].name == "-";
      assert ArrayAt(v, tokens, k + 1) && tokens[k + 1].name == "-";
    }
    if MeetsDash(v, tokens) && !Appends(v, tokens[0]) {
      var k :| 0 <= k < |tokens| && ArrayAt(v, tokens, k) && tokens[k].name == "-";
      assert ArrayAt(Child(v, i), tokens[1..], k - 1) && tokens[1..][k - 1].name == "-";
    }
  }

  lemma {:induction false} NoDashInNull(tokens: seq<PathToken>)
    requires Parsed(tokens)
    ensures NoDash(Leaf(Null), tokens)
    decreases |tokens|
  {
    if tokens != [] {
      EnterFinds(Leaf(Null), tokens[0]);
      NoDashInNull(tokens[1..]);
    }
  }

  /** After `Create` the pointer resolves exactly if before it no front part resolved to an array with a dash next. */
  lemma ResolvesExactlyWithoutDash(v: Value, tokens: seq<PathToken>)
    requires Parsed(tokens)
    ensures Get(Create(v, tokens).tree, tokens).Some? <==> !MeetsDash(v, tokens)
  {
    DashByResolving(v, tokens);
    if NoDash(v, tokens) {
      GetAfterCreate(v, tokens);
    } else {
      DashIsNotFoundAgain(v, tokens);
    }
  }

  lemma StepAfterPut(w: Value, i: nat, c: Value, t: PathToken)
    requires i < Width(w) && Step(w, t) == i
    ensures Step(Put(w, i, c), t) == i
  {
    if w.Object? {
      FindIgnoresValues(w.members, Put(w, i, c).members, t.name);
    }
  }

  lemma {:induction false} FindIgnoresValues(ms: seq<Member>, ns: seq<Member>, name: string)
    requires |ms| == |ns| && forall i :: 0 <= i < |ms| ==> ms[i].name == ns[i].name
    ensures Find(ms, name) == Find(ns, name)
  {
    if ms != [] {
      FindIgnoresValues(ms[1..], ns[1..], name);
    }
  }

  /** The path leaves the way of the pointer at a value that is not converted. */
  predicate Spared(v: Value, tokens: seq<PathToken>, path: seq<nat>)
    requires Parsed(tokens)
  {
    tokens != [] && path != [] && path[0] < Width(v) &&
    (v.Object? || tokens[0].name == "-" || tokens[0].index != INVALID_INDEX) &&
    var (w, i) := Enter(v, tokens[0]);
    path[0] != i || Spared(Child(v, i), tokens[1..], path[1..])
  }

  /** Everything off the way stays where it is. */
  lemma {:induction false} OthersStay(v: Value, tokens: seq<PathToken>, path: seq<nat>)
    requires Parsed(tokens) && Spared(v, tokens, path)
    ensures At(Create(v, tokens).tree, path) == At(v, path)
  {
    var (w, i) := Enter(v, tokens[0]);
    assert forall j :: 0 <= j < Width(v) ==> j < Width(w) && Child(w, j) == Child(v, j);
    if path[0] == i {
      OthersStay(Child(v, i), tokens[1..], path[1..]);
    }
  }
}
