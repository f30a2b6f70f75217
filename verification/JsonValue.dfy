/** JSON values and the handler events that describe them. */
module JsonValue {

  /** A leaf of a JSON text.  Numbers are the integer events of the reader; doubles are not modelled. */
  datatype Scalar = Null | Bool(b: bool) | Number(n: int) | Text(s: string)

  datatype Value = Leaf(x: Scalar) | Array(elements: seq<Value>) | Object(members: seq<Member>)

  datatype Member = Member(name: string, value: Value)

  datatype Event =
    | Plain(x: Scalar)
    | Key(name: string)
    | StartObject
    | EndObject(memberCount: nat)
    | StartArray
    | EndArray(elementCount: nat)

  /** The events that `Accept` sends for a value. */
  function Events(v: Value): seq<Event> {
    match v
    case Leaf(x) => [Plain(x)]
    case Array(es) => [StartArray] + ElementEvents(es) + [EndArray(|es|)]
    case Object(ms) => [StartObject] + MemberEvents(ms) + [EndObject(|ms|)]
  }

  function ElementEvents(es: seq<Value>): seq<Event> {
    if es == [] then [] else ElementEvents(es[..|es| - 1]) + Events(es[|es| - 1])
  }

  function MemberEvents(ms: seq<Member>): seq<Event> {
    if ms == [] then []
    else
      var m := ms[|ms| - 1];
      MemberEvents(ms[..|ms| - 1]) + [Key(m.name)] + Events(m.value)
  }
}
