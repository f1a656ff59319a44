/** JSON values as the migrations read them, and the lists of messages they are stored in. */
module JsonValues {
  import opened Sequences

  datatype Json =
    | Null
    | Bool(truth: bool)
    | Number(number: int)
    | Str(text: string)
    | Arr(items: seq<Json>)
    | Obj(fields: map<string, Json>)

  function Get(j: Json, key: string): Option<Json> {
    if j.Obj? && key in j.fields then Some(j.fields[key]) else None
  }

  /** The walk over a message's parts raises when they cannot be iterated. */
  predicate Iterable(message: Json) {
    match Get(message, "parts")
    case Some(Null) => false
    case Some(Bool(_)) => false
    case Some(Number(_)) => false
    case _ => true
  }

  /** The parts of a message; a string or an object in their place is walked and holds none. */
  function Parts(message: Json): seq<Json> {
    match Get(message, "parts")
    case Some(Arr(items)) => items
    case _ => []
  }

  /** The object holds the text `text` at `key`. */
  ghost predicate TextAt(j: Json, key: string, text: string) {
    j.Obj? && key in j.fields && j.fields[key] == Str(text)
  }

  /** The message has parts, and they are null, a truth value or a number. */
  ghost predicate BadParts(message: Json) {
    && message.Obj? && "parts" in message.fields
    && (message.fields["parts"].Null? || message.fields["parts"].Bool? || message.fields["parts"].Number?)
  }

  /** `text` is a string somewhere in `j`. */
  ghost predicate Holds(j: Json, text: string) {
    match j
    case Str(t) => t == text
    case Arr(items) => exists i :: 0 <= i < |items| && Holds(items[i], text)
    case Obj(fields) => exists k :: k in fields && Holds(fields[k], text)
    case _ => false
  }
}
