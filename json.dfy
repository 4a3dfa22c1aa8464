/**
 * A JSON document after parsing, as the configuration loader walks it.
 * The text parser itself is not part of this model: the loader only asks a
 * value what kind it is, iterates over arrays and objects, and reads numbers
 * and strings.
 */
module Json {

  /** A parsed JSON value. Numbers are integers; the parser holds as integers
      only those in its 64-bit signed and unsigned representations, and larger
      ones (floats there) are not modelled. `null`, `true` and `false` are `Other`. */
  datatype Value =
    | Array(elems: seq<Value>)
    | Object(members: seq<Member>)
    | Number(n: int)
    | String(s: string)
    | Other

  /** One member of an object, in the order the object's iterator yields it. */
  datatype Member = Member(name: string, value: Value)
}
