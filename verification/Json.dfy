/** JSON values and how records are written to and read from them. */
module Json {
  import opened Wrappers
  import opened Hex

  const I64_MIN: int := -0x8000_0000_0000_0000
  const I64_MAX: int := 0x7FFF_FFFF_FFFF_FFFF

  /** The member names this program reads and writes, and any other. */
  datatype Field =
    | Typ | Alg | Cty | Jku | Kid | X5u | X5t | X5tS256
    | Iss | Sub | Aud | Exp | Nbf | Iat | Jti
    | Challenge | Difficulty | ChallengePassed
    | Other(name: string)

  /** `Num` is a whole number, `Real` any other. */
  datatype Json = Null | Bool(b: bool) | Num(n: int) | Real(text: string) | Str(s: string)
                | Arr(items: seq<Json>) | Obj(fields: map<Field, Json>)

  /** The text of a value.  The serializer is not part of this model. */
  datatype Codec = Codec(write: Json -> seq<Byte>, read: seq<Byte> -> Option<Json>)

  predicate ReadsBack(codec: Codec, j: Json) { codec.read(codec.write(j)) == Some(j) }

  predicate Scalar(j: Json) { j.Str? || j.Bool? || AsI64(j).Some? }

  /** A record as this program writes them: its own members, each a string, a truth value
      or a 64-bit integer. */
  predicate Plain(j: Json) { j.Obj? && forall f :: f in j.fields ==> !f.Other? && Scalar(j.fields[f]) }

  /** All that is assumed of the serializer: the records this program writes are read back. */
  ghost predicate Lawful(codec: Codec) {
    forall j :: Plain(j) ==> ReadsBack(codec, j)
  }

  function Get(fields: map<Field, Json>, name: Field): Option<Json> {
    if name in fields then Some(fields[name]) else None
  }

  function AsI64(j: Json): Option<int> {
    if j.Num? && I64_MIN <= j.n <= I64_MAX then Some(j.n) else None
  }

  /** An optional field: a missing one and `null` read as none, anything ill-typed fails. */
  function ReadStr(fields: map<Field, Json>, name: Field): Option<Option<string>> {
    match Get(fields, name)
    case None => Some(None)
    case Some(Null) => Some(None)
    case Some(Str(s)) => Some(Some(s))
    case Some(_) => None
  }

  function ReadI64(fields: map<Field, Json>, name: Field): Option<Option<int>> {
    match Get(fields, name)
    case None => Some(None)
    case Some(Null) => Some(None)
    case Some(j) => if AsI64(j).Some? then Some(AsI64(j)) else None
  }

  /** The members of a record that have a value: absent ones are not written. */
  function Record(names: set<Field>, value: Field -> Option<Json>): map<Field, Json> {
    map f | f in names && value(f).Some? :: value(f).value
  }

  function OptStr(s: Option<string>): Option<Json> { if s.Some? then Some(Str(s.value)) else None }

  function OptNum(n: Option<int>): Option<Json> { if n.Some? then Some(Num(n.value)) else None }

  /** A record holds the values of its names and nothing else. */
  lemma RecordGet(names: set<Field>, value: Field -> Option<Json>, f: Field)
    ensures Get(Record(names, value), f) == if f in names then value(f) else None
  {
  }
}
