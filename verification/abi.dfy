/** The circuit ABI: parameter type descriptors, the dynamically typed input
    values they describe, the encoder's errors, and the number of scalars
    each type occupies (src/utils.ts). */
module Abi {
  import opened Wrappers

  /** A type descriptor. The source's `kind` string selects the constructor;
      `length`, `type`, `width` and `fields` become the constructor's fields.
      `Unknown` is any kind outside the closed set. */
  datatype Type =
    | Field(width: Option<nat>)
    | Integer(width: Option<nat>)
    | Array(len: nat, elem: Type)
    | Str(len: nat)
    | Struct(fields: seq<Param>)
    | Unknown(kind: string)

  /** A named parameter (or struct field) of the ABI. */
  datatype Param = Param(name: string, typ: Type)

  /** A dynamically typed input value: a JSON-like tree. A missing property
      (`undefined`) is not a value; lookups return `None` for it. */
  datatype Value =
    | Num(n: int)
    | Text(s: string)
    | Arr(items: seq<Value>)
    | Obj(entries: map<string, Value>)
    | Bool(b: bool)
    | Null

  /** One variant per `throw` in the encoder, plus the two runtime faults
      JavaScript raises on inputs the encoder does not guard against. */
  datatype Error =
    | NoParameters                                                // no parameter list given
    | MissingParameter(name: string)                              // schema name absent from the inputs
    | UnsupportedWidth(name: string)                              // plain number for a width above 64
    | ExpectedHex(name: string)                                   // scalar string without the 0x prefix
    | ExpectedInteger(name: string)                               // scalar neither number nor string
    | ArrayLengthMismatch(name: string, declared: nat, got: nat)  // flattened count differs from the total length
    | ArrayElementNotHex(name: string)                            // flattened string without the 0x prefix
    | UnexpectedArrayElement(name: string)                        // flattened element neither number nor string
    | ExpectedArray(name: string)                                 // array parameter given a non-array
    | ExpectedStruct(name: string)                                // struct parameter given a non-object
    | StringLengthMismatch(name: string, declared: nat, got: nat) // top-level string of the wrong length
    | ExpectedString(name: string)                                // string parameter given a non-string
    | UnsupportedType(kind: string)                               // kind outside the closed set
    | NestedTooDeep                                               // input array nested deeper than its type
    | NullInputs                                                  // property read on a null input

  /** The number of scalars a value of type `t` occupies once flattened
      (computeTotalLengthOfArray). */
  function TotalLength(t: Type): nat
    decreases t
  {
    match t
    case Array(len, elem) => len * TotalLength(elem)
    case Field(_) => 1
    case Integer(_) => 1
    case Str(len) => len
    case Struct(fields) => TotalLengthOf(fields)
    case Unknown(_) => 0
  }

  /** The left fold `reduce((sum, field) => sum + TotalLength(field.type), 0)`. */
  function TotalLengthOf(params: seq<Param>): nat
    decreases params
  {
    if params == [] then 0
    else TotalLengthOf(params[..|params| - 1]) + TotalLength(params[|params| - 1].typ)
  }

  /** The total length of a schema is the sum over its parts: splitting a
      parameter list splits the count. */
  lemma {:induction false} TotalLengthOfConcat(a: seq<Param>, b: seq<Param>)
    ensures TotalLengthOf(a + b) == TotalLengthOf(a) + TotalLengthOf(b)
    decreases |b|
  {
    if b != [] {
      assert (a + b)[..|a + b| - 1] == a + b[..|b| - 1];
      TotalLengthOfConcat(a, b[..|b| - 1]);
    } else {
      assert a + b == a;
    }
  }

  /** An array of arrays occupies as many scalars as the flat array of
      the product of their lengths. */
  lemma NestedArrayLength(m: nat, n: nat, elem: Type)
    ensures TotalLength(Array(m, Array(n, elem))) == TotalLength(Array(m * n, elem))
  {
    assert m * (n * TotalLength(elem)) == (m * n) * TotalLength(elem);
  }
}
