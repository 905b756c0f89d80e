/** The witness encoder of src/utils.ts as functions: what
    `flattenMultiDimensionalArray` and `generateWitnessMap` compute, stated
    without the mutable accumulators. Each recursive definition peels off
    the LAST element, so that a left-to-right loop over a prefix is a
    prefix of the definition and the first failure in schema order wins. */
module Encoding {
  import opened Wrappers
  import opened Abi
  import opened HexFormat

  /** `charCodeAt`: the numeric code of a character. */
  function Code(c: char): nat {
    c as nat
  }

  predicate AllHex(vals: seq<string>) {
    forall i :: 0 <= i < |vals| ==> HasHexPrefix(vals[i])
  }

  /** `inputs[name]`: a property of an object; reading a property of `null`
      is a runtime fault; any other value has no such property. */
  function Property(inputs: Value, name: string): Result<Option<Value>, Error> {
    match inputs
    case Null => Err(NullInputs)
    case Obj(entries) => Ok(if name in entries then Some(entries[name]) else None)
    case _ => Ok(None)
  }

  /** A `field`/`integer` parameter's value (src/utils.ts:101-124). */
  function EncodeScalar(value: Value, width: Option<nat>, name: string): (r: Result<seq<string>, Error>)
    ensures r.Ok? ==> |r.value| == 1 && AllHex(r.value)
  {
    match value
    case Num(n) =>
      if width.Some? && width.value > 64 then Err(UnsupportedWidth(name))
      else Ok(["0x" + Hex(n)])
    case Text(s) =>
      if HasHexPrefix(s) then Ok([s]) else Err(ExpectedHex(name))
    case _ => Err(ExpectedInteger(name))
  }

  /** One flattened array element (src/utils.ts:139-153): a number is
      written in hexadecimal with no width check, a `0x` string is kept
      verbatim, and anything else is refused. */
  function EncodeElement(element: Value, name: string): (r: Result<string, Error>)
    ensures r.Ok? ==> HasHexPrefix(r.value)
    ensures element.Num? ==> r.Ok?
    ensures element.Text? ==> (r.Ok? <==> HasHexPrefix(element.s))
    ensures element.Text? && r.Ok? ==> r.value == element.s
    ensures element.Text? && r.Err? ==> r.error == ArrayElementNotHex(name)
    ensures !element.Num? && !element.Text? ==> r == Err(UnexpectedArrayElement(name))
  {
    match element
    case Num(n) => Ok("0x" + Hex(n))
    case Text(s) => if HasHexPrefix(s) then Ok(s) else Err(ArrayElementNotHex(name))
    case _ => Err(UnexpectedArrayElement(name))
  }

  function EncodeElements(flat: seq<Value>, name: string): (r: Result<seq<string>, Error>)
    ensures r.Ok? ==> |r.value| == |flat| && AllHex(r.value)
  {
    if flat == [] then Ok([])
    else
      var init :- EncodeElements(flat[..|flat| - 1], name);
      var last :- EncodeElement(flat[|flat| - 1], name);
      Ok(init + [last])
  }

  /** A string nested in an array: exactly `len` character codes, the
      string truncated when longer and padded with zeros when shorter. */
  function PadCodes(s: string, len: nat): (r: seq<Value>)
    ensures |r| == len
    ensures len <= |s| ==> forall i :: 0 <= i < len ==> r[i] == Num(Code(s[i]))
    ensures |s| < len ==> r[..|s|] == Codes(s) && forall i :: |s| <= i < len ==> r[i] == Num(0)
  {
    seq(len, i requires 0 <= i < len => if i < |s| then Num(Code(s[i])) else Num(0))
  }

  function Codes(s: string): seq<Value> {
    seq(|s|, i requires 0 <= i < |s| => Num(Code(s[i])))
  }

  /** A top-level string: one `0x`-prefixed code per character. */
  function HexCodes(s: string): seq<string> {
    seq(|s|, i requires 0 <= i < |s| => "0x" + HexNat(Code(s[i])))
  }

  function Texts(vals: seq<string>): seq<Value> {
    seq(|vals|, i requires 0 <= i < |vals| => Text(vals[i]))
  }

  /** flattenMultiDimensionalArray(items, elem) (src/utils.ts:21-48). */
  function Flatten(items: seq<Value>, elem: Type): Result<seq<Value>, Error>
    decreases elem, 1, |items|
  {
    if items == [] then Ok([])
    else
      var init :- Flatten(items[..|items| - 1], elem);
      var last :- FlattenOne(items[|items| - 1], elem);
      Ok(init + last)
  }

  /** What one element of the loop at src/utils.ts:24-45 contributes. An
      inner array whose type has no element type faults as soon as it has
      an element to inspect. */
  function FlattenOne(element: Value, elem: Type): Result<seq<Value>, Error>
    decreases elem, 0
  {
    if element.Arr? then
      if elem.Array? then Flatten(element.items, elem.elem)
      else if element.items == [] then Ok([])
      else Err(NestedTooDeep)
    else if elem.Str? && element.Text? then Ok(PadCodes(element.s, elem.len))
    else if elem.Struct? then
      var vals :- Encode(element, elem.fields);
      Ok(Texts(vals))
    else Ok([element])
  }

  /** The values `generateWitnessMap(inputs, params, start)` stores, in
      index order: on success exactly the parameters' total length of them,
      each `0x`-prefixed. */
  function Encode(inputs: Value, params: seq<Param>): (r: Result<seq<string>, Error>)
    ensures r.Ok? ==> |r.value| == TotalLengthOf(params) && AllHex(r.value)
    decreases params, 1
  {
    if params == [] then Ok([])
    else
      var init :- Encode(inputs, params[..|params| - 1]);
      var last :- EncodeParam(inputs, params[|params| - 1]);
      Ok(init + last)
  }

  /** One iteration of the loop at src/utils.ts:93-197: the parameter's
      presence is checked before anything about its type. */
  function EncodeParam(inputs: Value, p: Param): (r: Result<seq<string>, Error>)
    ensures r.Ok? ==> |r.value| == TotalLength(p.typ) && AllHex(r.value)
    decreases p, 0
  {
    var found :- Property(inputs, p.name);
    if found.None? then Err(MissingParameter(p.name))
    else
      var value := found.value;
      match p.typ
      case Field(width) => EncodeScalar(value, width, p.name)
      case Integer(width) => EncodeScalar(value, width, p.name)
      case Array(len, elem) => EncodeArray(value, len, elem, p.name)
      case Struct(fields) => EncodeStruct(value, fields, p.name)
      case Str(len) => EncodeString(value, len, p.name)
      case Unknown(kind) => Err(UnsupportedType(kind))
  }

  /** An `array` parameter's value (src/utils.ts:126-160): flattened first,
      then checked against the total length only, then encoded element by
      element. */
  function EncodeArray(value: Value, len: nat, elem: Type, name: string): (r: Result<seq<string>, Error>)
    ensures r.Ok? ==> |r.value| == len * TotalLength(elem) && AllHex(r.value)
    decreases elem, 2
  {
    if !value.Arr? then Err(ExpectedArray(name))
    else
      var flat :- Flatten(value.items, elem);
      if |flat| != TotalLength(Array(len, elem)) then Err(ArrayLengthMismatch(name, len, |flat|))
      else EncodeElements(flat, name)
  }

  /** A `struct` parameter's value (src/utils.ts:162-172): its fields'
      scalars, in field order. */
  function EncodeStruct(value: Value, fields: seq<Param>, name: string): (r: Result<seq<string>, Error>)
    ensures r.Ok? ==> |r.value| == TotalLengthOf(fields) && AllHex(r.value)
    decreases fields, 2
  {
    if value.Obj? then Encode(value, fields) else Err(ExpectedStruct(name))
  }

  /** A top-level `string` parameter's value (src/utils.ts:174-188): no
      padding, the length must match exactly. */
  function EncodeString(value: Value, len: nat, name: string): (r: Result<seq<string>, Error>)
    ensures r.Ok? ==> |r.value| == len && AllHex(r.value)
  {
    if !value.Text? then Err(ExpectedString(name))
    else if |value.s| != len then Err(StringLengthMismatch(name, len, |value.s|))
    else Ok(HexCodes(value.s))
  }

  /** `m` after `m.set(at + i, vals[i])` for each i in order. */
  function Append(m: map<int, string>, at: int, vals: seq<string>): map<int, string> {
    if vals == [] then m
    else Append(m, at, vals[..|vals| - 1])[at + |vals| - 1 := vals[|vals| - 1]]
  }

  /** Appending binds exactly the next |vals| keys and leaves the others. */
  lemma {:induction false} AppendKeys(m: map<int, string>, at: int, vals: seq<string>)
    ensures forall i :: i in Append(m, at, vals) <==> i in m || at <= i < at + |vals|
    ensures forall i :: at <= i < at + |vals| ==> Append(m, at, vals)[i] == vals[i - at]
    ensures forall i :: i in m && !(at <= i < at + |vals|) ==> Append(m, at, vals)[i] == m[i]
    decreases |vals|
  {
    if vals != [] {
      AppendKeys(m, at, vals[..|vals| - 1]);
    }
  }

  lemma AppendSnoc(m: map<int, string>, at: int, vals: seq<string>, x: string)
    ensures Append(m, at, vals + [x]) == Append(m, at, vals)[at + |vals| := x]
  {
    assert (vals + [x])[..|vals|] == vals;
  }

  /** Setting the next key of a map built by Append appends one value. */
  lemma AppendNext(m0: map<int, string>, at: int, vals: seq<string>, m: map<int, string>, key: int, x: string)
    requires m == Append(m0, at, vals) && key == at + |vals|
    ensures m[key := x] == Append(m0, at, vals + [x])
  {
    AppendSnoc(m0, at, vals, x);
  }

  /** A fresh map keyed `start, start + 1, ...` with `vals` in order. */
  function ToWitnessMap(start: int, vals: seq<string>): map<int, string> {
    Append(map[], start, vals)
  }

  /** The `i`-th value sits at key `start + i`. */
  lemma ToWitnessMapAt(start: int, vals: seq<string>, i: int)
    requires start <= i < start + |vals|
    ensures i in ToWitnessMap(start, vals) && ToWitnessMap(start, vals)[i] == vals[i - start]
  {
    AppendKeys(map[], start, vals);
  }

  lemma {:induction false} AppendConcat(m: map<int, string>, at: int, a: seq<string>, b: seq<string>)
    ensures Append(m, at, a + b) == Append(Append(m, at, a), at + |a|, b)
    decreases |b|
  {
    if b == [] {
      assert a + b == a;
    } else {
      var b' := b[..|b| - 1];
      assert (a + b)[..|a + b| - 1] == a + b';
      AppendConcat(m, at, a, b');
    }
  }

  /** generateWitnessMap (src/utils.ts:81-200): on success the keys are
      exactly the contiguous range of the schema's total length from
      `startIndex`, and every value is `0x`-prefixed. */
  function WitnessMap(inputs: Value, parameters: Option<seq<Param>>, startIndex: int): (r: Result<map<int, string>, Error>)
    ensures r.Ok? <==> parameters.Some? && Encode(inputs, parameters.value).Ok?
    ensures r.Ok? ==> forall i :: i in r.value <==> startIndex <= i < startIndex + TotalLengthOf(parameters.value)
    ensures r.Ok? ==> forall i :: i in r.value ==> HasHexPrefix(r.value[i])
  {
    match parameters
    case None => Err(NoParameters)
    case Some(params) =>
      var vals :- Encode(inputs, params);
      AppendKeys(map[], startIndex, vals);
      Ok(ToWitnessMap(startIndex, vals))
  }

  /** A successful witness map holds the encoding's values from the start
      index on. */
  lemma WitnessMapValues(inputs: Value, params: seq<Param>, startIndex: int)
    requires WitnessMap(inputs, Some(params), startIndex).Ok?
    ensures WitnessMap(inputs, Some(params), startIndex).value == ToWitnessMap(startIndex, Encode(inputs, params).value)
  {
  }

  /** Once a prefix of the parameters fails, the whole list fails with the
      same error. */
  lemma {:induction false} EncodeErrorPersists(inputs: Value, params: seq<Param>, k: nat)
    requires k <= |params| && Encode(inputs, params[..k]).Err?
    ensures Encode(inputs, params) == Encode(inputs, params[..k])
    decreases |params|
  {
    if k < |params| {
      var init := params[..|params| - 1];
      assert init[..k] == params[..k];
      EncodeErrorPersists(inputs, init, k);
    } else {
      assert params[..k] == params;
    }
  }

  lemma {:induction false} FlattenErrorPersists(items: seq<Value>, elem: Type, k: nat)
    requires k <= |items| && Flatten(items[..k], elem).Err?
    ensures Flatten(items, elem) == Flatten(items[..k], elem)
    decreases |items|
  {
    if k < |items| {
      var init := items[..|items| - 1];
      assert init[..k] == items[..k];
      FlattenErrorPersists(init, elem, k);
    } else {
      assert items[..k] == items;
    }
  }

  lemma {:induction false} EncodeElementsErrorPersists(flat: seq<Value>, name: string, k: nat)
    requires k <= |flat| && EncodeElements(flat[..k], name).Err?
    ensures EncodeElements(flat, name) == EncodeElements(flat[..k], name)
    decreases |flat|
  {
    if k < |flat| {
      var init := flat[..|flat| - 1];
      assert init[..k] == flat[..k];
      EncodeElementsErrorPersists(init, name, k);
    } else {
      assert flat[..k] == flat;
    }
  }

  /** One more element of the loop over the input array. */
  lemma FlattenStep(items: seq<Value>, elem: Type, k: nat)
    requires k < |items|
    ensures Flatten(items[..k + 1], elem) ==
      match Flatten(items[..k], elem)
      case Err(e) => Err(e)
      case Ok(init) =>
        match FlattenOne(items[k], elem)
        case Err(e) => Err(e)
        case Ok(last) => Ok(init + last)
  {
    assert items[..k + 1][..k] == items[..k];
  }

  /** Encoding one more parameter: the list's error, else the parameter's,
      else its scalars appended. */
  lemma EncodeSnoc(inputs: Value, ps: seq<Param>, p: Param)
    ensures Encode(inputs, ps + [p]) ==
      if Encode(inputs, ps).Err? then Encode(inputs, ps)
      else if EncodeParam(inputs, p).Err? then Err(EncodeParam(inputs, p).error)
      else Ok(Encode(inputs, ps).value + EncodeParam(inputs, p).value)
  {
    assert (ps + [p])[..|ps|] == ps;
  }

  /** One more parameter of the loop over the schema. */
  lemma EncodeStep(inputs: Value, params: seq<Param>, k: nat)
    requires k < |params|
    ensures Encode(inputs, params[..k + 1]) ==
      match Encode(inputs, params[..k])
      case Err(e) => Err(e)
      case Ok(init) =>
        match EncodeParam(inputs, params[k])
        case Err(e) => Err(e)
        case Ok(last) => Ok(init + last)
  {
    assert params[..k + 1][..k] == params[..k];
  }

  /** One more element of the loop over the flattened array. */
  lemma ElementsStep(flat: seq<Value>, name: string, j: nat)
    requires j < |flat|
    ensures EncodeElements(flat[..j + 1], name) ==
      match EncodeElements(flat[..j], name)
      case Err(e) => Err(e)
      case Ok(init) =>
        match EncodeElement(flat[j], name)
        case Err(e) => Err(e)
        case Ok(last) => Ok(init + [last])
  {
    assert flat[..j + 1][..j] == flat[..j];
  }
}
