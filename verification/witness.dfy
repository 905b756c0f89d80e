/** The two loops of src/utils.ts as methods, each proved to compute its
    specification function in the Encoding module. */
module WitnessEncoder {
  import opened Wrappers
  import opened Abi
  import opened HexFormat
  import opened Encoding

  function ParamsOf(parameters: Option<seq<Param>>): seq<Param> {
    if parameters.Some? then parameters.value else []
  }

  /** flattenMultiDimensionalArray (src/utils.ts:21-48): walks the input
      array depth-first, pushing onto `flattened`. */
  method FlattenMultiDimensionalArray(items: seq<Value>, elementType: Type) returns (r: Result<seq<Value>, Error>)
    ensures r == Flatten(items, elementType)
    decreases elementType, 1
  {
    var flattened: seq<Value> := [];
    for k := 0 to |items|
      invariant Flatten(items[..k], elementType) == Ok(flattened)
    {
      var element := items[k];
      FlattenLoopStep(items, elementType, k, flattened);
      if element.Arr? {
        if elementType.Array? {
          var inner := FlattenMultiDimensionalArray(element.items, elementType.elem);
          if inner.Err? {
            return inner;
          }
          flattened := flattened + inner.value;
        } else if element.items != [] {
          // the element type has no element type to descend into
          return Err(NestedTooDeep);
        } else {
          assert flattened + [] == flattened;
        }
      } else if elementType.Str? && element.Text? {
        flattened := PushPadded(flattened, element.s, elementType.len);
      } else if elementType.Struct? {
        var m := GenerateWitnessMap(element, Some(elementType.fields), 0);
        if m.Err? {
          return Err(m.error);
        }
        WitnessMapValues(element, elementType.fields, 0);
        flattened := PushEntries(flattened, m.value, Encode(element, elementType.fields).value);
      } else {
        flattened := flattened + [element];
      }
    }
    assert items[..|items|] == items;
    return Ok(flattened);
  }

  /** One more element of the loop over the input array: its error ends
      the flattening, its values extend it. */
  lemma FlattenLoopStep(items: seq<Value>, elem: Type, k: nat, before: seq<Value>)
    requires k < |items| && Flatten(items[..k], elem) == Ok(before)
    ensures var e := FlattenOne(items[k], elem);
      (e.Err? ==> Flatten(items, elem) == Err(e.error)) &&
      (e.Ok? ==> Flatten(items[..k + 1], elem) == Ok(before + e.value))
  {
    FlattenStep(items, elem, k);
    if FlattenOne(items[k], elem).Err? {
      FlattenErrorPersists(items, elem, k + 1);
    }
  }

  /** The padding loop (src/utils.ts:29-36): the string's character codes,
      then zeros, up to the declared length. */
  method PushPadded(flattened: seq<Value>, s: string, length: nat) returns (r: seq<Value>)
    ensures r == flattened + PadCodes(s, length)
  {
    ghost var padded := PadCodes(s, length);
    r := flattened;
    for i := 0 to length
      invariant r == flattened + padded[..i]
    {
      assert padded[..i + 1] == padded[..i] + [padded[i]];
      if i < |s| {
        r := r + [Num(Code(s[i]))];
      } else {
        // pad with 0 when the string is shorter than the declared length
        r := r + [Num(0)];
      }
    }
    assert padded[..length] == padded;
  }

  /** The loop over a struct element's witness map (src/utils.ts:39-41):
      its values in key order, which is their insertion order. */
  method PushEntries(flattened: seq<Value>, m: map<int, string>, ghost vals: seq<string>) returns (r: seq<Value>)
    requires m == ToWitnessMap(0, vals)
    ensures r == flattened + Texts(vals)
  {
    ghost var texts := Texts(vals);
    AppendKeys(map[], 0, vals);
    r := flattened;
    var key := 0;
    while key in m
      invariant 0 <= key <= |vals|
      invariant r == flattened + texts[..key]
      decreases |vals| - key
    {
      assert texts[..key + 1] == texts[..key] + [Text(vals[key])];
      r := r + [Text(m[key])];
      key := key + 1;
    }
    assert texts[..key] == texts;
  }

  /** What writing one parameter's scalars into `witnessMap` from `index`
      leaves behind: the extended map and the next free index, or the
      parameter's error. */
  function Step(witnessMap: map<int, string>, index: int, e: Result<seq<string>, Error>): Result<(map<int, string>, int), Error> {
    match e
    case Err(error) => Err(error)
    case Ok(vals) => Ok((Append(witnessMap, index, vals), index + |vals|))
  }

  /** generateWitnessMap (src/utils.ts:81-200): fills the witness map
      parameter by parameter in schema order, advancing `index` once per
      scalar. */
  method GenerateWitnessMap(inputs: Value, parameters: Option<seq<Param>>, startIndex: int)
    returns (r: Result<map<int, string>, Error>)
    ensures r == WitnessMap(inputs, parameters, startIndex)
    decreases ParamsOf(parameters), 2
  {
    if parameters.None? {
      return Err(NoParameters);
    }
    var params := parameters.value;
    var witnessMap: map<int, string> := map[];
    var index := startIndex;
    ghost var vals: seq<string> := [];

    for k := 0 to |params|
      invariant Encode(inputs, params[..k]) == Ok(vals)
      invariant witnessMap == ToWitnessMap(startIndex, vals)
      invariant index == startIndex + |vals|
    {
      var parameter := params[k];
      var step := SetParameter(inputs, parameter, witnessMap, index);
      ParameterLoopStep(inputs, params, k, startIndex, vals, witnessMap, index);
      if step.Err? {
        return Err(step.error);
      }
      witnessMap, index := step.value.0, step.value.1;
      vals := vals + EncodeParam(inputs, parameter).value;
    }
    assert params[..|params|] == params;
    return Ok(witnessMap);
  }

  /** One more parameter of the loop over the schema: its error is the
      whole call's error, its scalars extend the map at the next index. */
  lemma ParameterLoopStep(inputs: Value, params: seq<Param>, k: nat, startIndex: int, vals: seq<string>,
                          witnessMap: map<int, string>, index: int)
    requires k < |params| && Encode(inputs, params[..k]) == Ok(vals)
    requires witnessMap == ToWitnessMap(startIndex, vals) && index == startIndex + |vals|
    ensures var e := EncodeParam(inputs, params[k]);
      (e.Err? ==> WitnessMap(inputs, Some(params), startIndex) == Err(e.error)) &&
      (e.Ok? ==>
        Encode(inputs, params[..k + 1]) == Ok(vals + e.value) &&
        Step(witnessMap, index, e) == Ok((ToWitnessMap(startIndex, vals + e.value), startIndex + |vals + e.value|)))
  {
    EncodeStep(inputs, params, k);
    var e := EncodeParam(inputs, params[k]);
    if e.Err? {
      EncodeErrorPersists(inputs, params, k + 1);
    } else {
      AppendAfter(startIndex, vals, witnessMap, index, e.value);
    }
  }

  /** Writing more values from the next free index extends the map. */
  lemma AppendAfter(startIndex: int, vals: seq<string>, witnessMap: map<int, string>, index: int, more: seq<string>)
    requires witnessMap == ToWitnessMap(startIndex, vals) && index == startIndex + |vals|
    ensures Append(witnessMap, index, more) == ToWitnessMap(startIndex, vals + more)
  {
    AppendConcat(map[], startIndex, vals, more);
  }

  /** The body of the loop over the parameters (src/utils.ts:94-196): the
      value is looked up first, then handled by the parameter's kind. */
  method SetParameter(inputs: Value, parameter: Param, witnessMap: map<int, string>, index: int)
    returns (step: Result<(map<int, string>, int), Error>)
    ensures step == Step(witnessMap, index, EncodeParam(inputs, parameter))
    decreases parameter, 4
  {
    var found := Property(inputs, parameter.name);
    if found.Err? {
      return Err(found.error);
    }
    if found.value.None? {
      return Err(MissingParameter(parameter.name));
    }
    var value := found.value.value;
    match parameter.typ {
      case Field(width) =>
        step := SetScalar(value, width, parameter.name, witnessMap, index);
      case Integer(width) =>
        step := SetScalar(value, width, parameter.name, witnessMap, index);
      case Array(len, elem) =>
        step := SetArray(value, len, elem, parameter.name, witnessMap, index);
      case Struct(fields) =>
        step := SetStruct(value, fields, parameter.name, witnessMap, index);
      case Str(len) =>
        step := SetString(value, len, parameter.name, witnessMap, index);
      case Unknown(kind) =>
        step := Err(UnsupportedType(kind));
    }
  }


  /** The `field`/`integer` case (src/utils.ts:101-124). */
  method SetScalar(value: Value, width: Option<nat>, name: string, witnessMap: map<int, string>, index: int)
    returns (r: Result<(map<int, string>, int), Error>)
    ensures r == Step(witnessMap, index, EncodeScalar(value, width, name))
  {
    if value.Num? {
      if width.Some? && width.value > 64 {
        return Err(UnsupportedWidth(name));
      }
      AppendSnoc(witnessMap, index, [], "0x" + Hex(value.n));
      return Ok((witnessMap[index := "0x" + Hex(value.n)], index + 1));
    } else if value.Text? {
      if !HasHexPrefix(value.s) {
        return Err(ExpectedHex(name));
      }
      AppendSnoc(witnessMap, index, [], value.s);
      return Ok((witnessMap[index := value.s], index + 1));
    } else {
      return Err(ExpectedInteger(name));
    }
  }

  /** The `array` case (src/utils.ts:126-160). */
  method SetArray(value: Value, len: nat, elem: Type, name: string, witnessMap: map<int, string>, index: int)
    returns (r: Result<(map<int, string>, int), Error>)
    ensures r == Step(witnessMap, index, EncodeArray(value, len, elem, name))
    decreases elem, 2
  {
    if !value.Arr? {
      return Err(ExpectedArray(name));
    }
    var flattened := FlattenMultiDimensionalArray(value.items, elem);
    if flattened.Err? {
      return Err(flattened.error);
    }
    var flat := flattened.value;
    var totalLength := TotalLength(Array(len, elem));
    if |flat| != totalLength {
      return Err(ArrayLengthMismatch(name, len, |flat|));
    }
    r := SetElements(flat, name, witnessMap, index);
  }

  /** The loop over the flattened elements (src/utils.ts:139-154): numbers
      with no width check, strings only with the `0x` prefix. */
  method SetElements(flat: seq<Value>, name: string, witnessMap: map<int, string>, index: int)
    returns (r: Result<(map<int, string>, int), Error>)
    ensures r == Step(witnessMap, index, EncodeElements(flat, name))
  {
    var m, i := witnessMap, index;
    ghost var added: seq<string> := [];
    for j := 0 to |flat|
      invariant EncodeElements(flat[..j], name) == Ok(added)
      invariant m == Append(witnessMap, index, added)
      invariant i == index + |added|
    {
      ElementLoopStep(flat, name, j, witnessMap, index, added, m, i);
      var element, text := flat[j], "";
      if element.Num? {
        text := "0x" + Hex(element.n);
      } else if element.Text? {
        if !HasHexPrefix(element.s) {
          return Err(ArrayElementNotHex(name));
        }
        text := element.s;
      } else {
        return Err(UnexpectedArrayElement(name));
      }
      m := m[i := text];
      i := i + 1;
      added := added + [text];
    }
    assert flat[..|flat|] == flat;
    return Ok((m, i));
  }

  /** One more element of the loop over the flattened array: its error is
      the array's error, its scalar is set at the next index. */
  lemma ElementLoopStep(flat: seq<Value>, name: string, j: nat, witnessMap: map<int, string>, index: int,
                         added: seq<string>, m: map<int, string>, i: int)
    requires j < |flat| && EncodeElements(flat[..j], name) == Ok(added)
    requires m == Append(witnessMap, index, added) && i == index + |added|
    ensures var e := EncodeElement(flat[j], name);
      (e.Err? ==> Step(witnessMap, index, EncodeElements(flat, name)) == Err(e.error)) &&
      (e.Ok? ==>
        EncodeElements(flat[..j + 1], name) == Ok(added + [e.value]) &&
        m[i := e.value] == Append(witnessMap, index, added + [e.value]))
  {
    ElementsStep(flat, name, j);
    var e := EncodeElement(flat[j], name);
    if e.Err? {
      EncodeElementsErrorPersists(flat, name, j + 1);
    } else {
      AppendNext(witnessMap, index, added, m, i, e.value);
    }
  }

  /** The `struct` case (src/utils.ts:162-172): the fields are encoded from
      the current index and their entries copied across in order. */
  method SetStruct(value: Value, fields: seq<Param>, name: string, witnessMap: map<int, string>, index: int)
    returns (r: Result<(map<int, string>, int), Error>)
    ensures r == Step(witnessMap, index, EncodeStruct(value, fields, name))
    decreases fields, 3
  {
    if !value.Obj? {
      return Err(ExpectedStruct(name));
    }
    var structWitness := GenerateWitnessMap(value, Some(fields), index);
    if structWitness.Err? {
      return Err(structWitness.error);
    }
    ghost var sub := Encode(value, fields).value;
    AppendKeys(map[], index, sub);
    var m, i := witnessMap, index;
    // entries are visited in key order, which is their insertion order
    while i in structWitness.value
      invariant index <= i <= index + |sub|
      invariant m == Append(witnessMap, index, sub[..i - index])
      decreases index + |sub| - i
    {
      assert sub[..i - index + 1] == sub[..i - index] + [sub[i - index]];
      AppendNext(witnessMap, index, sub[..i - index], m, i, structWitness.value[i]);
      m := m[i := structWitness.value[i]];
      i := i + 1;
    }
    assert sub[..i - index] == sub;
    return Ok((m, i));
  }

  /** The `string` case (src/utils.ts:174-188). */
  method SetString(value: Value, len: nat, name: string, witnessMap: map<int, string>, index: int)
    returns (r: Result<(map<int, string>, int), Error>)
    ensures r == Step(witnessMap, index, EncodeString(value, len, name))
  {
    if !value.Text? {
      return Err(ExpectedString(name));
    }
    if |value.s| != len {
      return Err(StringLengthMismatch(name, len, |value.s|));
    }
    var m, i := witnessMap, index;
    for j := 0 to |value.s|
      invariant m == Append(witnessMap, index, HexCodes(value.s)[..j])
      invariant i == index + j
    {
      assert HexCodes(value.s)[..j + 1] == HexCodes(value.s)[..j] + ["0x" + HexNat(Code(value.s[j]))];
      AppendNext(witnessMap, index, HexCodes(value.s)[..j], m, i, "0x" + HexNat(Code(value.s[j])));
      m := m[i := "0x" + HexNat(Code(value.s[j]))];
      i := i + 1;
    }
    assert HexCodes(value.s)[..|value.s|] == HexCodes(value.s);
    return Ok((m, i));
  }
}
