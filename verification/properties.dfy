/** What the witness encoder of src/utils.ts promises its callers, proved
    about the functions of the Encoding module. */
module Properties {
  import opened Wrappers
  import opened Abi
  import opened HexFormat
  import opened Encoding

  // ---------------------------------------------------------------------
  // Schema order: the parameters' scalars are laid out one after another.
  // ---------------------------------------------------------------------

  /** Encoding two lists of parameters in a row is encoding their
      concatenation: the first failure in schema order wins, and on success
      the scalars follow schema-declaration order. */
  lemma {:induction false} EncodeConcat(inputs: Value, a: seq<Param>, b: seq<Param>)
    ensures var ra, rb := Encode(inputs, a), Encode(inputs, b);
      Encode(inputs, a + b) ==
        if ra.Err? then ra
        else if rb.Err? then rb
        else Ok(ra.value + rb.value)
    decreases |b|
  {
    if b == [] {
      assert a + b == a;
      var ra := Encode(inputs, a);
      if ra.Ok? {
        assert ra.value + [] == ra.value;
      }
    } else {
      var b', x := b[..|b| - 1], b[|b| - 1];
      assert a + b == (a + b') + [x] && b == b' + [x];
      EncodeConcat(inputs, a, b');
      EncodeSnoc(inputs, a + b', x);
      EncodeSnoc(inputs, b', x);
      var ra, rb', rx := Encode(inputs, a), Encode(inputs, b'), EncodeParam(inputs, x);
      if ra.Ok? && rb'.Ok? && rx.Ok? {
        ConcatAssoc(ra.value, rb'.value, rx.value);
      }
    }
  }

  lemma ConcatAssoc<T>(a: seq<T>, b: seq<T>, c: seq<T>)
    ensures a + b + c == a + (b + c)
  {
  }

  /** On success, the scalars of parameter `p` are the slice of the
      encoding that starts after all scalars of the parameters declared
      before it. */
  lemma EncodeSlot(inputs: Value, before: seq<Param>, p: Param, after: seq<Param>)
    requires Encode(inputs, before + [p] + after).Ok?
    ensures EncodeParam(inputs, p).Ok?
    ensures var all := Encode(inputs, before + [p] + after).value;
      var start := TotalLengthOf(before);
      start + |EncodeParam(inputs, p).value| <= |all| &&
      all[start..start + |EncodeParam(inputs, p).value|] == EncodeParam(inputs, p).value
  {
    EncodeConcat(inputs, before + [p], after);
    EncodeConcat(inputs, before, [p]);
    EncodeSingle(inputs, p);
    var vb := Encode(inputs, before).value;
    var vp := EncodeParam(inputs, p).value;
    var va := Encode(inputs, after).value;
    assert Encode(inputs, before + [p] + after).value == vb + vp + va;
    assert (vb + vp + va)[|vb|..|vb| + |vp|] == vp;
  }

  /** The `j`-th value of a slice starting at `from` sits at key
      `startIndex + from + j`. */
  lemma SliceInWitnessMap(all: seq<string>, from: nat, vals: seq<string>, startIndex: int, k: int)
    requires from + |vals| <= |all| && all[from..from + |vals|] == vals
    requires startIndex + from <= k < startIndex + from + |vals|
    ensures k in ToWitnessMap(startIndex, all)
    ensures ToWitnessMap(startIndex, all)[k] == vals[k - startIndex - from]
  {
    ToWitnessMapAt(startIndex, all, k);
    assert all[from..from + |vals|][k - startIndex - from] == all[k - startIndex];
  }

  /** The keys `first, first + 1, ...` of `m` hold `vals` in order. */
  predicate FilledFrom(m: map<int, string>, first: int, vals: seq<string>) {
    forall k :: first <= k < first + |vals| ==> k in m && m[k] == vals[k - first]
  }

  /** In the witness map, the scalars of parameter `p` fill the keys from
      `startIndex + TotalLengthOf(before)` on, in order, where `before` are
      the parameters declared ahead of it. */
  lemma ParameterSlot(inputs: Value, before: seq<Param>, p: Param, after: seq<Param>, startIndex: int)
    requires WitnessMap(inputs, Some(before + [p] + after), startIndex).Ok?
    ensures EncodeParam(inputs, p).Ok?
    ensures FilledFrom(WitnessMap(inputs, Some(before + [p] + after), startIndex).value,
                       startIndex + TotalLengthOf(before), EncodeParam(inputs, p).value)
  {
    var params := before + [p] + after;
    EncodeSlot(inputs, before, p, after);
    WitnessMapValues(inputs, params, startIndex);
    SliceKeys(WitnessMap(inputs, Some(params), startIndex).value, Encode(inputs, params).value,
      TotalLengthOf(before), EncodeParam(inputs, p).value, startIndex);
  }

  lemma SliceKeys(m: map<int, string>, all: seq<string>, from: nat, vals: seq<string>, startIndex: int)
    requires m == ToWitnessMap(startIndex, all)
    requires from + |vals| <= |all| && all[from..from + |vals|] == vals
    ensures FilledFrom(m, startIndex + from, vals)
  {
    var first := startIndex + from;
    forall k | first <= k < first + |vals|
      ensures k in m && m[k] == vals[k - first]
    {
      SliceInWitnessMap(all, from, vals, startIndex, k);
    }
  }

  /** The values do not depend on the start index: shifting it shifts the
      keys and nothing else. */
  lemma StartIndexShift(inputs: Value, parameters: Option<seq<Param>>, s: int, t: int)
    requires WitnessMap(inputs, parameters, s).Ok?
    ensures WitnessMap(inputs, parameters, t).Ok?
    ensures forall i :: s <= i < s + TotalLengthOf(parameters.value) ==>
      WitnessMap(inputs, parameters, t).value[i - s + t] == WitnessMap(inputs, parameters, s).value[i]
  {
    var vals := Encode(inputs, parameters.value).value;
    WitnessMapValues(inputs, parameters.value, s);
    WitnessMapValues(inputs, parameters.value, t);
    forall i | s <= i < s + TotalLengthOf(parameters.value)
      ensures WitnessMap(inputs, parameters, t).value[i - s + t] == WitnessMap(inputs, parameters, s).value[i]
    {
      ToWitnessMapAt(s, vals, i);
      ToWitnessMapAt(t, vals, i - s + t);
    }
  }

  // ---------------------------------------------------------------------
  // Lookup: only the schema's names are read, and presence comes first.
  // ---------------------------------------------------------------------

  predicate AgreeOn(m1: map<string, Value>, m2: map<string, Value>, name: string) {
    (name in m1 <==> name in m2) && (name in m1 ==> m1[name] == m2[name])
  }

  /** Input keys that the schema does not name are ignored: two inputs that
      agree on the parameters' names encode identically. */
  lemma {:induction false} ExtraKeysIgnored(m1: map<string, Value>, m2: map<string, Value>, params: seq<Param>)
    requires forall i :: 0 <= i < |params| ==> AgreeOn(m1, m2, params[i].name)
    ensures Encode(Obj(m1), params) == Encode(Obj(m2), params)
    decreases |params|
  {
    if params != [] {
      var p := params[|params| - 1];
      assert AgreeOn(m1, m2, p.name);
      ExtraKeysIgnored(m1, m2, params[..|params| - 1]);
      assert Property(Obj(m1), p.name) == Property(Obj(m2), p.name);
    }
  }

  /** A parameter absent from the inputs fails with MissingParameter,
      whatever its type, once every parameter before it has been encoded. */
  lemma MissingParameterFirst(inputs: map<string, Value>, params: seq<Param>, k: nat)
    requires k < |params| && params[k].name !in inputs
    requires Encode(Obj(inputs), params[..k]).Ok?
    ensures Encode(Obj(inputs), params) == Err(MissingParameter(params[k].name))
  {
    var error := MissingParameter(params[k].name);
    MissingParam(inputs, params[k]);
    EncodeStep(Obj(inputs), params, k);
    assert Encode(Obj(inputs), params[..k + 1]) == Err(error);
    EncodeErrorPersists(Obj(inputs), params, k + 1);
  }

  lemma MissingParam(inputs: map<string, Value>, p: Param)
    requires p.name !in inputs
    ensures EncodeParam(Obj(inputs), p) == Err(MissingParameter(p.name))
  {
    assert Property(Obj(inputs), p.name) == Ok(None);
  }

  /** No parameter list fails; an empty one yields an empty map. */
  lemma ParameterListRequired(inputs: Value, startIndex: int)
    ensures WitnessMap(inputs, None, startIndex) == Err(NoParameters)
    ensures WitnessMap(inputs, Some([]), startIndex) == Ok(map[])
  {
  }

  lemma UnknownParam(inputs: map<string, Value>, p: Param)
    requires p.typ.Unknown? && p.name in inputs
    ensures EncodeParam(Obj(inputs), p) == Err(UnsupportedType(p.typ.kind))
  {
    assert Property(Obj(inputs), p.name) == Ok(Some(inputs[p.name]));
  }

  /** A parameter of a kind outside the closed set, present in the inputs,
      fails with UnsupportedType naming its kind, once every parameter
      before it has been encoded. */
  lemma UnknownKindError(inputs: map<string, Value>, params: seq<Param>, k: nat)
    requires k < |params| && params[k].typ.Unknown? && params[k].name in inputs
    requires Encode(Obj(inputs), params[..k]).Ok?
    ensures Encode(Obj(inputs), params) == Err(UnsupportedType(params[k].typ.kind))
  {
    var p, error := params[k], UnsupportedType(params[k].typ.kind);
    UnknownParam(inputs, p);
    EncodeStep(Obj(inputs), params, k);
    assert Encode(Obj(inputs), params[..k + 1]) == Err(error);
    EncodeErrorPersists(Obj(inputs), params, k + 1);
  }

  // ---------------------------------------------------------------------
  // Per-kind behaviour of a single parameter, read back through the
  // hexadecimal decoder.
  // ---------------------------------------------------------------------

  lemma EncodeSingle(inputs: Value, p: Param)
    ensures Encode(inputs, [p]) == EncodeParam(inputs, p)
  {
    assert [p][..0] == [];
    var r := EncodeParam(inputs, p);
    if r.Ok? {
      assert [] + r.value == r.value;
    }
  }

  /** A `field`/`integer` parameter: a number is refused above 64 bits and
      otherwise becomes one scalar that reads back as the number; a string
      is kept verbatim when it starts with `0x` and refused otherwise; any
      other value is refused. */
  lemma ScalarParameter(inputs: map<string, Value>, name: string, t: Type)
    requires t.Field? || t.Integer?
    requires name in inputs
    ensures var r := Encode(Obj(inputs), [Param(name, t)]);
      var v := inputs[name];
      if v.Num? then
        if t.width.Some? && t.width.value > 64 then r == Err(UnsupportedWidth(name))
        else r.Ok? && |r.value| == 1 && DecodeScalar(r.value[0]) == Some(v.n)
      else if v.Text? then
        r == (if HasHexPrefix(v.s) then Ok([v.s]) else Err(ExpectedHex(name)))
      else r == Err(ExpectedInteger(name))
  {
    EncodeSingle(Obj(inputs), Param(name, t));
    if inputs[name].Num? {
      ScalarRoundTrip(inputs[name].n);
    }
  }

  /** A top-level `string` parameter: refused unless its length is exactly
      the declared one; then one scalar per character, left to right, each
      reading back as that character's code. */
  lemma StringParameter(inputs: map<string, Value>, name: string, len: nat)
    requires name in inputs
    ensures var r := Encode(Obj(inputs), [Param(name, Str(len))]);
      var v := inputs[name];
      if !v.Text? then r == Err(ExpectedString(name))
      else if |v.s| != len then r == Err(StringLengthMismatch(name, len, |v.s|))
      else
        r.Ok? && |r.value| == len &&
        forall i :: 0 <= i < len ==> DecodeScalar(r.value[i]) == Some(Code(v.s[i]) as int)
  {
    EncodeSingle(Obj(inputs), Param(name, Str(len)));
    if inputs[name].Text? && |inputs[name].s| == len {
      var s := inputs[name].s;
      forall i | 0 <= i < len
        ensures DecodeScalar(HexCodes(s)[i]) == Some(Code(s[i]) as int)
      {
        ScalarRoundTrip(Code(s[i]));
      }
    }
  }

  /** A `struct` parameter given an object: the fields' scalars, in field
      order, exactly the struct's total length of them; anything else that
      is not an object is refused. */
  lemma StructParameter(inputs: map<string, Value>, name: string, fields: seq<Param>)
    requires name in inputs
    ensures var r := Encode(Obj(inputs), [Param(name, Struct(fields))]);
      if inputs[name].Obj? then r == Encode(inputs[name], fields)
      else r == Err(ExpectedStruct(name))
  {
    EncodeSingle(Obj(inputs), Param(name, Struct(fields)));
  }

  /** An `array` parameter: refused unless the value is an array whose
      flattening has exactly the type's total length; nesting is not checked
      otherwise. */
  lemma ArrayParameter(inputs: map<string, Value>, name: string, len: nat, elem: Type)
    requires name in inputs
    ensures var r := Encode(Obj(inputs), [Param(name, Array(len, elem))]);
      if !inputs[name].Arr? then r == Err(ExpectedArray(name))
      else
        var f := Flatten(inputs[name].items, elem);
        if f.Err? then r == Err(f.error)
        else if |f.value| != len * TotalLength(elem) then r == Err(ArrayLengthMismatch(name, len, |f.value|))
        else r == EncodeElements(f.value, name)
  {
    EncodeSingle(Obj(inputs), Param(name, Array(len, elem)));
  }

  /** A parameter of a kind outside the closed set makes the whole
      encoding fail, wherever it stands in the schema. */
  lemma UnknownKindRejected(inputs: Value, params: seq<Param>, k: nat)
    requires k < |params| && params[k].typ.Unknown?
    ensures Encode(inputs, params).Err?
  {
    EncodeStep(inputs, params, k);
    EncodeErrorPersists(inputs, params, k + 1);
  }

  // ---------------------------------------------------------------------
  // Well-shaped inputs are accepted, and the total length counts them.
  // ---------------------------------------------------------------------

  /** A value of exactly the shape its type describes, with every number
      within the width limit and every string scalar `0x`-prefixed. */
  predicate Valid(v: Value, t: Type)
    decreases t, 1
  {
    match t
    case Field(width) => ValidScalar(v, width)
    case Integer(width) => ValidScalar(v, width)
    case Array(len, elem) => v.Arr? && |v.items| == len && forall i :: 0 <= i < |v.items| ==> Valid(v.items[i], elem)
    case Str(len) => v.Text? && |v.s| == len
    case Struct(fields) => v.Obj? && ValidFields(v.entries, fields)
    case Unknown(_) => false
  }

  predicate ValidScalar(v: Value, width: Option<nat>) {
    (v.Num? && !(width.Some? && width.value > 64)) || (v.Text? && HasHexPrefix(v.s))
  }

  predicate ValidFields(entries: map<string, Value>, fields: seq<Param>)
    decreases fields, 0
  {
    forall i :: 0 <= i < |fields| ==> fields[i].name in entries && Valid(entries[fields[i].name], fields[i].typ)
  }

  /** What the loop over a flattened array accepts. */
  predicate Encodable(x: Value) {
    x.Num? || (x.Text? && HasHexPrefix(x.s))
  }

  lemma ElementOk(x: Value, name: string)
    ensures EncodeElement(x, name).Ok? <==> Encodable(x)
  {
  }

  /** The loop over a flattened array succeeds exactly when every element
      is a number or a `0x` string. */
  lemma {:induction false} EncodeElementsOk(flat: seq<Value>, name: string)
    ensures EncodeElements(flat, name).Ok? <==> forall j :: 0 <= j < |flat| ==> Encodable(flat[j])
    decreases |flat|
  {
    if flat != [] {
      var init, x := flat[..|flat| - 1], flat[|flat| - 1];
      EncodeElementsOk(init, name);
      var ri, rx := EncodeElements(init, name), EncodeElement(x, name);
      ElementOk(x, name);
      if ri.Ok? && rx.Ok? {
        assert EncodeElements(flat, name).Ok?;
        forall j | 0 <= j < |flat|
          ensures Encodable(flat[j])
        {
          if j < |init| {
            assert flat[j] == init[j];
          } else {
            assert flat[j] == x;
          }
        }
      } else {
        assert EncodeElements(flat, name).Err?;
        if ri.Err? {
          var j :| 0 <= j < |init| && !Encodable(init[j]);
          assert flat[j] == init[j];
        } else {
          assert !Encodable(flat[|flat| - 1]);
        }
      }
    }
  }

  /** On success, the j-th scalar is the j-th element's rendering. */
  lemma {:induction false} EncodeElementsValues(flat: seq<Value>, name: string)
    requires EncodeElements(flat, name).Ok?
    ensures forall j :: 0 <= j < |flat| ==>
      EncodeElement(flat[j], name).Ok? && EncodeElements(flat, name).value[j] == EncodeElement(flat[j], name).value
    decreases |flat|
  {
    if flat != [] {
      var init, x := flat[..|flat| - 1], flat[|flat| - 1];
      var vs, last := EncodeElements(init, name).value, EncodeElement(x, name).value;
      EncodeElementsValues(init, name);
      var all := EncodeElements(flat, name).value;
      assert all == vs + [last];
      forall j | 0 <= j < |flat|
        ensures EncodeElement(flat[j], name).Ok? && all[j] == EncodeElement(flat[j], name).value
      {
        if j < |init| {
          assert flat[j] == init[j] && all[j] == vs[j];
        } else {
          assert flat[j] == x && all[j] == last;
        }
      }
    }
  }

  /** A flattened number's scalar reads back as the number, whatever its
      size: array elements get no width check. */
  lemma NumberElementRoundTrip(x: Value, name: string)
    requires x.Num?
    ensures EncodeElement(x, name).Ok? && DecodeScalar(EncodeElement(x, name).value) == Some(x.n)
  {
    ScalarRoundTrip(x.n);
  }

  /** On success, each scalar of a flattened array gives back its element:
      a number through the hexadecimal reader, a `0x` string verbatim. */
  lemma ElementsReadBack(flat: seq<Value>, name: string)
    requires EncodeElements(flat, name).Ok?
    ensures forall j :: 0 <= j < |flat| && flat[j].Num? ==>
      DecodeScalar(EncodeElements(flat, name).value[j]) == Some(flat[j].n)
    ensures forall j :: 0 <= j < |flat| && flat[j].Text? ==> EncodeElements(flat, name).value[j] == flat[j].s
  {
    var all := EncodeElements(flat, name).value;
    EncodeElementsValues(flat, name);
    forall j | 0 <= j < |flat| && flat[j].Num?
      ensures DecodeScalar(all[j]) == Some(flat[j].n)
    {
      NumberElementRoundTrip(flat[j], name);
    }
  }

  lemma {:induction false} EncodeElementsAccept(flat: seq<Value>, name: string)
    requires forall j :: 0 <= j < |flat| ==> Encodable(flat[j])
    ensures EncodeElements(flat, name).Ok?
    decreases |flat|
  {
    if flat != [] {
      EncodeElementsAccept(flat[..|flat| - 1], name);
    }
  }

  /** Inputs that match the schema are always accepted (and, by Encode's
      contract, yield exactly TotalLengthOf(params) scalars). */
  lemma {:induction false} EncodeAcceptsValid(entries: map<string, Value>, params: seq<Param>)
    requires ValidFields(entries, params)
    ensures Encode(Obj(entries), params).Ok?
    decreases params, 1
  {
    if params != [] {
      var init := params[..|params| - 1];
      assert forall i :: 0 <= i < |init| ==> init[i] == params[i];
      EncodeAcceptsValid(entries, init);
      EncodeParamAcceptsValid(entries, params[|params| - 1]);
    }
  }

  lemma {:induction false} EncodeParamAcceptsValid(entries: map<string, Value>, p: Param)
    requires p.name in entries && Valid(entries[p.name], p.typ)
    ensures EncodeParam(Obj(entries), p).Ok?
    decreases p, 0
  {
    var v := entries[p.name];
    match p.typ
    case Array(len, elem) =>
      FlattenValid(v.items, elem);
      EncodeElementsAccept(Flatten(v.items, elem).value, p.name);
    case Struct(fields) =>
      EncodeAcceptsValid(v.entries, fields);
    case _ =>
  }

  /** A well-shaped array flattens to exactly its element count times the
      element type's total length, all of it acceptable to the encoder:
      the total length of a type counts the scalars a value of it
      occupies. */
  lemma {:induction false} FlattenValid(items: seq<Value>, elem: Type)
    requires forall i :: 0 <= i < |items| ==> Valid(items[i], elem)
    ensures Flatten(items, elem).Ok?
    ensures |Flatten(items, elem).value| == |items| * TotalLength(elem)
    ensures forall j :: 0 <= j < |Flatten(items, elem).value| ==> Encodable(Flatten(items, elem).value[j])
    decreases elem, 1, |items|
  {
    if items != [] {
      var init := items[..|items| - 1];
      assert forall i :: 0 <= i < |init| ==> init[i] == items[i];
      FlattenValid(init, elem);
      FlattenOneValid(items[|items| - 1], elem);
      assert (|items| - 1) * TotalLength(elem) + TotalLength(elem) == |items| * TotalLength(elem);
    }
  }

  lemma {:induction false} FlattenOneValid(v: Value, elem: Type)
    requires Valid(v, elem)
    ensures FlattenOne(v, elem).Ok?
    ensures |FlattenOne(v, elem).value| == TotalLength(elem)
    ensures forall j :: 0 <= j < |FlattenOne(v, elem).value| ==> Encodable(FlattenOne(v, elem).value[j])
    decreases elem, 0
  {
    match elem
    case Array(len, e) =>
      FlattenValid(v.items, e);
    case Struct(fields) =>
      EncodeAcceptsValid(v.entries, fields);
    case _ =>
  }

  /** The whole encoder accepts well-shaped inputs, with keys exactly the
      range of the schema's total length from the start index. */
  lemma WitnessMapAcceptsValid(entries: map<string, Value>, params: seq<Param>, startIndex: int)
    requires ValidFields(entries, params)
    ensures WitnessMap(Obj(entries), Some(params), startIndex).Ok?
    ensures forall i :: i in WitnessMap(Obj(entries), Some(params), startIndex).value <==>
      startIndex <= i < startIndex + TotalLengthOf(params)
  {
    EncodeAcceptsValid(entries, params);
  }
}
