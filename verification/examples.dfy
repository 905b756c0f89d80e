/** Concrete encodings: the documented behaviour on small inputs, and the
    two places where the encoder checks less than the schema says. */
module Examples {
  import opened Wrappers
  import opened Abi
  import opened HexFormat
  import opened Encoding
  import opened Properties

  predicate AllNumbers(xs: seq<Value>) {
    forall i :: 0 <= i < |xs| ==> xs[i].Num?
  }

  /** The numbers of `xs` written as the encoder writes them. */
  function Rendered(xs: seq<Value>): seq<string>
    requires AllNumbers(xs)
  {
    if xs == [] then [] else Rendered(xs[..|xs| - 1]) + ["0x" + Hex(xs[|xs| - 1].n)]
  }

  lemma RenderedSnoc(xs: seq<Value>, x: Value)
    requires AllNumbers(xs) && x.Num?
    ensures AllNumbers(xs + [x]) && Rendered(xs + [x]) == Rendered(xs) + ["0x" + Hex(x.n)]
  {
    assert (xs + [x])[..|xs|] == xs;
  }

  lemma RenderedOne(a: int)
    ensures Rendered([Num(a)]) == ["0x" + Hex(a)]
  {
    assert [Num(a)][..0] == [];
  }

  /** Four numbers, rendered in order. */
  lemma RenderedFour(a: int, b: int, c: int, d: int)
    ensures Rendered([Num(a), Num(b), Num(c), Num(d)]) == ["0x" + Hex(a), "0x" + Hex(b), "0x" + Hex(c), "0x" + Hex(d)]
  {
    var s1 := [Num(a)];
    RenderedOne(a);
    var s2 := s1 + [Num(b)];
    RenderedSnoc(s1, Num(b));
    var s3 := s2 + [Num(c)];
    RenderedSnoc(s2, Num(c));
    RenderedSnoc(s3, Num(d));
    assert s3 + [Num(d)] == [Num(a), Num(b), Num(c), Num(d)];
  }

  /** Numbers pass through flattening unchanged whatever the element type,
      unless it is a struct: nesting depth is never compared with the type. */
  lemma {:induction false} FlattenNumbers(xs: seq<Value>, elem: Type)
    requires AllNumbers(xs) && !elem.Struct?
    ensures Flatten(xs, elem) == Ok(xs)
    decreases |xs|
  {
    if xs != [] {
      FlattenNumbers(xs[..|xs| - 1], elem);
      assert xs[..|xs| - 1] + [xs[|xs| - 1]] == xs;
    }
  }

  lemma {:induction false} EncodeNumbers(xs: seq<Value>, name: string)
    requires AllNumbers(xs)
    ensures EncodeElements(xs, name) == Ok(Rendered(xs))
    decreases |xs|
  {
    if xs != [] {
      var init, x := xs[..|xs| - 1], xs[|xs| - 1];
      assert AllNumbers(init);
      EncodeNumbers(init, name);
      assert EncodeElement(x, name) == Ok("0x" + Hex(x.n));
    }
  }

  /** An array parameter accepts a flat list of numbers of the right total
      count for any element type but a struct: the nesting is checked only
      by the count, and numbers inside arrays get no width check. */
  lemma FlatNumbersAccepted(name: string, len: nat, elem: Type, xs: seq<Value>)
    requires AllNumbers(xs) && !elem.Struct?
    requires |xs| == len * TotalLength(elem)
    ensures Encode(Obj(map[name := Arr(xs)]), [Param(name, Array(len, elem))]) == Ok(Rendered(xs))
  {
    EncodeSingle(Obj(map[name := Arr(xs)]), Param(name, Array(len, elem)));
    FlattenNumbers(xs, elem);
    EncodeNumbers(xs, name);
  }

  /** A list of numbers of the right total count encodes the same for an
      `m`-array of `n`-arrays and for an `m * n`-array of the same element
      type. */
  lemma NestedAsFlat(name: string, m: nat, n: nat, e: Type, xs: seq<Value>)
    requires AllNumbers(xs) && !e.Struct?
    requires |xs| == TotalLength(Array(m, Array(n, e)))
    ensures Encode(Obj(map[name := Arr(xs)]), [Param(name, Array(m, Array(n, e)))])
      == Encode(Obj(map[name := Arr(xs)]), [Param(name, Array(m * n, e))])
  {
    NestedArrayLength(m, n, e);
    FlatNumbersAccepted(name, m, Array(n, e), xs);
    FlatNumbersAccepted(name, m * n, e, xs);
  }

  const Matrix := Array(2, Array(2, Field(None)))

  lemma SmallHex()
    ensures "0x" + Hex(1) == "0x1" && "0x" + Hex(2) == "0x2" && "0x" + Hex(3) == "0x3"
    ensures "0x" + Hex(4) == "0x4" && "0x" + Hex(5) == "0x5" && "0x" + Hex(0) == "0x0"
    ensures "0x" + Hex(255) == "0xff" && "0x" + Hex(97) == "0x61" && "0x" + Hex(98) == "0x62"
  {
    assert HexNat(1) == "1" && HexNat(2) == "2" && HexNat(3) == "3" && HexNat(4) == "4";
    assert HexNat(5) == "5" && HexNat(0) == "0";
    assert HexNat(15) == "f" && HexNat(6) == "6";
    assert HexNat(255) == "ff" && HexNat(97) == "61" && HexNat(98) == "62";
  }

  /** An array parameter's encoding depends on its value only through the
      flattening: two inputs that flatten alike encode alike. */
  lemma FlatteningDecides(name: string, len: nat, elem: Type, a: seq<Value>, b: seq<Value>)
    requires Flatten(a, elem) == Flatten(b, elem)
    ensures Encode(Obj(map[name := Arr(a)]), [Param(name, Array(len, elem))])
      == Encode(Obj(map[name := Arr(b)]), [Param(name, Array(len, elem))])
  {
    EncodeSingle(Obj(map[name := Arr(a)]), Param(name, Array(len, elem)));
    EncodeSingle(Obj(map[name := Arr(b)]), Param(name, Array(len, elem)));
  }

  /** Two rows of numbers flatten to the first row followed by the second. */
  lemma FlattenTwoRows(r1: seq<Value>, r2: seq<Value>, n: nat, e: Type)
    requires AllNumbers(r1) && AllNumbers(r2) && !e.Struct?
    ensures Flatten([Arr(r1), Arr(r2)], Array(n, e)) == Ok(r1 + r2)
  {
    var rows := [Arr(r1), Arr(r2)];
    FlattenNumbers(r1, e);
    FlattenNumbers(r2, e);
    assert FlattenOne(rows[0], Array(n, e)) == Ok(r1);
    assert FlattenOne(rows[1], Array(n, e)) == Ok(r2);
    FlattenStep(rows, Array(n, e), 0);
    FlattenStep(rows, Array(n, e), 1);
    assert rows[..0] == [] && [] + r1 == r1;
    assert rows[..2] == rows;
  }

  /** The rows of a 2 x 2 matrix flatten to its four entries, row by row. */
  lemma MatrixRowsFlatten()
    ensures Flatten([Arr([Num(1), Num(2)]), Arr([Num(3), Num(4)])], Array(2, Field(None)))
      == Ok([Num(1), Num(2), Num(3), Num(4)])
  {
    var r1, r2 := [Num(1), Num(2)], [Num(3), Num(4)];
    FlattenTwoRows(r1, r2, 2, Field(None));
    assert r1 + r2 == [Num(1), Num(2), Num(3), Num(4)];
  }

  /** The flat entries of a 2 x 2 matrix, given flat. */
  lemma MatrixFlat()
    ensures Encode(Obj(map["a" := Arr([Num(1), Num(2), Num(3), Num(4)])]), [Param("a", Matrix)])
      == Ok(["0x1", "0x2", "0x3", "0x4"])
  {
    SmallHex();
    RenderedFour(1, 2, 3, 4);
    FlatNumbersAccepted("a", 2, Array(2, Field(None)), [Num(1), Num(2), Num(3), Num(4)]);
  }

  /** The same witness for a 2 x 2 matrix given nested or flat. */
  lemma MatrixExamples()
    ensures Encode(Obj(map["a" := Arr([Arr([Num(1), Num(2)]), Arr([Num(3), Num(4)])])]), [Param("a", Matrix)])
      == Ok(["0x1", "0x2", "0x3", "0x4"])
    ensures Encode(Obj(map["a" := Arr([Num(1), Num(2), Num(3), Num(4)])]), [Param("a", Matrix)])
      == Ok(["0x1", "0x2", "0x3", "0x4"])
  {
    var flat := [Num(1), Num(2), Num(3), Num(4)];
    var rows := [Arr([Num(1), Num(2)]), Arr([Num(3), Num(4)])];
    MatrixRowsFlatten();
    FlattenNumbers(flat, Matrix.elem);
    FlatteningDecides("a", 2, Matrix.elem, rows, flat);
    MatrixFlat();
  }

  /** A number for a 128-bit field is refused as a parameter and accepted
      as an element of an array: only flattened array elements skip the
      width check. */
  lemma WidthNotCheckedOnArrayElements()
    ensures Encode(Obj(map["x" := Num(5)]), [Param("x", Field(Some(128)))]) == Err(UnsupportedWidth("x"))
    ensures Encode(Obj(map["x" := Arr([Num(5)])]), [Param("x", Array(1, Field(Some(128))))]) == Ok(["0x5"])
  {
    SmallHex();
    EncodeSingle(Obj(map["x" := Num(5)]), Param("x", Field(Some(128))));
    FlatNumbersAccepted("x", 1, Field(Some(128)), [Num(5)]);
    RenderedOne(5);
  }

  /** A 128-bit field of a struct inside an array is still refused: the
      struct is encoded by the whole encoder, width check included. */
  lemma WidthCheckedInStructElements()
    ensures Encode(Obj(map["a" := Arr([Obj(map["x" := Num(5)])])]),
                   [Param("a", Array(1, Struct([Param("x", Field(Some(128)))])))])
      == Err(UnsupportedWidth("x"))
  {
    var inner := Obj(map["x" := Num(5)]);
    var fields := [Param("x", Field(Some(128)))];
    EncodeSingle(inner, fields[0]);
    assert Encode(inner, fields) == Err(UnsupportedWidth("x"));
    assert FlattenOne(inner, Struct(fields)) == Err(UnsupportedWidth("x"));
    assert [inner][..0] == [];
    assert Flatten([inner], Struct(fields)) == Err(UnsupportedWidth("x"));
    EncodeSingle(Obj(map["a" := Arr([inner])]), Param("a", Array(1, Struct(fields))));
  }

  /** A number and a ready-made hex string for a `field`; a string without
      the prefix is refused. */
  lemma FieldExamples()
    ensures Encode(Obj(map["x" := Num(255)]), [Param("x", Field(None))]) == Ok(["0xff"])
    ensures Encode(Obj(map["x" := Text("0xFF")]), [Param("x", Field(None))]) == Ok(["0xFF"])
    ensures Encode(Obj(map["x" := Text("255")]), [Param("x", Field(None))]) == Err(ExpectedHex("x"))
  {
    SmallHex();
    EncodeSingle(Obj(map["x" := Num(255)]), Param("x", Field(None)));
    EncodeSingle(Obj(map["x" := Text("0xFF")]), Param("x", Field(None)));
    EncodeSingle(Obj(map["x" := Text("255")]), Param("x", Field(None)));
    assert "255"[..2] == "25";
  }

  /** `"ab"` padded to four characters. */
  lemma PaddedCodes()
    ensures Flatten([Text("ab")], Str(4)) == Ok([Num(97), Num(98), Num(0), Num(0)])
  {
    var padded := PadCodes("ab", 4);
    assert padded == [Num(97), Num(98), Num(0), Num(0)];
    assert [Text("ab")][..0] == [] && [] + padded == padded;
  }

  /** A string in an array is padded with zeros to its declared length. */
  lemma PaddedStringExample()
    ensures Encode(Obj(map["s" := Arr([Text("ab")])]), [Param("s", Array(1, Str(4)))])
      == Ok(["0x61", "0x62", "0x0", "0x0"])
  {
    var padded := [Num(97), Num(98), Num(0), Num(0)];
    PaddedCodes();
    FlattenNumbers(padded, Str(4));
    FlatteningDecides("s", 1, Str(4), [Text("ab")], padded);
    FlatNumbersAccepted("s", 1, Str(4), padded);
    RenderedPadded();
  }

  lemma RenderedPadded()
    ensures Rendered([Num(97), Num(98), Num(0), Num(0)]) == ["0x61", "0x62", "0x0", "0x0"]
  {
    SmallHex();
    RenderedFour(97, 98, 0, 0);
  }

  /** The two fields of the struct below, encoded in field order. */
  lemma StructFields()
    ensures Encode(Obj(map["b" := Num(2), "a" := Num(1)]), [Param("a", Field(None)), Param("b", Field(None))])
      == Ok(["0x1", "0x2"])
  {
    SmallHex();
    var inner := Obj(map["b" := Num(2), "a" := Num(1)]);
    var fields := [Param("a", Field(None)), Param("b", Field(None))];
    EncodeSingle(inner, fields[0]);
    assert fields[..1] == [fields[0]];
    assert EncodeParam(inner, fields[0]) == Ok(["0x1"]);
    assert EncodeParam(inner, fields[1]) == Ok(["0x2"]);
    assert ["0x1"] + ["0x2"] == ["0x1", "0x2"];
  }

  /** A struct given from index 5 takes indices 5 and 6 in field order,
      whatever order the object was written in. */
  lemma StructExample()
    ensures WitnessMap(Obj(map["s" := Obj(map["b" := Num(2), "a" := Num(1)])]),
                       Some([Param("s", Struct([Param("a", Field(None)), Param("b", Field(None))]))]), 5)
      == Ok(map[5 := "0x1", 6 := "0x2"])
  {
    var inner := Obj(map["b" := Num(2), "a" := Num(1)]);
    var fields := [Param("a", Field(None)), Param("b", Field(None))];
    StructFields();
    EncodeSingle(Obj(map["s" := inner]), Param("s", Struct(fields)));
    assert ["0x1", "0x2"][..1] == ["0x1"];
    assert ["0x1"][..0] == [];
  }
}
