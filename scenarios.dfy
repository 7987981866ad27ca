/** Concrete messages and what they decode to. */
module Scenarios {
  import opened Primitives
  import opened Values
  import opened Protocol
  import TType
  import Utf8
  import Hex
  import opened DecodeSpec

  /** `{1: i32(42), 2: string("ok")}` decodes to its two fields, in order. */
  lemma TwoFields()
    ensures Decode([StructBegin,
                    FieldHeader(TType.I32, 1), I32Tok(42), FieldEnd,
                    FieldHeader(TType.STRING, 2), BinaryTok([0x6f, 0x6b]), FieldEnd,
                    FieldHeader(TType.STOP, 0)])
         == Ok([Field(1, "i32", I32(42)), Field(2, "string", Str("ok"))])
  {
    var toks := [StructBegin,
                 FieldHeader(TType.I32, 1), I32Tok(42), FieldEnd,
                 FieldHeader(TType.STRING, 2), BinaryTok([0x6f, 0x6b]), FieldEnd,
                 FieldHeader(TType.STOP, 0)];
    var f1, f2 := Field(1, "i32", I32(42)), Field(2, "string", Str("ok"));
    Utf8.DecodeEncode("ok");
    assert Utf8.Encode("ok") == [0x6f, 0x6b] by {
      assert Utf8.Encode("ok"[1..][1..]) == [];
    }
    assert DecodeValue(toks, 5, TType.STRING) == Done(Str("ok"), 6);
    assert [f1] + [f2] == [f1, f2];
    assert [] + [f1] == [f1];
    assert DecodeFields(toks, 4, [f1]) == DecodeFields(toks, 7, [f1, f2]);
    assert DecodeFields(toks, 1, []) == DecodeFields(toks, 4, [f1]);
  }

  /** A string field holding the byte 0xff (not UTF-8) becomes the diagnostic,
      and the integer field after it still decodes. */
  lemma BadUtf8ThenInt()
    ensures Decode([StructBegin,
                    FieldHeader(TType.STRING, 1), BinaryTok([0xff]), FieldEnd,
                    FieldHeader(TType.I32, 2), I32Tok(7), FieldEnd,
                    FieldHeader(TType.STOP, 0)])
         == Ok([Field(1, "string", Str("UnicodeDecodeError. binary(ff)")), Field(2, "i32", I32(7))])
  {
    var toks := [StructBegin,
                 FieldHeader(TType.STRING, 1), BinaryTok([0xff]), FieldEnd,
                 FieldHeader(TType.I32, 2), I32Tok(7), FieldEnd,
                 FieldHeader(TType.STOP, 0)];
    var f1, f2 := Field(1, "string", Str("UnicodeDecodeError. binary(ff)")), Field(2, "i32", I32(7));
    assert Utf8.Decode([0xff]) == None;
    assert Hex.Hex([0xff]) == "ff" by {
      assert Hex.Hex([0xff][1..]) == [];
    }
    assert Diagnostic([0xff]) == "UnicodeDecodeError. binary(ff)";
    assert [f1] + [f2] == [f1, f2];
    assert [] + [f1] == [f1];
    assert DecodeValue(toks, 2, TType.STRING) == Done(Str("UnicodeDecodeError. binary(ff)"), 3);
    assert DecodeFields(toks, 4, [f1]) == DecodeFields(toks, 7, [f1, f2]);
    assert DecodeFields(toks, 1, []) == DecodeFields(toks, 4, [f1]);
  }

  /** A set of i32 holding 1, 1, 2 on the wire has two members. */
  lemma SetDropsDuplicates()
    ensures DecodeSet([SetBegin(TType.I32, 3), I32Tok(1), I32Tok(1), I32Tok(2), SetEnd], 0)
         == Done(Set("i32", {I32(1), I32(2)}), 5)
  {
    var toks := [SetBegin(TType.I32, 3), I32Tok(1), I32Tok(1), I32Tok(2), SetEnd];
    assert DecodeSetItems(toks, 4, TType.I32, 0, {I32(1), I32(2)}) == Done({I32(1), I32(2)}, 4);
    assert DecodeSetItems(toks, 3, TType.I32, 1, {I32(1)}) == Done({I32(1), I32(2)}, 4) by {
      assert {I32(1)} + {I32(2)} == {I32(1), I32(2)};
    }
    assert DecodeSetItems(toks, 2, TType.I32, 2, {I32(1)}) == Done({I32(1), I32(2)}, 4) by {
      assert {I32(1)} + {I32(1)} == {I32(1)};
    }
    assert DecodeSetItems(toks, 1, TType.I32, 3, {}) == Done({I32(1), I32(2)}, 4) by {
      assert {} + {I32(1)} == {I32(1)};
    }
  }

  /** A map with the key 1 twice keeps the later value. */
  lemma MapLaterKeyWins()
    ensures DecodeMap([MapBegin(TType.I32, TType.I16, 2), I32Tok(1), I16Tok(10), I32Tok(1), I16Tok(20), MapEnd], 0)
         == Done(Map("i32", "i16", map[I32(1) := I16(20)]), 6)
  {
    var toks := [MapBegin(TType.I32, TType.I16, 2), I32Tok(1), I16Tok(10), I32Tok(1), I16Tok(20), MapEnd];
    var m := map[I32(1) := I16(20)];
    assert DecodeMapEntries(toks, 5, TType.I32, TType.I16, 0, m) == Done(m, 5);
    assert DecodeMapEntries(toks, 3, TType.I32, TType.I16, 1, map[I32(1) := I16(10)]) == Done(m, 5) by {
      assert map[I32(1) := I16(10)][I32(1) := I16(20)] == m;
    }
    assert DecodeMapEntries(toks, 1, TType.I32, TType.I16, 2, map[]) == Done(m, 5);
  }

  /** A field of unnamed type 7 aborts the decode even though a valid field came first. */
  lemma UnknownTagAbortsDecode()
    ensures Decode([StructBegin,
                    FieldHeader(TType.I32, 1), I32Tok(42), FieldEnd,
                    FieldHeader(7, 2), I32Tok(1), FieldEnd,
                    FieldHeader(TType.STOP, 0)])
         == Err(NoTypeName(7))
  {
    var toks := [StructBegin,
                 FieldHeader(TType.I32, 1), I32Tok(42), FieldEnd,
                 FieldHeader(7, 2), I32Tok(1), FieldEnd,
                 FieldHeader(TType.STOP, 0)];
    assert DecodeFields(toks, 4, [Field(1, "i32", I32(42))]) == Fail(NoTypeName(7));
    assert DecodeFields(toks, 1, []) == DecodeFields(toks, 4, [Field(1, "i32", I32(42))]);
  }

  /** The message of `NestedStructs`: a struct holding a list of two structs. */
  const Nested: seq<Token> := [StructBegin,
    FieldHeader(TType.STRUCT, 1), StructBegin,
      FieldHeader(TType.LIST, 5), ListBegin(TType.STRUCT, 2),
        StructBegin, FieldHeader(TType.BOOL, 1), BoolTok(true), FieldEnd,
          FieldHeader(TType.STOP, 0), StructEnd,
        StructBegin, FieldHeader(TType.STOP, 0), StructEnd,
      ListEnd, FieldEnd,
      FieldHeader(TType.STOP, 0), StructEnd,
    FieldEnd,
    FieldHeader(TType.STOP, 0)]

  /** The first item of the list inside `Nested`: a struct with one bool field. */
  lemma NestedFirstItem()
    ensures DecodeValue(Nested, 5, TType.STRUCT) == Done(Struct([Field(1, "bool", Bool(true))]), 11)
  {
    var toks := Nested;
    assert [] + [Field(1, "bool", Bool(true))] == [Field(1, "bool", Bool(true))];
    assert DecodeFields(toks, 6, []) == DecodeFields(toks, 9, [Field(1, "bool", Bool(true))]);
    assert DecodeStruct(toks, 5) == Done(Struct([Field(1, "bool", Bool(true))]), 11);
    assert DecodeValue(toks, 5, TType.STRUCT) == DecodeContainer(toks, 5, TType.STRUCT);
  }

  /** The list inside `Nested` holds a one-field struct and an empty one. */
  lemma NestedList()
    ensures DecodeValue(Nested, 4, TType.LIST)
         == Done(List("struct", [Struct([Field(1, "bool", Bool(true))]), Struct([])]), 15)
  {
    var toks := Nested;
    var inner1 := Struct([Field(1, "bool", Bool(true))]);
    var inner2 := Struct([]);
    NestedFirstItem();
    assert [] + [inner1] == [inner1] && [inner1] + [inner2] == [inner1, inner2];
    // the second element
    assert DecodeStruct(toks, 11) == Done(inner2, 14);
    assert DecodeValue(toks, 11, TType.STRUCT) == DecodeContainer(toks, 11, TType.STRUCT) == Done(inner2, 14);
    assert DecodeListItems(toks, 11, TType.STRUCT, 1, [inner1]) == Done([inner1, inner2], 14);
    assert DecodeListItems(toks, 5, TType.STRUCT, 2, []) == Done([inner1, inner2], 14);
    assert DecodeList(toks, 4) == Done(List("struct", [inner1, inner2]), 15);
    assert DecodeValue(toks, 4, TType.LIST) == DecodeContainer(toks, 4, TType.LIST);
  }

  /** Structs nest through lists: each level is decoded where the previous one
      left off, and the outer result is the whole tree. */
  lemma NestedStructs()
    ensures Decode(Nested)
         == Ok([Field(1, "struct", Struct([
                  Field(5, "list", List("struct", [
                    Struct([Field(1, "bool", Bool(true))]),
                    Struct([])]))]))])
  {
    var toks := Nested;
    var lst := List("struct", [Struct([Field(1, "bool", Bool(true))]), Struct([])]);
    var mid := Struct([Field(5, "list", lst)]);
    NestedList();
    assert [] + [Field(5, "list", lst)] == [Field(5, "list", lst)];
    assert [] + [Field(1, "struct", mid)] == [Field(1, "struct", mid)];
    // the middle struct
    assert DecodeFields(toks, 3, []) == DecodeFields(toks, 16, [Field(5, "list", lst)]);
    assert DecodeStruct(toks, 2) == Done(mid, 18);
    assert DecodeValue(toks, 2, TType.STRUCT) == DecodeContainer(toks, 2, TType.STRUCT) == Done(mid, 18);
    // the outer fields
    assert DecodeFields(toks, 1, []) == DecodeFields(toks, 19, [Field(1, "struct", mid)]);
  }
}
