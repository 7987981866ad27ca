/** The Thrift type codes and the decoder's table of their display names. */
module TType {

  const STOP := 0
  const VOID := 1
  const BOOL := 2
  const BYTE := 3
  const DOUBLE := 4
  const I16 := 6
  const I32 := 8
  const I64 := 10
  const STRING := 11
  const STRUCT := 12
  const MAP := 13
  const SET := 14
  const LIST := 15
  const ENUM := 16

  /** `typeNameMap`: the names written into the output tree. Codes 5, 7, 9 and
      everything above 16 have no entry. */
  const TypeNames: map<int, string> := map[
    STOP := "stop", VOID := "void", BOOL := "bool", BYTE := "byte",
    DOUBLE := "double", I16 := "i16", I32 := "i32", I64 := "i64",
    STRING := "string", STRUCT := "struct", MAP := "map", SET := "set",
    LIST := "list", ENUM := "enum"]

  /** The tags `readFieldValue` has a branch for; every other tag is an "unknown type". */
  predicate Dispatched(tag: int) {
    tag == BOOL || tag == BYTE || tag == DOUBLE || tag == I16 || tag == I32 ||
    tag == I64 || tag == STRING || tag == STRUCT || tag == MAP || tag == SET || tag == LIST
  }

  /** Tags whose decoded value is a single primitive read. */
  predicate Scalar(tag: int) {
    tag == BOOL || tag == BYTE || tag == DOUBLE || tag == I16 || tag == I32 || tag == I64
  }

  /** Tags whose decoded value is a Python list or dict, hence unhashable. */
  predicate Compound(tag: int) {
    tag == STRUCT || tag == MAP || tag == SET || tag == LIST
  }

  /** The named codes, in increasing order, and their names in the same order.
      This is the table above again as two sequences: looking a name up by
      walking them is far cheaper for the verifier than a quantifier over the
      map; `CodesAreTypeNames` proves the two forms list the same entries. */
  const Codes: seq<int> := [STOP, VOID, BOOL, BYTE, DOUBLE, I16, I32, I64, STRING, STRUCT, MAP, SET, LIST, ENUM]
  const Names: seq<string> := ["stop", "void", "bool", "byte", "double", "i16", "i32", "i64",
                               "string", "struct", "map", "set", "list", "enum"]

  /** `Codes` and `Names` list exactly the entries of `TypeNames`. */
  lemma CodesAreTypeNames()
    ensures |Codes| == |Names|
    ensures forall i | 0 <= i < |Codes| :: Codes[i] in TypeNames && TypeNames[Codes[i]] == Names[i]
    ensures forall t | t in TypeNames :: exists i | 0 <= i < |Codes| :: Codes[i] == t
  {
    forall t | t in TypeNames
      ensures exists i | 0 <= i < |Codes| :: Codes[i] == t
    {
      assert t in {STOP, VOID, BOOL, BYTE, DOUBLE, I16, I32, I64, STRING, STRUCT, MAP, SET, LIST, ENUM};
      var i := if t <= 4 then t else if t <= 10 then t / 2 + 2 else t - 3;
      assert Codes[i] == t;
    }
  }

  /** The codes with a name: 0 to 16 except 5, 7 and 9. */
  lemma NamedCodes(t: int)
    ensures t in TypeNames <==> 0 <= t <= 16 && t != 5 && t != 7 && t != 9
  {
  }

  /** The code of the first of `Names[i..]` equal to `name`, or -1. */
  function Lookup(name: string, i: nat): (t: int)
    requires i <= |Names| == |Codes|
    decreases |Names| - i
  {
    if i == |Names| then -1
    else if Names[i] == name then Codes[i]
    else Lookup(name, i + 1)
  }

  lemma {:induction false} LookupFinds(name: string, i: nat)
    requires i <= |Names| == |Codes|
    ensures Lookup(name, i) == -1 <==> forall j | i <= j < |Names| :: Names[j] != name
    ensures Lookup(name, i) != -1 ==> exists j | i <= j < |Names| :: Names[j] == name && Codes[j] == Lookup(name, i)
    decreases |Names| - i
  {
    if i < |Names| && Names[i] != name {
      LookupFinds(name, i + 1);
    }
  }

  /** The code whose display name is `name` (the inverse of `TypeNames`), or
      -1 when no code has that name. */
  function TagNamed(name: string): int {
    Lookup(name, 0)
  }

  /** A name `TagNamed` finds a code for is that code's name. */
  lemma TagNamedNamed(name: string)
    requires TagNamed(name) != -1
    ensures TagNamed(name) in TypeNames && TypeNames[TagNamed(name)] == name
  {
    CodesAreTypeNames();
    LookupFinds(name, 0);
  }

  /** No two codes share a display name, so a name determines its code. */
  lemma TagNamedInverse(t: int)
    requires t in TypeNames
    ensures TagNamed(TypeNames[t]) == t != -1
  {
    CodesAreTypeNames();
    var i :| 0 <= i < |Codes| && Codes[i] == t;
    if i < 6 {
      FirstNames(i);
    } else {
      LastNames(i);
    }
  }

  lemma FirstNames(i: int)
    requires 0 <= i < 6
    ensures TagNamed(Names[i]) == Codes[i]
  {
    assert i in {0, 1, 2, 3, 4, 5};
    LookupSkips(Names[i], 0, i);
  }

  lemma LastNames(i: int)
    requires 6 <= i < |Codes|
    ensures TagNamed(Names[i]) == Codes[i]
  {
    assert i in {6, 7, 8, 9, 10, 11, 12, 13};
    LookupSkips(Names[i], 0, i);
  }

  /** The lookup passes over names that differ from the one sought. */
  lemma {:induction false} LookupSkips(name: string, j: nat, k: nat)
    requires j <= k < |Names| == |Codes|
    requires forall m | j <= m < k :: Names[m] != name
    ensures Lookup(name, j) == Lookup(name, k)
    decreases k - j
  {
    if j < k {
      LookupSkips(name, j + 1, k);
    }
  }

  /** Every dispatched tag has a name; void and enum have a name but no dispatch branch. */
  lemma DispatchedAreNamed(t: int)
    ensures Dispatched(t) ==> t in TypeNames
    ensures t in TypeNames && !Dispatched(t) <==> t == STOP || t == VOID || t == ENUM
  {
  }
}
