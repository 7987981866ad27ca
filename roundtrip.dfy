/** An independent encoder from value trees to protocol items, and the two
    directions that tie it to the decoder: every decoded tree is well formed
    (each container element has its declared type, set members and map keys
    are hashable, each field's name is that of its value's tag), and decoding
    the encoding of a well-formed message gives the message back. */
module RoundTrip {
  import opened Values
  import opened Protocol
  import TType
  import Utf8
  import opened DecodeSpec
  import opened Properties

  /** The Thrift type code a value is decoded from. */
  function TagOf(v: Value): (t: int)
    ensures TType.Dispatched(t)
    ensures Hashable(v) <==> !TType.Compound(t)
  {
    match v
    case Bool(_) => TType.BOOL
    case Byte(_) => TType.BYTE
    case Double(_) => TType.DOUBLE
    case I16(_) => TType.I16
    case I32(_) => TType.I32
    case I64(_) => TType.I64
    case Str(_) => TType.STRING
    case Struct(_) => TType.STRUCT
    case Map(_, _, _) => TType.MAP
    case Set(_, _) => TType.SET
    case List(_, _) => TType.LIST
  }

  ghost predicate WellFormed(v: Value)
    decreases v
  {
    match v
    case Struct(fs) => forall i | 0 <= i < |fs| :: FieldWellFormed(fs[i])
    case List(n, es) =>
      TType.TagNamed(n) != -1 &&
      forall i | 0 <= i < |es| :: TagOf(es[i]) == TType.TagNamed(n) && WellFormed(es[i])
    case Set(n, s) =>
      TType.TagNamed(n) != -1 &&
      forall e | e in s :: Hashable(e) && TagOf(e) == TType.TagNamed(n)
    case Map(kn, vn, m) =>
      TType.TagNamed(kn) != -1 && TType.TagNamed(vn) != -1 &&
      forall k | k in m :: Hashable(k) && TagOf(k) == TType.TagNamed(kn)
                           && TagOf(m[k]) == TType.TagNamed(vn) && WellFormed(m[k])
    case _ => true
  }

  ghost predicate FieldWellFormed(f: Field)
    decreases f
  {
    TType.TagNamed(f.typeName) == TagOf(f.value) && WellFormed(f.value)
  }

  // ---------------------------------------------------------------- decoded trees are well formed

  lemma {:induction false} ValueWellFormed(toks: seq<Token>, p: nat, t: int)
    requires p <= |toks| && DecodeValue(toks, p, t).Done?
    ensures TagOf(DecodeValue(toks, p, t).value) == t && WellFormed(DecodeValue(toks, p, t).value)
    decreases |toks| - p, 2
  {
    if t == TType.STRUCT {
      StructWellFormed(toks, p);
    } else if t == TType.MAP {
      MapWellFormed(toks, p);
    } else if t == TType.SET {
      SetWellFormed(toks, p);
    } else if t == TType.LIST {
      ListWellFormed(toks, p);
    }
  }

  lemma {:induction false} FieldsWellFormed(toks: seq<Token>, p: nat, acc: seq<Field>)
    requires p <= |toks| && DecodeFields(toks, p, acc).Done?
    requires forall i | 0 <= i < |acc| :: FieldWellFormed(acc[i])
    ensures var fs := DecodeFields(toks, p, acc).value; forall i | 0 <= i < |fs| :: FieldWellFormed(fs[i])
    decreases |toks| - p, 3
  {
    var t := toks[p].fieldType;
    if t != TType.STOP {
      var d := DecodeValue(toks, p + 1, t);
      ValueWellFormed(toks, p + 1, t);
      TType.TagNamedInverse(t);
      var acc' := acc + [Field(toks[p].fieldId, TType.TypeNames[t], d.value)];
      FieldsWellFormed(toks, d.next + 1, acc');
    }
  }

  lemma {:induction false} StructWellFormed(toks: seq<Token>, p: nat)
    requires p <= |toks| && DecodeStruct(toks, p).Done?
    ensures DecodeStruct(toks, p).value.Struct? && WellFormed(DecodeStruct(toks, p).value)
    decreases |toks| - p, 0
  {
    FieldsWellFormed(toks, p + 1, []);
  }

  lemma {:induction false} MapEntriesWellFormed(toks: seq<Token>, p: nat, kt: int, vt: int, count: int,
                                                acc: map<Value, Value>)
    requires p <= |toks| && DecodeMapEntries(toks, p, kt, vt, count, acc).Done?
    requires forall k | k in acc :: Hashable(k) && TagOf(k) == kt && TagOf(acc[k]) == vt && WellFormed(acc[k])
    ensures var m := DecodeMapEntries(toks, p, kt, vt, count, acc).value;
      forall k | k in m :: Hashable(k) && TagOf(k) == kt && TagOf(m[k]) == vt && WellFormed(m[k])
    decreases |toks| - p, 3
  {
    if count > 0 {
      var k := DecodeValue(toks, p, kt);
      var v := DecodeValue(toks, k.next, vt);
      ValueWellFormed(toks, p, kt);
      ValueWellFormed(toks, k.next, vt);
      MapEntriesWellFormed(toks, v.next, kt, vt, count - 1, acc[k.value := v.value]);
    }
  }

  lemma {:induction false} MapWellFormed(toks: seq<Token>, p: nat)
    requires p <= |toks| && DecodeMap(toks, p).Done?
    ensures DecodeMap(toks, p).value.Map? && WellFormed(DecodeMap(toks, p).value)
    decreases |toks| - p, 0
  {
    var h := toks[p];
    MapEntriesWellFormed(toks, p + 1, h.keyType, h.valueType, h.size, map[]);
    TType.TagNamedInverse(h.keyType);
    TType.TagNamedInverse(h.valueType);
  }

  lemma {:induction false} SetItemsWellFormed(toks: seq<Token>, p: nat, t: int, count: int, acc: set<Value>)
    requires p <= |toks| && DecodeSetItems(toks, p, t, count, acc).Done?
    requires forall e | e in acc :: Hashable(e) && TagOf(e) == t
    ensures var s := DecodeSetItems(toks, p, t, count, acc).value;
      forall e | e in s :: Hashable(e) && TagOf(e) == t
    decreases |toks| - p, 3
  {
    if count > 0 {
      var d := DecodeValue(toks, p, t);
      ValueWellFormed(toks, p, t);
      SetItemsWellFormed(toks, d.next, t, count - 1, acc + {d.value});
    }
  }

  lemma {:induction false} SetWellFormed(toks: seq<Token>, p: nat)
    requires p <= |toks| && DecodeSet(toks, p).Done?
    ensures DecodeSet(toks, p).value.Set? && WellFormed(DecodeSet(toks, p).value)
    decreases |toks| - p, 0
  {
    var h := toks[p];
    var d := DecodeSetItems(toks, p + 1, h.elemType, h.size, {});
    SetItemsWellFormed(toks, p + 1, h.elemType, h.size, {});
    TType.TagNamedInverse(h.elemType);
    assert DecodeSet(toks, p).value == Set(TType.TypeNames[h.elemType], d.value);
  }

  lemma {:induction false} ListItemsWellFormed(toks: seq<Token>, p: nat, t: int, count: int, acc: seq<Value>)
    requires p <= |toks| && DecodeListItems(toks, p, t, count, acc).Done?
    requires forall i | 0 <= i < |acc| :: TagOf(acc[i]) == t && WellFormed(acc[i])
    ensures var es := DecodeListItems(toks, p, t, count, acc).value;
      forall i | 0 <= i < |es| :: TagOf(es[i]) == t && WellFormed(es[i])
    decreases |toks| - p, 3
  {
    if count > 0 {
      var d := DecodeValue(toks, p, t);
      ValueWellFormed(toks, p, t);
      ListItemsWellFormed(toks, d.next, t, count - 1, acc + [d.value]);
    }
  }

  lemma {:induction false} ListWellFormed(toks: seq<Token>, p: nat)
    requires p <= |toks| && DecodeList(toks, p).Done?
    ensures DecodeList(toks, p).value.List? && WellFormed(DecodeList(toks, p).value)
    decreases |toks| - p, 0
  {
    var h := toks[p];
    var d := DecodeListItems(toks, p + 1, h.elemType, h.size, []);
    ListItemsWellFormed(toks, p + 1, h.elemType, h.size, []);
    TType.TagNamedInverse(h.elemType);
    assert DecodeList(toks, p).value == List(TType.TypeNames[h.elemType], d.value);
  }

  /** Every message the decoder accepts is a list of well-formed fields. */
  lemma DecodedMessageWellFormed(toks: seq<Token>)
    requires Decode(toks).Ok?
    ensures forall i | 0 <= i < |Decode(toks).value| :: FieldWellFormed(Decode(toks).value[i])
  {
    FieldsWellFormed(toks, 1, []);
  }

  // ---------------------------------------------------------------- the encoder

  /** The member of a set the encoder writes next (an encoder may write a
      set or a map in any order). */
  ghost function Pick<T>(s: set<T>): (x: T)
    requires s != {}
    ensures x in s
  {
    var x :| x in s; x
  }

  /** The single item a hashable value is written as. */
  function ScalarItem(v: Value): Token
    requires Hashable(v)
  {
    match v
    case Bool(b) => BoolTok(b)
    case Byte(b) => ByteTok(b)
    case Double(d) => DoubleTok(d)
    case I16(i) => I16Tok(i)
    case I32(i) => I32Tok(i)
    case I64(i) => I64Tok(i)
    case Str(s) => BinaryTok(Utf8.Encode(s))
  }

  /** The members of a set of hashable values, one item each. */
  ghost function EncodeElems(s: set<Value>): (r: seq<Token>)
    requires forall e | e in s :: Hashable(e)
    ensures |r| == |s|
    decreases |s|
  {
    if s == {} then []
    else
      var x := Pick(s);
      [ScalarItem(x)] + EncodeElems(s - {x})
  }

  /** The items a well-formed value is written as. */
  ghost function Encode(v: Value): seq<Token>
    requires WellFormed(v)
    decreases v, 1
  {
    match v
    case Struct(fs) => [StructBegin] + EncodeFields(v, 0) + [StructEnd]
    case List(n, es) => [ListBegin(TType.TagNamed(n), |es|)] + EncodeItems(v, 0) + [ListEnd]
    case Set(n, s) => [SetBegin(TType.TagNamed(n), |s|)] + EncodeElems(s) + [SetEnd]
    case Map(kn, vn, m) =>
      [MapBegin(TType.TagNamed(kn), TType.TagNamed(vn), |m|)] + EncodeEntries(v, m.Keys) + [MapEnd]
    case _ => [ScalarItem(v)]
  }

  /** The fields of `parent` from the `i`-th on, then the STOP header. */
  ghost function EncodeFields(parent: Value, i: nat): seq<Token>
    requires parent.Struct? && WellFormed(parent) && i <= |parent.fields|
    decreases parent, 0, |parent.fields| - i
  {
    if i == |parent.fields| then [FieldHeader(TType.STOP, 0)]
    else
      var f := parent.fields[i];
      assert FieldWellFormed(f);
      [FieldHeader(TagOf(f.value), f.id)] + Encode(f.value) + [FieldEnd] + EncodeFields(parent, i + 1)
  }

  /** The elements of the list `parent` from the `i`-th on. */
  ghost function EncodeItems(parent: Value, i: nat): seq<Token>
    requires parent.List? && WellFormed(parent) && i <= |parent.items|
    decreases parent, 0, |parent.items| - i
  {
    if i == |parent.items| then []
    else Encode(parent.items[i]) + EncodeItems(parent, i + 1)
  }

  /** The entries of the map `parent` for the keys `ks`, each key then its value. */
  ghost function EncodeEntries(parent: Value, ks: set<Value>): seq<Token>
    requires parent.Map? && WellFormed(parent) && ks <= parent.entries.Keys
    decreases parent, 0, |ks|
  {
    if ks == {} then []
    else
      var k := Pick(ks);
      [ScalarItem(k)] + Encode(parent.entries[k]) + EncodeEntries(parent, ks - {k})
  }

  /** The key/value pairs of the map `parent` for the keys `ks`, in the order
      `EncodeEntries` writes them. */
  ghost function EntryPairs(parent: Value, ks: set<Value>): (ps: seq<(Value, Value)>)
    requires parent.Map? && ks <= parent.entries.Keys
    ensures |ps| == |ks|
    decreases |ks|
  {
    if ks == {} then []
    else
      var k := Pick(ks);
      [(k, parent.entries[k])] + EntryPairs(parent, ks - {k})
  }

  // ---------------------------------------------------------------- decoding what was encoded

  // The lemmas below name every position they speak of (`p` where a run
  // starts, `q` where it ends, and so on) and relate the names by `requires`.

  /** The items `a` sit in `toks` at `p`. */
  ghost predicate At(toks: seq<Token>, p: nat, a: seq<Token>) {
    p + |a| <= |toks| && toks[p..p + |a|] == a
  }

  lemma AtSplit(toks: seq<Token>, p: nat, a: seq<Token>, b: seq<Token>, c: nat)
    requires At(toks, p, a + b) && c == p + |a|
    ensures At(toks, p, a) && At(toks, c, b)
  {
    assert toks[p..c] == (a + b)[..|a|];
    assert toks[c..c + |b|] == (a + b)[|a|..];
  }

  /** A run of items sits where it was placed. */
  lemma AtPlaced(front: seq<Token>, a: seq<Token>, back: seq<Token>)
    ensures At(front + a + back, |front|, a)
  {
    assert (front + a + back)[|front|..|front| + |a|] == a;
  }

  /** The prefix of `s` one element longer. */
  lemma PrefixGrows<T>(s: seq<T>, i: nat)
    requires i < |s|
    ensures s[..i] + [s[i]] == s[..i + 1]
  {
  }

  /** The single item at `p`. */
  lemma AtOne(toks: seq<Token>, p: nat, t: Token)
    requires At(toks, p, [t])
    ensures p < |toks| && toks[p] == t
  {
    assert toks[p] == toks[p..p + 1][0];
  }

  lemma ScalarRoundTrip(v: Value, toks: seq<Token>, p: nat, q: nat)
    requires Hashable(v) && p < |toks| && toks[p] == ScalarItem(v) && q == p + 1
    ensures DecodeValue(toks, p, TagOf(v)) == Done(v, q)
  {
    if v.Str? {
      Utf8.DecodeEncode(v.text);
    }
  }

  lemma {:induction false} ValueRoundTrip(v: Value, toks: seq<Token>, p: nat, q: nat)
    requires WellFormed(v) && At(toks, p, Encode(v)) && q == p + |Encode(v)|
    ensures DecodeValue(toks, p, TagOf(v)) == Done(v, q)
    decreases v, 2
  {
    var t := TagOf(v);
    if v.Struct? {
      StructRoundTrip(v, toks, p, q);
      Dispatch(toks, p, t);
    } else if v.List? {
      ListRoundTrip(v, toks, p, q);
      Dispatch(toks, p, t);
    } else if v.Set? {
      SetRoundTrip(v, toks, p, q);
      Dispatch(toks, p, t);
    } else if v.Map? {
      MapRoundTrip(v, toks, p, q);
      Dispatch(toks, p, t);
    } else {
      assert Encode(v) == [ScalarItem(v)];
      AtOne(toks, p, ScalarItem(v));
      ScalarRoundTrip(v, toks, p, q);
    }
  }

  /** Which nested decoder `readFieldValue` calls for a container tag. */
  lemma Dispatch(toks: seq<Token>, p: nat, t: int)
    requires p <= |toks| && TType.Compound(t)
    ensures t == TType.STRUCT ==> DecodeValue(toks, p, t) == DecodeStruct(toks, p)
    ensures t == TType.MAP ==> DecodeValue(toks, p, t) == DecodeMap(toks, p)
    ensures t == TType.SET ==> DecodeValue(toks, p, t) == DecodeSet(toks, p)
    ensures t == TType.LIST ==> DecodeValue(toks, p, t) == DecodeList(toks, p)
  {
    assert DecodeValue(toks, p, t) == DecodeContainer(toks, p, t);
  }

  /** A framed run of items: the opening item at `p`, the body, the closing item at `e`. */
  lemma Framed(toks: seq<Token>, p: nat, h: Token, body: seq<Token>, tail: Token, e: nat)
    requires At(toks, p, [h] + body + [tail]) && e == p + 1 + |body|
    ensures e < |toks| && toks[p] == h && At(toks, p + 1, body) && toks[e] == tail
  {
    AtSplit(toks, p, [h] + body, [tail], e);
    AtSplit(toks, p, [h], body, p + 1);
    AtOne(toks, p, h);
    AtOne(toks, e, tail);
  }

  // The last step of each container decoder, over whatever its loop read.

  lemma StructFrame(toks: seq<Token>, p: nat, fs: seq<Field>, e: nat, q: nat)
    requires p < e < |toks| && q == e + 1 && toks[p] == StructBegin && toks[e] == StructEnd
    requires DecodeFields(toks, p + 1, []) == Done(fs, e)
    ensures DecodeStruct(toks, p) == Done(Struct(fs), q)
  {
  }

  lemma ListFrame(toks: seq<Token>, p: nat, t: int, es: seq<Value>, e: nat, q: nat)
    requires p < e < |toks| && q == e + 1 && toks[p] == ListBegin(t, |es|) && toks[e] == ListEnd
    requires t in TType.TypeNames
    requires DecodeListItems(toks, p + 1, t, |es|, []) == Done(es, e)
    ensures DecodeList(toks, p) == Done(List(TType.TypeNames[t], es), q)
  {
  }

  lemma SetFrame(toks: seq<Token>, p: nat, t: int, n: int, s: set<Value>, e: nat, q: nat)
    requires p < e < |toks| && q == e + 1 && toks[p] == SetBegin(t, n) && toks[e] == SetEnd
    requires t in TType.TypeNames
    requires DecodeSetItems(toks, p + 1, t, n, {}) == Done(s, e)
    ensures DecodeSet(toks, p) == Done(Set(TType.TypeNames[t], s), q)
  {
  }

  lemma MapFrame(toks: seq<Token>, p: nat, kt: int, vt: int, n: int, m: map<Value, Value>, e: nat, q: nat)
    requires p < e < |toks| && q == e + 1 && toks[p] == MapBegin(kt, vt, n) && toks[e] == MapEnd
    requires kt in TType.TypeNames && vt in TType.TypeNames
    requires DecodeMapEntries(toks, p + 1, kt, vt, n, map[]) == Done(m, e)
    ensures DecodeMap(toks, p) == Done(Map(TType.TypeNames[kt], TType.TypeNames[vt], m), q)
  {
  }

  lemma {:induction false} StructRoundTrip(v: Value, toks: seq<Token>, p: nat, q: nat)
    requires v.Struct? && WellFormed(v) && At(toks, p, Encode(v)) && q == p + |Encode(v)|
    ensures DecodeStruct(toks, p) == Done(v, q)
    decreases v, 1
  {
    var body := EncodeFields(v, 0);
    assert Encode(v) == [StructBegin] + body + [StructEnd];
    var b, e := p + 1, p + 1 + |body|;
    Framed(toks, p, StructBegin, body, StructEnd, e);
    FieldsRoundTrip(v, 0, toks, b, e);
    assert v.fields[..0] == [];
    StructFrame(toks, p, v.fields, e, q);
  }

  lemma {:induction false} ListRoundTrip(v: Value, toks: seq<Token>, p: nat, q: nat)
    requires v.List? && WellFormed(v) && At(toks, p, Encode(v)) && q == p + |Encode(v)|
    ensures DecodeList(toks, p) == Done(v, q)
    decreases v, 1
  {
    var t := TType.TagNamed(v.elemType);
    TType.TagNamedNamed(v.elemType);
    var body := EncodeItems(v, 0);
    var h := ListBegin(t, |v.items|);
    assert Encode(v) == [h] + body + [ListEnd];
    var b, e := p + 1, p + 1 + |body|;
    Framed(toks, p, h, body, ListEnd, e);
    ItemsRoundTrip(v, 0, toks, b, e);
    assert v.items[..0] == [];
    ListFrame(toks, p, t, v.items, e, q);
  }

  lemma {:induction false} SetRoundTrip(v: Value, toks: seq<Token>, p: nat, q: nat)
    requires v.Set? && WellFormed(v) && At(toks, p, Encode(v)) && q == p + |Encode(v)|
    ensures DecodeSet(toks, p) == Done(v, q)
    decreases v, 1
  {
    var t := TType.TagNamed(v.elemType);
    TType.TagNamedNamed(v.elemType);
    var body := EncodeElems(v.elems);
    var h := SetBegin(t, |v.elems|);
    assert Encode(v) == [h] + body + [SetEnd];
    var b, e := p + 1, p + 1 + |body|;
    Framed(toks, p, h, body, SetEnd, e);
    ElemsRoundTrip(v.elems, t, toks, b, e, {});
    assert {} + v.elems == v.elems;
    SetFrame(toks, p, t, |v.elems|, v.elems, e, q);
  }

  lemma {:induction false} MapRoundTrip(v: Value, toks: seq<Token>, p: nat, q: nat)
    requires v.Map? && WellFormed(v) && At(toks, p, Encode(v)) && q == p + |Encode(v)|
    ensures DecodeMap(toks, p) == Done(v, q)
    decreases v, 1
  {
    var kt, vt := TType.TagNamed(v.keyType), TType.TagNamed(v.valueType);
    TType.TagNamedNamed(v.keyType);
    TType.TagNamedNamed(v.valueType);
    var body := EncodeEntries(v, v.entries.Keys);
    var h := MapBegin(kt, vt, |v.entries|);
    assert Encode(v) == [h] + body + [MapEnd];
    var b, e := p + 1, p + 1 + |body|;
    Framed(toks, p, h, body, MapEnd, e);
    EntriesRoundTrip(v, toks, b, e);
    MapFrame(toks, p, kt, vt, |v.entries|, v.entries, e, q);
  }

  /** A field run: the header at `p`, the value's items from `p + 1` to `c`,
      the field end at `c`, then the rest from `d`. */
  lemma FieldRun(toks: seq<Token>, p: nat, h: Token, e: seq<Token>, rest: seq<Token>, c: nat, d: nat)
    requires At(toks, p, [h] + e + [FieldEnd] + rest) && c == p + 1 + |e| && d == c + 1
    ensures c < |toks| && toks[p] == h && At(toks, p + 1, e) && toks[c] == FieldEnd
    ensures At(toks, d, rest)
  {
    AtSplit(toks, p, [h] + e + [FieldEnd], rest, d);
    Framed(toks, p, h, e, FieldEnd, c);
  }

  /** One step of `readFields` over a field written by the encoder. */
  lemma FieldStep(toks: seq<Token>, p: nat, acc: seq<Field>, f: Field, c: nat, d: nat)
    requires FieldWellFormed(f) && p < c < |toks| && d == c + 1
    requires toks[p] == FieldHeader(TagOf(f.value), f.id) && toks[c] == FieldEnd
    requires DecodeValue(toks, p + 1, TagOf(f.value)) == Done(f.value, c)
    ensures DecodeFields(toks, p, acc) == DecodeFields(toks, d, acc + [f])
  {
    TType.TagNamedNamed(f.typeName);
  }

  lemma {:induction false} FieldsRoundTrip(parent: Value, i: nat, toks: seq<Token>, p: nat, q: nat)
    requires parent.Struct? && WellFormed(parent) && i <= |parent.fields|
    requires At(toks, p, EncodeFields(parent, i)) && q == p + |EncodeFields(parent, i)|
    ensures DecodeFields(toks, p, parent.fields[..i]) == Done(parent.fields, q)
    decreases parent, 0, |parent.fields| - i, 1
  {
    var fs := parent.fields;
    if i == |fs| {
      assert fs[..i] == fs;
      AtOne(toks, p, FieldHeader(TType.STOP, 0));
    } else {
      assert FieldWellFormed(fs[i]);
      var d := p + 2 + |Encode(fs[i].value)|;
      FieldRoundTrip(parent, i, toks, p, d, q, fs[..i]);
      PrefixGrows(fs, i);
      FieldsRoundTrip(parent, i + 1, toks, d, q);
    }
  }

  /** The `i`-th field the encoder wrote, from `p` to `d`, is read back and
      appended to the fields read so far. */
  lemma {:induction false} FieldRoundTrip(parent: Value, i: nat, toks: seq<Token>, p: nat, d: nat, q: nat,
                                          acc: seq<Field>)
    requires parent.Struct? && WellFormed(parent) && i < |parent.fields|
    requires At(toks, p, EncodeFields(parent, i)) && q == p + |EncodeFields(parent, i)|
    requires FieldWellFormed(parent.fields[i]) && d == p + 2 + |Encode(parent.fields[i].value)|
    ensures At(toks, d, EncodeFields(parent, i + 1)) && q == d + |EncodeFields(parent, i + 1)|
    ensures DecodeFields(toks, p, acc) == DecodeFields(toks, d, acc + [parent.fields[i]])
    decreases parent, 0, |parent.fields| - i, 0
  {
    var f := parent.fields[i];
    var h, e, rest := FieldHeader(TagOf(f.value), f.id), Encode(f.value), EncodeFields(parent, i + 1);
    assert EncodeFields(parent, i) == [h] + e + [FieldEnd] + rest;
    var b, c := p + 1, p + 1 + |e|;
    FieldRun(toks, p, h, e, rest, c, d);
    ValueRoundTrip(f.value, toks, b, c);
    FieldStep(toks, p, acc, f, c, d);
  }

  lemma {:induction false} ItemsRoundTrip(parent: Value, i: nat, toks: seq<Token>, p: nat, q: nat)
    requires parent.List? && WellFormed(parent) && i <= |parent.items|
    requires At(toks, p, EncodeItems(parent, i)) && q == p + |EncodeItems(parent, i)|
    ensures DecodeListItems(toks, p, TType.TagNamed(parent.elemType), |parent.items| - i, parent.items[..i])
         == Done(parent.items, q)
    decreases parent, 0, |parent.items| - i, 1
  {
    var es := parent.items;
    if i == |es| {
      assert es[..i] == es;
    } else {
      var c := p + |Encode(es[i])|;
      var n, m := |es| - i, |es| - (i + 1);
      ItemRoundTrip(parent, i, toks, p, c, q);
      ListItemsStep(toks, p, TType.TagNamed(parent.elemType), n, m, es[..i], es[i], c);
      ItemsRoundTrip(parent, i + 1, toks, c, q);
      PrefixGrows(es, i);
    }
  }

  /** One turn of `readList`'s loop over an element read from `p` to `c`. */
  lemma ListItemsStep(toks: seq<Token>, p: nat, t: int, n: int, m: int, acc: seq<Value>, v: Value, c: nat)
    requires p <= |toks| && 0 < n && m == n - 1 && DecodeValue(toks, p, t) == Done(v, c)
    ensures DecodeListItems(toks, p, t, n, acc) == DecodeListItems(toks, c, t, m, acc + [v])
  {
  }

  /** One turn of `readSet`'s loop over a hashable element read from `p` to `c`. */
  lemma SetItemsStep(toks: seq<Token>, p: nat, t: int, n: int, m: int, acc: set<Value>, v: Value, c: nat)
    requires p <= |toks| && 0 < n && m == n - 1 && Hashable(v) && DecodeValue(toks, p, t) == Done(v, c)
    ensures DecodeSetItems(toks, p, t, n, acc) == DecodeSetItems(toks, c, t, m, acc + {v})
  {
  }

  /** The `i`-th element the encoder wrote, from `p` to `c`, is read back as itself. */
  lemma {:induction false} ItemRoundTrip(parent: Value, i: nat, toks: seq<Token>, p: nat, c: nat, q: nat)
    requires parent.List? && WellFormed(parent) && i < |parent.items|
    requires At(toks, p, EncodeItems(parent, i)) && q == p + |EncodeItems(parent, i)|
    requires c == p + |Encode(parent.items[i])|
    ensures At(toks, c, EncodeItems(parent, i + 1)) && q == c + |EncodeItems(parent, i + 1)|
    ensures DecodeValue(toks, p, TType.TagNamed(parent.elemType)) == Done(parent.items[i], c)
    decreases parent, 0, |parent.items| - i, 0
  {
    var e, rest := Encode(parent.items[i]), EncodeItems(parent, i + 1);
    AtSplit(toks, p, e, rest, c);
    ValueRoundTrip(parent.items[i], toks, p, c);
  }

  lemma {:induction false} ElemsRoundTrip(s: set<Value>, t: int, toks: seq<Token>, p: nat, q: nat, acc: set<Value>)
    requires forall e | e in s :: Hashable(e) && TagOf(e) == t
    requires At(toks, p, EncodeElems(s)) && q == p + |s|
    ensures DecodeSetItems(toks, p, t, |s|, acc) == Done(acc + s, q)
    decreases |s|
  {
    if s == {} {
      assert acc + s == acc;
    } else {
      var x := Pick(s);
      var rest := s - {x};
      var c := p + 1;
      assert EncodeElems(s) == [ScalarItem(x)] + EncodeElems(rest);
      AtSplit(toks, p, [ScalarItem(x)], EncodeElems(rest), c);
      AtOne(toks, p, ScalarItem(x));
      ScalarRoundTrip(x, toks, p, c);
      assert |rest| == |s| - 1;
      SetItemsStep(toks, p, t, |s|, |rest|, acc, x, c);
      ElemsRoundTrip(rest, t, toks, c, q, acc + {x});
      assert acc + {x} + rest == acc + s;
    }
  }

  /** `m` cut down to the keys `ks`. */
  function Restrict(m: map<Value, Value>, ks: set<Value>): (r: map<Value, Value>)
    requires ks <= m.Keys
    ensures r.Keys == ks
  {
    map k | k in ks :: m[k]
  }

  lemma RestrictAll(m: map<Value, Value>)
    ensures map[] + Restrict(m, m.Keys) == m
  {
  }

  lemma RestrictCons(acc: map<Value, Value>, m: map<Value, Value>, k: Value, ks: set<Value>)
    requires k in ks && ks <= m.Keys
    ensures acc[k := m[k]] + Restrict(m, ks - {k}) == acc + Restrict(m, ks)
  {
  }

  /** The first entry the encoder wrote for `ks`, under the key `k`: the key
      item at `p`, the value's items from `b` to `c`, then the rest. */
  lemma {:induction false} EntryRoundTrip(parent: Value, ks: set<Value>, k: Value, toks: seq<Token>, p: nat, b: nat, c: nat)
    requires parent.Map? && WellFormed(parent) && ks != {} && ks <= parent.entries.Keys && k == Pick(ks)
    requires At(toks, p, EncodeEntries(parent, ks)) && b == p + 1 && c == b + |Encode(parent.entries[k])|
    ensures |EncodeEntries(parent, ks)| == 1 + |Encode(parent.entries[k])| + |EncodeEntries(parent, ks - {k})|
    ensures At(toks, c, EncodeEntries(parent, ks - {k}))
    ensures DecodeValue(toks, p, TType.TagNamed(parent.keyType)) == Done(k, b)
    ensures DecodeValue(toks, b, TType.TagNamed(parent.valueType)) == Done(parent.entries[k], c)
    decreases parent, 0, 0
  {
    var w := parent.entries[k];
    assert Hashable(k) && TagOf(k) == TType.TagNamed(parent.keyType);
    assert TagOf(w) == TType.TagNamed(parent.valueType) && WellFormed(w);
    var e, rest := Encode(w), EncodeEntries(parent, ks - {k});
    assert EncodeEntries(parent, ks) == [ScalarItem(k)] + e + rest;
    AtSplit(toks, p, [ScalarItem(k)] + e, rest, c);
    AtSplit(toks, p, [ScalarItem(k)], e, b);
    AtOne(toks, p, ScalarItem(k));
    ScalarRoundTrip(k, toks, p, b);
    ValueRoundTrip(w, toks, b, c);
  }

  lemma PairsCons(toks: seq<Token>, p: nat, kt: int, vt: int, k: Value, w: Value, b: nat, c: nat,
                  ps: seq<(Value, Value)>, q: nat)
    requires p <= |toks| && DecodeValue(toks, p, kt) == Done(k, b) && DecodeValue(toks, b, vt) == Done(w, c)
    requires PairsAt(toks, c, kt, vt, ps, q)
    ensures PairsAt(toks, p, kt, vt, [(k, w)] + ps, q)
  {
    assert ([(k, w)] + ps)[1..] == ps;
  }

  /** The entries the encoder wrote for `ks` are read back as its pairs, in order. */
  lemma {:induction false} PairsRoundTrip(parent: Value, ks: set<Value>, toks: seq<Token>, p: nat, q: nat)
    requires parent.Map? && WellFormed(parent) && ks <= parent.entries.Keys
    requires At(toks, p, EncodeEntries(parent, ks)) && q == p + |EncodeEntries(parent, ks)|
    ensures p <= |toks|
    ensures PairsAt(toks, p, TType.TagNamed(parent.keyType), TType.TagNamed(parent.valueType),
                    EntryPairs(parent, ks), q)
    decreases parent, 0, |ks|
  {
    if ks != {} {
      var k := Pick(ks);
      var w := parent.entries[k];
      var rest := ks - {k};
      var b := p + 1;
      var c := b + |Encode(w)|;
      EntryRoundTrip(parent, ks, k, toks, p, b, c);
      PairsRoundTrip(parent, rest, toks, c, q);
      assert EntryPairs(parent, ks) == [(k, w)] + EntryPairs(parent, rest);
      PairsCons(toks, p, TType.TagNamed(parent.keyType), TType.TagNamed(parent.valueType),
                k, w, b, c, EntryPairs(parent, rest), q);
    }
  }

  lemma {:induction false} PairKeysHashable(parent: Value, ks: set<Value>)
    requires parent.Map? && WellFormed(parent) && ks <= parent.entries.Keys
    ensures KeysHashable(EntryPairs(parent, ks))
    decreases |ks|
  {
    if ks != {} {
      var k := Pick(ks);
      PairKeysHashable(parent, ks - {k});
      var ps := EntryPairs(parent, ks);
      assert ps[0] == (k, parent.entries[k]) && ps[1..] == EntryPairs(parent, ks - {k});
      assert Hashable(k);
      forall i | 0 <= i < |ps|
        ensures Hashable(ps[i].0)
      {
        if i > 0 {
          assert ps[i] == ps[1..][i - 1];
        }
      }
    }
  }

  /** Inserting the encoder's pairs in order adds exactly the entries for `ks`. */
  lemma {:induction false} InsertedPairs(parent: Value, ks: set<Value>, acc: map<Value, Value>)
    requires parent.Map? && ks <= parent.entries.Keys
    ensures Inserted(acc, EntryPairs(parent, ks)) == acc + Restrict(parent.entries, ks)
    decreases |ks|
  {
    var m := parent.entries;
    if ks == {} {
      assert acc + Restrict(m, ks) == acc;
    } else {
      var k := Pick(ks);
      var ps := EntryPairs(parent, ks);
      assert ps[0] == (k, m[k]) && ps[1..] == EntryPairs(parent, ks - {k});
      InsertedPairs(parent, ks - {k}, acc[k := m[k]]);
      RestrictCons(acc, m, k, ks);
    }
  }

  /** The map loop reads back exactly the entries the encoder wrote. */
  lemma EntriesRoundTrip(v: Value, toks: seq<Token>, p: nat, q: nat)
    requires v.Map? && WellFormed(v)
    requires At(toks, p, EncodeEntries(v, v.entries.Keys)) && q == p + |EncodeEntries(v, v.entries.Keys)|
    ensures DecodeMapEntries(toks, p, TType.TagNamed(v.keyType), TType.TagNamed(v.valueType), |v.entries|, map[])
         == Done(v.entries, q)
    decreases v, 0, |v.entries| + 1
  {
    var m := v.entries;
    var ps := EntryPairs(v, m.Keys);
    PairsRoundTrip(v, m.Keys, toks, p, q);
    PairKeysHashable(v, m.Keys);
    MapEntriesFromPairs(toks, p, TType.TagNamed(v.keyType), TType.TagNamed(v.valueType), ps, q, map[]);
    InsertedPairs(v, m.Keys, map[]);
    RestrictAll(m);
    assert |ps| == |m|;
  }

  /** Decoding a well-formed message written by the encoder, followed by
      anything at all, gives back exactly its fields: same ids, type names and
      values, in the same order. */
  lemma MessageRoundTrip(fs: seq<Field>, trailing: seq<Token>)
    requires forall i | 0 <= i < |fs| :: FieldWellFormed(fs[i])
    ensures Decode([StructBegin] + EncodeFields(Struct(fs), 0) + trailing) == Ok(fs)
  {
    var v := Struct(fs);
    var body := EncodeFields(v, 0);
    var toks := [StructBegin] + body + trailing;
    AtPlaced([StructBegin], body, trailing);
    FieldsRoundTrip(v, 0, toks, 1, 1 + |body|);
    assert fs[..0] == [];
  }
}
