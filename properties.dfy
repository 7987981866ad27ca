/** What the decoder promises, proved about the reference functions (and so,
    through their contracts, about the `ThriftDecoder` methods). */
module Properties {
  import opened Primitives
  import opened Values
  import opened Protocol
  import TType
  import Utf8
  import Hex
  import opened DecodeSpec

  function Max0(n: int): nat { if n < 0 then 0 else n }

  /** The distinct members of a sequence. */
  function Elements<T>(s: seq<T>): set<T> { set x | x in s }

  // ---------------------------------------------------------------- fields

  /** Reading headers from `p` yields exactly the fields `fs`, in order, each
      with its header's id, the table name of its tag and the value decoded
      with that tag, followed by FieldEnd; then a STOP header ending at `q`. */
  ghost predicate FieldsAt(toks: seq<Token>, p: nat, fs: seq<Field>, q: nat)
    requires p <= |toks|
    decreases |fs|
  {
    p < |toks| && toks[p].FieldHeader? &&
    var t := toks[p].fieldType;
    if fs == [] then t == TType.STOP && q == p + 1
    else
      && t != TType.STOP && t in TType.TypeNames
      && fs[0].id == toks[p].fieldId && fs[0].typeName == TType.TypeNames[t]
      && var d := DecodeValue(toks, p + 1, t);
      && d.Done? && d.value == fs[0].value && d.next < |toks| && toks[d.next].FieldEnd?
      && FieldsAt(toks, d.next + 1, fs[1..], q)
  }

  /** The loop only ever appends: what was read before stays in front. */
  lemma {:induction false} FieldsKeepPrefix(toks: seq<Token>, p: nat, acc: seq<Field>)
    requires p <= |toks|
    ensures var r := DecodeFields(toks, p, acc);
      r.Done? ==> |acc| <= |r.value| && r.value[..|acc|] == acc
    decreases |toks| - p
  {
    if p < |toks| && toks[p].FieldHeader? {
      var t := toks[p].fieldType;
      if t != TType.STOP && t in TType.TypeNames {
        var d := DecodeValue(toks, p + 1, t);
        if d.Done? && d.next < |toks| && toks[d.next].FieldEnd? {
          var acc' := acc + [Field(toks[p].fieldId, TType.TypeNames[t], d.value)];
          FieldsKeepPrefix(toks, d.next + 1, acc');
          assert acc'[..|acc|] == acc;
        }
      }
    }
  }

  /** A STOP header ends the field loop without reading a value. */
  lemma StopEndsFields(toks: seq<Token>, p: nat, acc: seq<Field>)
    requires p < |toks| && toks[p].FieldHeader? && toks[p].fieldType == TType.STOP
    ensures DecodeFields(toks, p, acc) == Done(acc, p + 1)
  {
  }

  /** A struct whose first header is STOP decodes to no fields. */
  lemma EmptyStruct(toks: seq<Token>, pos: nat, id: int)
    requires pos + 2 < |toks| && toks[pos] == StructBegin
    requires toks[pos + 1] == FieldHeader(TType.STOP, id) && toks[pos + 2] == StructEnd
    ensures DecodeStruct(toks, pos) == Done(Struct([]), pos + 3)
  {
  }

  /** A message whose first header is STOP decodes to no fields, whatever
      follows: the outer end marker is never read. */
  lemma EmptyMessage(toks: seq<Token>, id: int)
    requires 1 < |toks| && toks[0] == StructBegin && toks[1] == FieldHeader(TType.STOP, id)
    ensures Decode(toks) == Ok([])
  {
  }

  /** The field loop yields `fs` exactly when the stream holds those fields in
      that order (ids, type names, values) and then STOP. */
  lemma {:induction false} FieldsInWireOrder(toks: seq<Token>, p: nat, acc: seq<Field>, fs: seq<Field>, q: nat)
    requires p <= |toks|
    ensures DecodeFields(toks, p, acc) == Done(acc + fs, q) <==> FieldsAt(toks, p, fs, q)
    decreases |fs|
  {
    assert acc + [] == acc;
    if p < |toks| && toks[p].FieldHeader? {
      var t := toks[p].fieldType;
      if t != TType.STOP && t in TType.TypeNames {
        var d := DecodeValue(toks, p + 1, t);
        if d.Done? && d.next < |toks| && toks[d.next].FieldEnd? {
          var f := Field(toks[p].fieldId, TType.TypeNames[t], d.value);
          FieldsKeepPrefix(toks, d.next + 1, acc + [f]);
          if fs != [] {
            FieldsInWireOrder(toks, d.next + 1, acc + [fs[0]], fs[1..], q);
            assert acc + [fs[0]] + fs[1..] == acc + fs;
            if DecodeFields(toks, p, acc) == Done(acc + fs, q) {
              assert (acc + fs)[..|acc| + 1] == acc + [f];
              assert (acc + fs)[|acc|] == fs[0];
            }
          }
        }
      }
    }
  }

  /** The outer decode succeeds with `fs` exactly when the stream opens a
      struct and then holds `fs` in wire order up to a STOP header. */
  lemma DecodeInWireOrder(toks: seq<Token>, fs: seq<Field>)
    ensures Decode(toks) == Ok(fs) <==>
      0 < |toks| && toks[0].StructBegin? && exists q :: FieldsAt(toks, 1, fs, q)
  {
    if 0 < |toks| && toks[0].StructBegin? {
      assert [] + fs == fs;
      if Decode(toks) == Ok(fs) {
        FieldsInWireOrder(toks, 1, [], fs, DecodeFields(toks, 1, []).next);
      }
      if q :| FieldsAt(toks, 1, fs, q) {
        FieldsInWireOrder(toks, 1, [], fs, q);
      }
    }
  }

  // ---------------------------------------------------------------- scalars and strings

  /** The tag and value a single scalar or string item decodes to. */
  function ItemValue(t: Token): Option<(int, Value)> {
    match t
    case BoolTok(b) => Some((TType.BOOL, Bool(b)))
    case ByteTok(b) => Some((TType.BYTE, Byte(b)))
    case DoubleTok(d) => Some((TType.DOUBLE, Double(d)))
    case I16Tok(i) => Some((TType.I16, I16(i)))
    case I32Tok(i) => Some((TType.I32, I32(i)))
    case I64Tok(i) => Some((TType.I64, I64(i)))
    case BinaryTok(bs) => Some((TType.STRING, StringValue(bs)))
    case _ => None
  }

  /** A scalar or string tag performs exactly one read of the matching kind
      and fails on any other item. A scalar payload is returned unchanged; for
      a string the result is the text or the diagnostic made from its bytes. */
  lemma ScalarReadsOneItem(toks: seq<Token>, pos: nat, tag: int)
    requires pos <= |toks|
    requires TType.Scalar(tag) || tag == TType.STRING
    ensures DecodeValue(toks, pos, tag) ==
      if pos < |toks| && ItemValue(toks[pos]).Some? && ItemValue(toks[pos]).value.0 == tag
      then Done(ItemValue(toks[pos]).value.1, pos + 1)
      else Fail(CodecError)
  {
  }

  /** A string is never an error: valid UTF-8 gives the text it encodes; any
      other bytes give the diagnostic, from which the bytes can be recovered. */
  lemma StringFallback(bs: seq<byte>)
    ensures StringValue(bs).Str?
    ensures Utf8.Decode(bs).Some? ==> Utf8.Encode(StringValue(bs).text) == bs
    ensures Utf8.Decode(bs).None? ==>
      var s := StringValue(bs).text;
      |s| == 28 + 2 * |bs| && s[..27] == "UnicodeDecodeError. binary(" && s[|s| - 1] == ')'
      && Hex.Unhex(s[27..|s| - 1]) == Some(bs)
  {
    match Utf8.Decode(bs)
    case Some(text) =>
      Utf8.DecodeIffEncode(bs, text);
    case None =>
      var s := Diagnostic(bs);
      assert s[27..|s| - 1] == Hex.Hex(bs);
      Hex.UnhexHex(bs);
  }

  /** A string field is recovered locally: the loop goes on to the next header. */
  lemma StringFieldContinues(toks: seq<Token>, pos: nat, acc: seq<Field>, id: int, bs: seq<byte>)
    requires pos + 2 < |toks|
    requires toks[pos] == FieldHeader(TType.STRING, id) && toks[pos + 1] == BinaryTok(bs)
    requires toks[pos + 2] == FieldEnd
    ensures DecodeFields(toks, pos, acc)
         == DecodeFields(toks, pos + 3, acc + [Field(id, "string", StringValue(bs))])
  {
  }

  // ---------------------------------------------------------------- unknown tags

  /** A tag without a dispatch branch (void and enum included) is an error,
      raised before anything is read. */
  lemma UnknownTagFails(toks: seq<Token>, pos: nat, tag: int)
    requires pos <= |toks| && !TType.Dispatched(tag)
    ensures DecodeValue(toks, pos, tag) == Fail(UnknownType(tag))
  {
  }

  /** A field header whose tag has no table entry fails at the name lookup; a
      void or enum field has a name but fails in dispatch. Either way the whole
      field loop fails, whatever follows. */
  lemma BadFieldTagAborts(toks: seq<Token>, pos: nat, acc: seq<Field>)
    requires pos < |toks| && toks[pos].FieldHeader?
    requires toks[pos].fieldType != TType.STOP && !TType.Dispatched(toks[pos].fieldType)
    ensures var t := toks[pos].fieldType;
      DecodeFields(toks, pos, acc) ==
        if t in TType.TypeNames then Fail(UnknownType(t)) else Fail(NoTypeName(t))
  {
  }

  /** An error in a field's value aborts the struct with that same error. */
  lemma FieldErrorAborts(toks: seq<Token>, pos: nat, acc: seq<Field>)
    requires pos < |toks| && toks[pos].FieldHeader?
    requires toks[pos].fieldType != TType.STOP && toks[pos].fieldType in TType.TypeNames
    requires DecodeValue(toks, pos + 1, toks[pos].fieldType).Fail?
    ensures DecodeFields(toks, pos, acc) == Fail(DecodeValue(toks, pos + 1, toks[pos].fieldType).error)
  {
  }

  // ---------------------------------------------------------------- containers

  /** Reading `es` from `p`, one value per element, all with the tag `t`,
      in this order, ends at `q`. */
  ghost predicate ItemsAt(toks: seq<Token>, p: nat, t: int, es: seq<Value>, q: nat)
    requires p <= |toks|
    decreases |es|
  {
    if es == [] then q == p
    else
      var d := DecodeValue(toks, p, t);
      d.Done? && d.value == es[0] && ItemsAt(toks, d.next, t, es[1..], q)
  }

  /** The list loop only ever appends. */
  lemma {:induction false} ListItemsKeepPrefix(toks: seq<Token>, p: nat, t: int, count: int, acc: seq<Value>)
    requires p <= |toks|
    ensures var r := DecodeListItems(toks, p, t, count, acc);
      r.Done? ==> |r.value| == |acc| + Max0(count) && r.value[..|acc|] == acc
    decreases |toks| - p
  {
    if count > 0 {
      var d := DecodeValue(toks, p, t);
      if d.Done? {
        ListItemsKeepPrefix(toks, d.next, t, count - 1, acc + [d.value]);
        assert (acc + [d.value])[..|acc|] == acc;
      }
    }
  }

  /** The list loop yields `acc + es` exactly when `es` has one element per
      declared slot and they are read in order with the declared tag:
      order and duplicates are kept. */
  lemma {:induction false} ListItemsInOrder(toks: seq<Token>, p: nat, t: int, count: int,
                                            acc: seq<Value>, es: seq<Value>, q: nat)
    requires p <= |toks|
    ensures DecodeListItems(toks, p, t, count, acc) == Done(acc + es, q)
        <==> |es| == Max0(count) && ItemsAt(toks, p, t, es, q)
    decreases |es|
  {
    assert acc + [] == acc;
    if count > 0 {
      var d := DecodeValue(toks, p, t);
      if d.Done? {
        ListItemsKeepPrefix(toks, d.next, t, count - 1, acc + [d.value]);
        if es != [] {
          ListItemsInOrder(toks, d.next, t, count - 1, acc + [es[0]], es[1..], q);
          assert acc + [es[0]] + es[1..] == acc + es;
          if DecodeListItems(toks, p, t, count, acc) == Done(acc + es, q) {
            assert (acc + es)[..|acc| + 1] == acc + [d.value];
            assert (acc + es)[|acc|] == es[0];
          }
        }
      }
    }
  }

  /** `readList` succeeds with `List(name, es)` exactly when the stream holds
      a list header, then exactly `size` elements of its declared type in the
      order of `es`, then the end marker, and the declared type has a name. */
  lemma ListDecodesDeclaredItems(toks: seq<Token>, pos: nat, name: string, es: seq<Value>, q: nat)
    requires pos <= |toks|
    ensures DecodeList(toks, pos) == Done(List(name, es), q + 1) <==>
      && pos < |toks| && toks[pos].ListBegin?
      && var t := toks[pos].elemType;
      && t in TType.TypeNames && name == TType.TypeNames[t]
      && |es| == Max0(toks[pos].size) && ItemsAt(toks, pos + 1, t, es, q)
      && q < |toks| && toks[q].ListEnd?
  {
    if pos < |toks| && toks[pos].ListBegin? {
      assert [] + es == es;
      ListItemsInOrder(toks, pos + 1, toks[pos].elemType, toks[pos].size, [], es, q);
    }
  }

  /** The list loop started from an accumulator is the loop started empty,
      with the accumulator in front. */
  lemma {:induction false} ListItemsFromAcc(toks: seq<Token>, p: nat, t: int, count: int, acc: seq<Value>)
    requires p <= |toks|
    ensures DecodeListItems(toks, p, t, count, acc) ==
      match DecodeListItems(toks, p, t, count, [])
      case Done(es, q) => Done(acc + es, q)
      case Fail(e) => Fail(e)
    decreases |toks| - p
  {
    if count > 0 {
      var d := DecodeValue(toks, p, t);
      if d.Done? {
        ListItemsFromAcc(toks, d.next, t, count - 1, acc + [d.value]);
        ListItemsFromAcc(toks, d.next, t, count - 1, [d.value]);
        assert [] + [d.value] == [d.value];
        match DecodeListItems(toks, d.next, t, count - 1, [])
        case Done(es, q) =>
          assert acc + [d.value] + es == acc + ([d.value] + es);
        case Fail(e) =>
      }
    } else {
      assert acc + [] == acc;
    }
  }

  /** A value decoded with a struct, map, set or list tag is unhashable, and
      one decoded with any other tag is hashable. */
  lemma HashableIffScalarTag(toks: seq<Token>, p: nat, t: int)
    requires p <= |toks| && DecodeValue(toks, p, t).Done?
    ensures Hashable(DecodeValue(toks, p, t).value) <==> !TType.Compound(t)
  {
    if TType.Compound(t) {
      assert DecodeValue(toks, p, t) == DecodeContainer(toks, p, t);
    }
  }

  /** The set loop over an element type with hashable values is the list loop
      with equal elements collapsed; with a struct or container element type
      the first element that is read successfully raises Unhashable. */
  lemma {:induction false} SetItemsCollapseList(toks: seq<Token>, p: nat, t: int, count: int, acc: set<Value>)
    requires p <= |toks|
    ensures !TType.Compound(t) ==>
      DecodeSetItems(toks, p, t, count, acc) ==
        match DecodeListItems(toks, p, t, count, [])
        case Done(es, q) => Done(acc + Elements(es), q)
        case Fail(e) => Fail(e)
    ensures TType.Compound(t) && count > 0 ==>
      DecodeSetItems(toks, p, t, count, acc) ==
        match DecodeValue(toks, p, t)
        case Done(_, _) => Fail(Unhashable)
        case Fail(e) => Fail(e)
    decreases |toks| - p
  {
    if count > 0 {
      var d := DecodeValue(toks, p, t);
      if d.Done? {
        HashableIffScalarTag(toks, p, t);
        if !TType.Compound(t) {
          SetItemsCollapseList(toks, d.next, t, count - 1, acc + {d.value});
          ListItemsFromAcc(toks, d.next, t, count - 1, [d.value]);
          assert [] + [d.value] == [d.value];
          match DecodeListItems(toks, d.next, t, count - 1, [])
          case Done(es, q) =>
            assert Elements([d.value] + es) == {d.value} + Elements(es);
            assert acc + {d.value} + Elements(es) == acc + Elements([d.value] + es);
          case Fail(e) =>
        }
      }
    } else {
      assert acc + Elements<Value>([]) == acc;
    }
  }

  /** A sequence has no more distinct members than elements. */
  lemma {:induction false} ElementsBound<T>(s: seq<T>)
    ensures |Elements(s)| <= |s|
  {
    if s != [] {
      ElementsBound(s[1..]);
      assert Elements(s) == {s[0]} + Elements(s[1..]);
    }
  }

  /** `readSet` reads exactly `size` elements of the declared type, in order,
      and keeps each distinct one once: at most `size` members. */
  lemma SetCollapsesDeclaredItems(toks: seq<Token>, pos: nat)
    requires pos <= |toks| && DecodeSet(toks, pos).Done?
    ensures var h, v := toks[pos], DecodeSet(toks, pos).value;
      && h.SetBegin? && h.elemType in TType.TypeNames && !(TType.Compound(h.elemType) && h.size > 0)
      && v == Set(TType.TypeNames[h.elemType], v.elems)
      && var l := DecodeListItems(toks, pos + 1, h.elemType, h.size, []);
      && l.Done? && v.elems == Elements(l.value) && |l.value| == Max0(h.size)
      && l.next + 1 == DecodeSet(toks, pos).next
      && |v.elems| <= Max0(h.size)
  {
    var h := toks[pos];
    SetItemsCollapseList(toks, pos + 1, h.elemType, h.size, {});
    var l := DecodeListItems(toks, pos + 1, h.elemType, h.size, []);
    if !TType.Compound(h.elemType) {
      assert {} + Elements(l.value) == Elements(l.value);
      ListItemsKeepPrefix(toks, pos + 1, h.elemType, h.size, []);
      ElementsBound(l.value);
    }
  }

  /** Where reading the pairs `ps` from `p` ends: each key with tag `kt`,
      then its value with tag `vt`, in this order; None when the items at `p`
      do not decode to these pairs. */
  ghost function PairsEnd(toks: seq<Token>, p: nat, kt: int, vt: int, ps: seq<(Value, Value)>): Option<nat>
    requires p <= |toks|
    decreases |ps|
  {
    if ps == [] then Some(p)
    else
      match DecodeValue(toks, p, kt)
      case Fail(_) => None
      case Done(k, p1) =>
        if k != ps[0].0 then None
        else
          match DecodeValue(toks, p1, vt)
          case Fail(_) => None
          case Done(w, p2) => if w != ps[0].1 then None else PairsEnd(toks, p2, kt, vt, ps[1..])
  }

  /** The pairs `ps` sit at `p` and end at `q`. */
  ghost predicate PairsAt(toks: seq<Token>, p: nat, kt: int, vt: int, ps: seq<(Value, Value)>, q: nat)
    requires p <= |toks|
  {
    PairsEnd(toks, p, kt, vt, ps) == Some(q)
  }

  /** Every key can be a dict key. */
  predicate KeysHashable(ps: seq<(Value, Value)>) {
    forall i :: 0 <= i < |ps| ==> Hashable(ps[i].0)
  }

  /** `kvMap[key] = value` for each pair in turn. */
  function Inserted(acc: map<Value, Value>, ps: seq<(Value, Value)>): map<Value, Value>
    decreases |ps|
  {
    if ps == [] then acc else Inserted(acc[ps[0].0 := ps[0].1], ps[1..])
  }

  /** The keys after inserting are the keys before plus every key inserted. */
  lemma {:induction false} InsertedKeys(acc: map<Value, Value>, ps: seq<(Value, Value)>, k: Value)
    ensures k in Inserted(acc, ps) <==> k in acc || exists i :: 0 <= i < |ps| && ps[i].0 == k
    decreases |ps|
  {
    if ps != [] {
      InsertedKeys(acc[ps[0].0 := ps[0].1], ps[1..], k);
      if exists i :: 0 <= i < |ps| && ps[i].0 == k {
        var i :| 0 <= i < |ps| && ps[i].0 == k;
        if i > 0 {
          assert ps[1..][i - 1].0 == k;
        }
      }
      if exists i :: 0 <= i < |ps[1..]| && ps[1..][i].0 == k {
        var i :| 0 <= i < |ps[1..]| && ps[1..][i].0 == k;
        assert ps[i + 1].0 == k;
      }
    }
  }

  /** Last write wins: a key ends up with the value of its last pair. */
  lemma {:induction false} InsertedLastWins(acc: map<Value, Value>, ps: seq<(Value, Value)>, i: nat)
    requires i < |ps|
    requires forall j :: i < j < |ps| ==> ps[j].0 != ps[i].0
    ensures ps[i].0 in Inserted(acc, ps) && Inserted(acc, ps)[ps[i].0] == ps[i].1
    decreases |ps|
  {
    if i == 0 {
      InsertedUntouched(acc[ps[0].0 := ps[0].1], ps[1..], ps[0].0);
    } else {
      InsertedLastWins(acc[ps[0].0 := ps[0].1], ps[1..], i - 1);
    }
  }

  /** A key no pair mentions keeps its entry. */
  lemma {:induction false} InsertedUntouched(acc: map<Value, Value>, ps: seq<(Value, Value)>, k: Value)
    requires k in acc
    requires forall j :: 0 <= j < |ps| ==> ps[j].0 != k
    ensures k in Inserted(acc, ps) && Inserted(acc, ps)[k] == acc[k]
    decreases |ps|
  {
    if ps != [] {
      InsertedUntouched(acc[ps[0].0 := ps[0].1], ps[1..], k);
    }
  }

  /** Inserting `n` pairs adds at most `n` entries. */
  lemma {:induction false} InsertedSize(acc: map<Value, Value>, ps: seq<(Value, Value)>)
    ensures |Inserted(acc, ps)| <= |acc| + |ps|
    decreases |ps|
  {
    if ps != [] {
      InsertedSize(acc[ps[0].0 := ps[0].1], ps[1..]);
      assert acc[ps[0].0 := ps[0].1].Keys <= acc.Keys + {ps[0].0};
    }
  }

  /** Given the pairs on the wire, the map loop inserts them in order. */
  lemma {:induction false} MapEntriesFromPairs(toks: seq<Token>, p: nat, kt: int, vt: int,
                                               ps: seq<(Value, Value)>, q: nat, acc: map<Value, Value>)
    requires p <= |toks| && PairsAt(toks, p, kt, vt, ps, q)
    requires KeysHashable(ps)
    ensures DecodeMapEntries(toks, p, kt, vt, |ps|, acc) == Done(Inserted(acc, ps), q)
    decreases |ps|
  {
    if ps != [] {
      var k := DecodeValue(toks, p, kt);
      var v := DecodeValue(toks, k.next, vt);
      assert Hashable(ps[0].0);
      MapEntriesFromPairs(toks, v.next, kt, vt, ps[1..], q, acc[ps[0].0 := ps[0].1]);
    }
  }

  /** A successful map loop read some pairs, all with hashable keys, and inserted them in order. */
  lemma {:induction false} MapEntriesReadPairs(toks: seq<Token>, p: nat, kt: int, vt: int, count: int,
                                               acc: map<Value, Value>)
    requires p <= |toks| && DecodeMapEntries(toks, p, kt, vt, count, acc).Done?
    ensures var r := DecodeMapEntries(toks, p, kt, vt, count, acc);
      exists ps: seq<(Value, Value)> :: |ps| == Max0(count) && PairsAt(toks, p, kt, vt, ps, r.next)
        && KeysHashable(ps) && r.value == Inserted(acc, ps)
    decreases |toks| - p
  {
    var r := DecodeMapEntries(toks, p, kt, vt, count, acc);
    if count <= 0 {
      var ps: seq<(Value, Value)> := [];
      assert PairsAt(toks, p, kt, vt, ps, r.next);
    } else {
      var k := DecodeValue(toks, p, kt);
      var v := DecodeValue(toks, k.next, vt);
      var acc' := acc[k.value := v.value];
      MapEntriesReadPairs(toks, v.next, kt, vt, count - 1, acc');
      var ps': seq<(Value, Value)> :| |ps'| == Max0(count - 1) && PairsAt(toks, v.next, kt, vt, ps', r.next)
        && KeysHashable(ps') && r.value == Inserted(acc', ps');
      var ps := [(k.value, v.value)] + ps';
      assert ps[1..] == ps';
      assert PairsAt(toks, p, kt, vt, ps, r.next);
    }
  }

  /** With a struct or container key type, the first pair whose key and value
      both decode raises Unhashable: the key is used only after the value is read. */
  lemma CompoundKeyFails(toks: seq<Token>, p: nat, kt: int, vt: int, count: int, acc: map<Value, Value>)
    requires p <= |toks| && TType.Compound(kt) && count > 0
    ensures DecodeMapEntries(toks, p, kt, vt, count, acc) ==
      match DecodeValue(toks, p, kt)
      case Fail(e) => Fail(e)
      case Done(_, b) =>
        match DecodeValue(toks, b, vt)
        case Fail(e) => Fail(e)
        case Done(_, _) => Fail(Unhashable)
  {
    if DecodeValue(toks, p, kt).Done? {
      HashableIffScalarTag(toks, p, kt);
    }
  }

  /** The map loop yields `m` exactly when the stream holds `size` key/value
      pairs, keys hashable, whose in-order insertion gives `m`. */
  lemma MapEntriesLastWriteWins(toks: seq<Token>, p: nat, kt: int, vt: int, count: int,
                                m: map<Value, Value>, q: nat)
    requires p <= |toks|
    ensures DecodeMapEntries(toks, p, kt, vt, count, map[]) == Done(m, q) <==>
      exists ps: seq<(Value, Value)> :: |ps| == Max0(count) && PairsAt(toks, p, kt, vt, ps, q)
        && KeysHashable(ps) && m == Inserted(map[], ps)
  {
    if DecodeMapEntries(toks, p, kt, vt, count, map[]) == Done(m, q) {
      MapEntriesReadPairs(toks, p, kt, vt, count, map[]);
    }
    if ps: seq<(Value, Value)> :|
         |ps| == Max0(count) && PairsAt(toks, p, kt, vt, ps, q) && KeysHashable(ps) && m == Inserted(map[], ps) {
      MapEntriesFromPairs(toks, p, kt, vt, ps, q, map[]);
      assert DecodeMapEntries(toks, p, kt, vt, |ps|, map[]) == DecodeMapEntries(toks, p, kt, vt, count, map[]) by {
        if count < 0 {
          assert |ps| == 0;
        }
      }
    }
  }

  /** `readMap` reads `size` pairs of the declared types, key before value, and
      holds at most `size` entries, each key with the value of its last pair. */
  lemma MapKeepsLastValues(toks: seq<Token>, pos: nat)
    requires pos <= |toks| && DecodeMap(toks, pos).Done?
    ensures var h, v := toks[pos], DecodeMap(toks, pos).value;
      && h.MapBegin? && h.keyType in TType.TypeNames && h.valueType in TType.TypeNames
      && v.Map? && v.keyType == TType.TypeNames[h.keyType] && v.valueType == TType.TypeNames[h.valueType]
      && |v.entries| <= Max0(h.size)
      && exists ps: seq<(Value, Value)> :: |ps| == Max0(h.size)
           && PairsAt(toks, pos + 1, h.keyType, h.valueType, ps, DecodeMap(toks, pos).next - 1)
           && v.entries == Inserted(map[], ps)
  {
    var h := toks[pos];
    var b := pos + 1;
    var r := DecodeMapEntries(toks, b, h.keyType, h.valueType, h.size, map[]);
    MapUnfolds(toks, pos);
    MapEntriesReadPairs(toks, b, h.keyType, h.valueType, h.size, map[]);
    var ps: seq<(Value, Value)> :| |ps| == Max0(h.size) && PairsAt(toks, b, h.keyType, h.valueType, ps, r.next)
      && KeysHashable(ps) && r.value == Inserted(map[], ps);
    InsertedSize(map[], ps);
    var e := DecodeMap(toks, pos).next - 1;
    assert e == r.next;
    assert PairsAt(toks, pos + 1, h.keyType, h.valueType, ps, e);
  }

  /** What a successful `readMap` consists of: the header, a successful loop
      over `size` pairs, and the end marker after it. */
  lemma MapUnfolds(toks: seq<Token>, pos: nat)
    requires pos <= |toks| && DecodeMap(toks, pos).Done?
    ensures pos < |toks| && toks[pos].MapBegin?
    ensures var h := toks[pos];
      var r := DecodeMapEntries(toks, pos + 1, h.keyType, h.valueType, h.size, map[]);
      && r.Done? && r.next < |toks| && toks[r.next].MapEnd?
      && h.keyType in TType.TypeNames && h.valueType in TType.TypeNames
      && DecodeMap(toks, pos) == Done(Map(TType.TypeNames[h.keyType], TType.TypeNames[h.valueType], r.value), r.next + 1)
  {
  }

  /** The declared type names of a container are looked up after its end
      marker: an empty container fails on an unnamed declared type, yet an
      empty container of a named but undecodable type (stop, void, enum) is fine. */
  lemma EmptyContainersLookUpNames(toks: seq<Token>, pos: nat)
    requires pos + 1 < |toks|
    ensures toks[pos].MapBegin? && toks[pos].size <= 0 && toks[pos + 1] == MapEnd ==>
      var kt, vt := toks[pos].keyType, toks[pos].valueType;
      DecodeMap(toks, pos) ==
        if kt !in TType.TypeNames then Fail(NoTypeName(kt))
        else if vt !in TType.TypeNames then Fail(NoTypeName(vt))
        else Done(Map(TType.TypeNames[kt], TType.TypeNames[vt], map[]), pos + 2)
    ensures toks[pos].SetBegin? && toks[pos].size <= 0 && toks[pos + 1] == SetEnd ==>
      var t := toks[pos].elemType;
      DecodeSet(toks, pos) ==
        if t !in TType.TypeNames then Fail(NoTypeName(t)) else Done(Set(TType.TypeNames[t], {}), pos + 2)
    ensures toks[pos].ListBegin? && toks[pos].size <= 0 && toks[pos + 1] == ListEnd ==>
      var t := toks[pos].elemType;
      DecodeList(toks, pos) ==
        if t !in TType.TypeNames then Fail(NoTypeName(t)) else Done(List(TType.TypeNames[t], []), pos + 2)
  {
  }
}
