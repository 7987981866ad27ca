/** The decoder as functions of the item stream and a cursor: the reference
    definition the imperative decoder is proved against. Each function gives
    the decoded value and the cursor after it, or the error that aborts. */
module DecodeSpec {
  import opened Primitives
  import opened Values
  import opened Protocol
  import TType
  import Utf8
  import Hex

  datatype Decoded<+T> = Done(value: T, next: nat) | Fail(error: DecodeError)

  /** A method result `r`, with the reader's cursor `pos` after the call, is what `d` says. */
  predicate Agrees<T(==)>(r: Result<T>, d: Decoded<T>, pos: nat) {
    match d
    case Done(v, n) => r == Ok(v) && pos == n
    case Fail(e) => r == Err(e)
  }

  /** The diagnostic that replaces a string whose bytes are not UTF-8. */
  function Diagnostic(bs: seq<byte>): string {
    "UnicodeDecodeError. binary(" + Hex.Hex(bs) + ")"
  }

  /** A string value: the decoded text, or the diagnostic; never an error. */
  function StringValue(bs: seq<byte>): (v: Value)
    ensures v.Str?
  {
    match Utf8.Decode(bs)
    case Some(text) => Str(text)
    case None => Str(Diagnostic(bs))
  }

  /** `readFieldValue(tag)`: one value of the given type, starting at `pos`. */
  function DecodeValue(toks: seq<Token>, pos: nat, tag: int): (r: Decoded<Value>)
    requires pos <= |toks|
    ensures r.Done? ==> pos < r.next <= |toks|
    decreases |toks| - pos, 2
  {
    if tag == TType.BOOL then
      if pos < |toks| && toks[pos].BoolTok? then Done(Bool(toks[pos].boolValue), pos + 1) else Fail(CodecError)
    else if tag == TType.BYTE then
      if pos < |toks| && toks[pos].ByteTok? then Done(Byte(toks[pos].byteValue), pos + 1) else Fail(CodecError)
    else if tag == TType.DOUBLE then
      if pos < |toks| && toks[pos].DoubleTok? then Done(Double(toks[pos].doubleBits), pos + 1) else Fail(CodecError)
    else if tag == TType.I16 then
      if pos < |toks| && toks[pos].I16Tok? then Done(I16(toks[pos].i16Value), pos + 1) else Fail(CodecError)
    else if tag == TType.I32 then
      if pos < |toks| && toks[pos].I32Tok? then Done(I32(toks[pos].i32Value), pos + 1) else Fail(CodecError)
    else if tag == TType.I64 then
      if pos < |toks| && toks[pos].I64Tok? then Done(I64(toks[pos].i64Value), pos + 1) else Fail(CodecError)
    else if tag == TType.STRING then
      if pos < |toks| && toks[pos].BinaryTok? then Done(StringValue(toks[pos].bytes), pos + 1) else Fail(CodecError)
    else if TType.Compound(tag) then DecodeContainer(toks, pos, tag)
    else Fail(UnknownType(tag))
  }

  /** The nested decoders `readFieldValue` dispatches to. */
  function DecodeContainer(toks: seq<Token>, pos: nat, tag: int): (r: Decoded<Value>)
    requires pos <= |toks| && TType.Compound(tag)
    ensures r.Done? ==> pos < r.next <= |toks|
    decreases |toks| - pos, 1
  {
    if tag == TType.STRUCT then DecodeStruct(toks, pos)
    else if tag == TType.MAP then DecodeMap(toks, pos)
    else if tag == TType.SET then DecodeSet(toks, pos)
    else DecodeList(toks, pos)
  }

  /** `readFields`, continuing with the fields `acc` already read: fields up to
      and including the STOP header. */
  function DecodeFields(toks: seq<Token>, pos: nat, acc: seq<Field>): (r: Decoded<seq<Field>>)
    requires pos <= |toks|
    ensures r.Done? ==> pos < r.next <= |toks|
    decreases |toks| - pos, 3
  {
    if !(pos < |toks| && toks[pos].FieldHeader?) then Fail(CodecError)
    else
      var ftype, fid := toks[pos].fieldType, toks[pos].fieldId;
      if ftype == TType.STOP then Done(acc, pos + 1)
      else if ftype !in TType.TypeNames then Fail(NoTypeName(ftype))
      else
        match DecodeValue(toks, pos + 1, ftype)
        case Fail(e) => Fail(e)
        case Done(v, p) =>
          if !(p < |toks| && toks[p].FieldEnd?) then Fail(CodecError)
          else DecodeFields(toks, p + 1, acc + [Field(fid, TType.TypeNames[ftype], v)])
  }

  /** `readStruct`: begin, fields, end. */
  function DecodeStruct(toks: seq<Token>, pos: nat): (r: Decoded<Value>)
    requires pos <= |toks|
    ensures r.Done? ==> pos < r.next <= |toks|
    decreases |toks| - pos, 0
  {
    if !(pos < |toks| && toks[pos].StructBegin?) then Fail(CodecError)
    else
      match DecodeFields(toks, pos + 1, [])
      case Fail(e) => Fail(e)
      case Done(fs, p) =>
        if !(p < |toks| && toks[p].StructEnd?) then Fail(CodecError)
        else Done(Struct(fs), p + 1)
  }

  /** The body of `readMap`'s loop, `count` iterations still to go. */
  function DecodeMapEntries(toks: seq<Token>, pos: nat, ktype: int, vtype: int, count: int,
                            acc: map<Value, Value>): (r: Decoded<map<Value, Value>>)
    requires pos <= |toks|
    ensures r.Done? ==> pos <= r.next <= |toks|
    decreases |toks| - pos, 3
  {
    if count <= 0 then Done(acc, pos)
    else
      match DecodeValue(toks, pos, ktype)
      case Fail(e) => Fail(e)
      case Done(key, p) =>
        match DecodeValue(toks, p, vtype)
        case Fail(e) => Fail(e)
        case Done(value, q) =>
          if !Hashable(key) then Fail(Unhashable)
          else DecodeMapEntries(toks, q, ktype, vtype, count - 1, acc[key := value])
  }

  /** `readMap`: the declared types are looked up only after the end marker. */
  function DecodeMap(toks: seq<Token>, pos: nat): (r: Decoded<Value>)
    requires pos <= |toks|
    ensures r.Done? ==> pos < r.next <= |toks|
    decreases |toks| - pos, 0
  {
    if !(pos < |toks| && toks[pos].MapBegin?) then Fail(CodecError)
    else
      var ktype, vtype, size := toks[pos].keyType, toks[pos].valueType, toks[pos].size;
      match DecodeMapEntries(toks, pos + 1, ktype, vtype, size, map[])
      case Fail(e) => Fail(e)
      case Done(m, p) =>
        if !(p < |toks| && toks[p].MapEnd?) then Fail(CodecError)
        else if ktype !in TType.TypeNames then Fail(NoTypeName(ktype))
        else if vtype !in TType.TypeNames then Fail(NoTypeName(vtype))
        else Done(Map(TType.TypeNames[ktype], TType.TypeNames[vtype], m), p + 1)
  }

  /** The body of `readSet`'s loop, `count` iterations still to go. */
  function DecodeSetItems(toks: seq<Token>, pos: nat, etype: int, count: int,
                          acc: set<Value>): (r: Decoded<set<Value>>)
    requires pos <= |toks|
    ensures r.Done? ==> pos <= r.next <= |toks|
    decreases |toks| - pos, 3
  {
    if count <= 0 then Done(acc, pos)
    else
      match DecodeValue(toks, pos, etype)
      case Fail(e) => Fail(e)
      case Done(v, p) =>
        if !Hashable(v) then Fail(Unhashable)
        else DecodeSetItems(toks, p, etype, count - 1, acc + {v})
  }

  /** `readSet`. */
  function DecodeSet(toks: seq<Token>, pos: nat): (r: Decoded<Value>)
    requires pos <= |toks|
    ensures r.Done? ==> pos < r.next <= |toks|
    decreases |toks| - pos, 0
  {
    if !(pos < |toks| && toks[pos].SetBegin?) then Fail(CodecError)
    else
      var etype, size := toks[pos].elemType, toks[pos].size;
      match DecodeSetItems(toks, pos + 1, etype, size, {})
      case Fail(e) => Fail(e)
      case Done(s, p) =>
        if !(p < |toks| && toks[p].SetEnd?) then Fail(CodecError)
        else if etype !in TType.TypeNames then Fail(NoTypeName(etype))
        else Done(Set(TType.TypeNames[etype], s), p + 1)
  }

  /** The body of `readList`'s loop, `count` iterations still to go. */
  function DecodeListItems(toks: seq<Token>, pos: nat, etype: int, count: int,
                           acc: seq<Value>): (r: Decoded<seq<Value>>)
    requires pos <= |toks|
    ensures r.Done? ==> pos <= r.next <= |toks|
    decreases |toks| - pos, 3
  {
    if count <= 0 then Done(acc, pos)
    else
      match DecodeValue(toks, pos, etype)
      case Fail(e) => Fail(e)
      case Done(v, p) => DecodeListItems(toks, p, etype, count - 1, acc + [v])
  }

  /** `readList`. */
  function DecodeList(toks: seq<Token>, pos: nat): (r: Decoded<Value>)
    requires pos <= |toks|
    ensures r.Done? ==> pos < r.next <= |toks|
    decreases |toks| - pos, 0
  {
    if !(pos < |toks| && toks[pos].ListBegin?) then Fail(CodecError)
    else
      var etype, size := toks[pos].elemType, toks[pos].size;
      match DecodeListItems(toks, pos + 1, etype, size, [])
      case Fail(e) => Fail(e)
      case Done(vs, p) =>
        if !(p < |toks| && toks[p].ListEnd?) then Fail(CodecError)
        else if etype !in TType.TypeNames then Fail(NoTypeName(etype))
        else Done(List(TType.TypeNames[etype], vs), p + 1)
  }

  /** `decode`: open the outer struct and read its fields. The outer struct's
      end marker, and anything after the outer STOP, are never read. */
  function Decode(toks: seq<Token>): Result<seq<Field>> {
    if !(0 < |toks| && toks[0].StructBegin?) then Err(CodecError)
    else
      match DecodeFields(toks, 1, [])
      case Fail(e) => Err(e)
      case Done(fs, _) => Ok(fs)
  }
}
