/** The generic value tree the decoder builds, and the ways a decode can fail. */
module Values {
  import opened Primitives

  /** One decoded value. Strings (text or the UTF-8 fallback diagnostic) are both
      Python `str`; a struct is its list of fields; containers carry the display
      names of their declared element types. */
  datatype Value =
    | Bool(boolValue: bool)
    | Byte(byteValue: i8)
    | Double(doubleBits: Float64Bits)
    | I16(i16Value: i16)
    | I32(i32Value: i32)
    | I64(i64Value: i64)
    | Str(text: string)
    | Struct(fields: seq<Field>)
    | Map(keyType: string, valueType: string, entries: map<Value, Value>)
    | Set(elemType: string, elems: set<Value>)
    | List(elemType: string, items: seq<Value>)

  /** A field record: its id, the display name of its type, and its value. */
  datatype Field = Field(id: int, typeName: string, value: Value)

  /** Python can hash the scalars and strings; a struct (a list) and the
      map, set and list results (dicts) cannot be set members or dict keys. */
  predicate Hashable(v: Value) {
    !(v.Struct? || v.Map? || v.Set? || v.List?)
  }

  /** What aborts a decode. */
  datatype DecodeError =
    | CodecError            // the protocol object raised: wrong kind of item, or the input ran out
    | UnknownType(tag: int) // `readFieldValue` has no branch for this tag
    | NoTypeName(tag: int)  // `typeNameMap[tag]` raised KeyError
    | Unhashable            // a struct or container value used as a set member or map key

  datatype Result<+T> = Ok(value: T) | Err(error: DecodeError)
}
