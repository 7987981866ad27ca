/** The Thrift protocol object as the decoder sees it: a cursor over the items
    the wire codec would answer, one per protocol call. */
module Protocol {
  import opened Primitives
  import opened Values

  /** One answer of the protocol object. Struct, field and container begin/end
      calls are items of their own, so the order of calls is part of the input. */
  datatype Token =
    | StructBegin
    | StructEnd
    | FieldHeader(fieldType: int, fieldId: int)
    | FieldEnd
    | BoolTok(boolValue: bool)
    | ByteTok(byteValue: i8)
    | DoubleTok(doubleBits: Float64Bits)
    | I16Tok(i16Value: i16)
    | I32Tok(i32Value: i32)
    | I64Tok(i64Value: i64)
    | BinaryTok(bytes: seq<byte>)
    | MapBegin(keyType: int, valueType: int, size: int)
    | MapEnd
    | SetBegin(elemType: int, size: int)
    | SetEnd
    | ListBegin(elemType: int, size: int)
    | ListEnd

  /** A protocol object over one message: every read takes the next item if it
      is of the kind asked for and fails with CodecError (cursor unmoved) otherwise. */
  class TokenReader {
    const tokens: seq<Token>
    var pos: nat

    ghost predicate Valid()
      reads this
    {
      pos <= |tokens|
    }

    constructor (stream: seq<Token>)
      ensures Valid() && tokens == stream && pos == 0
    {
      tokens := stream;
      pos := 0;
    }

    method ReadStructBegin() returns (r: Result<()>)
      requires Valid()
      modifies this
      ensures Valid()
      ensures if old(pos) < |tokens| && tokens[old(pos)].StructBegin?
              then r == Ok(()) && pos == old(pos) + 1
              else r == Err(CodecError) && pos == old(pos)
    {
      if pos < |tokens| && tokens[pos].StructBegin? {
        r, pos := Ok(()), pos + 1;
      } else {
        r := Err(CodecError);
      }
    }

    method ReadStructEnd() returns (r: Result<()>)
      requires Valid()
      modifies this
      ensures Valid()
      ensures if old(pos) < |tokens| && tokens[old(pos)].StructEnd?
              then r == Ok(()) && pos == old(pos) + 1
              else r == Err(CodecError) && pos == old(pos)
    {
      if pos < |tokens| && tokens[pos].StructEnd? {
        r, pos := Ok(()), pos + 1;
      } else {
        r := Err(CodecError);
      }
    }

    /** `readFieldBegin`: the field's type tag and id. */
    method ReadFieldBegin() returns (r: Result<(int, int)>)
      requires Valid()
      modifies this
      ensures Valid()
      ensures if old(pos) < |tokens| && tokens[old(pos)].FieldHeader?
              then r == Ok((tokens[old(pos)].fieldType, tokens[old(pos)].fieldId)) && pos == old(pos) + 1
              else r == Err(CodecError) && pos == old(pos)
    {
      if pos < |tokens| && tokens[pos].FieldHeader? {
        r, pos := Ok((tokens[pos].fieldType, tokens[pos].fieldId)), pos + 1;
      } else {
        r := Err(CodecError);
      }
    }

    method ReadFieldEnd() returns (r: Result<()>)
      requires Valid()
      modifies this
      ensures Valid()
      ensures if old(pos) < |tokens| && tokens[old(pos)].FieldEnd?
              then r == Ok(()) && pos == old(pos) + 1
              else r == Err(CodecError) && pos == old(pos)
    {
      if pos < |tokens| && tokens[pos].FieldEnd? {
        r, pos := Ok(()), pos + 1;
      } else {
        r := Err(CodecError);
      }
    }

    method ReadBool() returns (r: Result<bool>)
      requires Valid()
      modifies this
      ensures Valid()
      ensures if old(pos) < |tokens| && tokens[old(pos)].BoolTok?
              then r == Ok(tokens[old(pos)].boolValue) && pos == old(pos) + 1
              else r == Err(CodecError) && pos == old(pos)
    {
      if pos < |tokens| && tokens[pos].BoolTok? {
        r, pos := Ok(tokens[pos].boolValue), pos + 1;
      } else {
        r := Err(CodecError);
      }
    }

    method ReadByte() returns (r: Result<i8>)
      requires Valid()
      modifies this
      ensures Valid()
      ensures if old(pos) < |tokens| && tokens[old(pos)].ByteTok?
              then r == Ok(tokens[old(pos)].byteValue) && pos == old(pos) + 1
              else r == Err(CodecError) && pos == old(pos)
    {
      if pos < |tokens| && tokens[pos].ByteTok? {
        r, pos := Ok(tokens[pos].byteValue), pos + 1;
      } else {
        r := Err(CodecError);
      }
    }

    method ReadDouble() returns (r: Result<Float64Bits>)
      requires Valid()
      modifies this
      ensures Valid()
      ensures if old(pos) < |tokens| && tokens[old(pos)].DoubleTok?
              then r == Ok(tokens[old(pos)].doubleBits) && pos == old(pos) + 1
              else r == Err(CodecError) && pos == old(pos)
    {
      if pos < |tokens| && tokens[pos].DoubleTok? {
        r, pos := Ok(tokens[pos].doubleBits), pos + 1;
      } else {
        r := Err(CodecError);
      }
    }

    method ReadI16() returns (r: Result<i16>)
      requires Valid()
      modifies this
      ensures Valid()
      ensures if old(pos) < |tokens| && tokens[old(pos)].I16Tok?
              then r == Ok(tokens[old(pos)].i16Value) && pos == old(pos) + 1
              else r == Err(CodecError) && pos == old(pos)
    {
      if pos < |tokens| && tokens[pos].I16Tok? {
        r, pos := Ok(tokens[pos].i16Value), pos + 1;
      } else {
        r := Err(CodecError);
      }
    }

    method ReadI32() returns (r: Result<i32>)
      requires Valid()
      modifies this
      ensures Valid()
      ensures if old(pos) < |tokens| && tokens[old(pos)].I32Tok?
              then r == Ok(tokens[old(pos)].i32Value) && pos == old(pos) + 1
              else r == Err(CodecError) && pos == old(pos)
    {
      if pos < |tokens| && tokens[pos].I32Tok? {
        r, pos := Ok(tokens[pos].i32Value), pos + 1;
      } else {
        r := Err(CodecError);
      }
    }

    method ReadI64() returns (r: Result<i64>)
      requires Valid()
      modifies this
      ensures Valid()
      ensures if old(pos) < |tokens| && tokens[old(pos)].I64Tok?
              then r == Ok(tokens[old(pos)].i64Value) && pos == old(pos) + 1
              else r == Err(CodecError) && pos == old(pos)
    {
      if pos < |tokens| && tokens[pos].I64Tok? {
        r, pos := Ok(tokens[pos].i64Value), pos + 1;
      } else {
        r := Err(CodecError);
      }
    }

    /** `readBinary`: the raw bytes of a string value. */
    method ReadBinary() returns (r: Result<seq<byte>>)
      requires Valid()
      modifies this
      ensures Valid()
      ensures if old(pos) < |tokens| && tokens[old(pos)].BinaryTok?
              then r == Ok(tokens[old(pos)].bytes) && pos == old(pos) + 1
              else r == Err(CodecError) && pos == old(pos)
    {
      if pos < |tokens| && tokens[pos].BinaryTok? {
        r, pos := Ok(tokens[pos].bytes), pos + 1;
      } else {
        r := Err(CodecError);
      }
    }

    /** `readMapBegin`: key type, value type and declared size. */
    method ReadMapBegin() returns (r: Result<(int, int, int)>)
      requires Valid()
      modifies this
      ensures Valid()
      ensures if old(pos) < |tokens| && tokens[old(pos)].MapBegin?
              then var t := tokens[old(pos)];
                   r == Ok((t.keyType, t.valueType, t.size)) && pos == old(pos) + 1
              else r == Err(CodecError) && pos == old(pos)
    {
      if pos < |tokens| && tokens[pos].MapBegin? {
        var t := tokens[pos];
        r, pos := Ok((t.keyType, t.valueType, t.size)), pos + 1;
      } else {
        r := Err(CodecError);
      }
    }

    method ReadMapEnd() returns (r: Result<()>)
      requires Valid()
      modifies this
      ensures Valid()
      ensures if old(pos) < |tokens| && tokens[old(pos)].MapEnd?
              then r == Ok(()) && pos == old(pos) + 1
              else r == Err(CodecError) && pos == old(pos)
    {
      if pos < |tokens| && tokens[pos].MapEnd? {
        r, pos := Ok(()), pos + 1;
      } else {
        r := Err(CodecError);
      }
    }

    /** `readSetBegin`: element type and declared size. */
    method ReadSetBegin() returns (r: Result<(int, int)>)
      requires Valid()
      modifies this
      ensures Valid()
      ensures if old(pos) < |tokens| && tokens[old(pos)].SetBegin?
              then r == Ok((tokens[old(pos)].elemType, tokens[old(pos)].size)) && pos == old(pos) + 1
              else r == Err(CodecError) && pos == old(pos)
    {
      if pos < |tokens| && tokens[pos].SetBegin? {
        r, pos := Ok((tokens[pos].elemType, tokens[pos].size)), pos + 1;
      } else {
        r := Err(CodecError);
      }
    }

    method ReadSetEnd() returns (r: Result<()>)
      requires Valid()
      modifies this
      ensures Valid()
      ensures if old(pos) < |tokens| && tokens[old(pos)].SetEnd?
              then r == Ok(()) && pos == old(pos) + 1
              else r == Err(CodecError) && pos == old(pos)
    {
      if pos < |tokens| && tokens[pos].SetEnd? {
        r, pos := Ok(()), pos + 1;
      } else {
        r := Err(CodecError);
      }
    }

    /** `readListBegin`: element type and declared size. */
    method ReadListBegin() returns (r: Result<(int, int)>)
      requires Valid()
      modifies this
      ensures Valid()
      ensures if old(pos) < |tokens| && tokens[old(pos)].ListBegin?
              then r == Ok((tokens[old(pos)].elemType, tokens[old(pos)].size)) && pos == old(pos) + 1
              else r == Err(CodecError) && pos == old(pos)
    {
      if pos < |tokens| && tokens[pos].ListBegin? {
        r, pos := Ok((tokens[pos].elemType, tokens[pos].size)), pos + 1;
      } else {
        r := Err(CodecError);
      }
    }

    method ReadListEnd() returns (r: Result<()>)
      requires Valid()
      modifies this
      ensures Valid()
      ensures if old(pos) < |tokens| && tokens[old(pos)].ListEnd?
              then r == Ok(()) && pos == old(pos) + 1
              else r == Err(CodecError) && pos == old(pos)
    {
      if pos < |tokens| && tokens[pos].ListEnd? {
        r, pos := Ok(()), pos + 1;
      } else {
        r := Err(CodecError);
      }
    }
  }
}
