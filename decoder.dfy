/** `ThriftDecoder`: the recursive-descent decoder over a protocol object it
    holds in a field and whose cursor every read advances. */
module Decoder {
  import opened Primitives
  import opened Values
  import opened Protocol
  import TType
  import Utf8
  import opened DecodeSpec

  class ThriftDecoder {
    var protocol: TokenReader

    /** Before the first `Decode` the decoder holds a reader over no input. */
    constructor ()
      ensures protocol.Valid() && protocol.tokens == []
    {
      protocol := new TokenReader([]);
    }

    /** `decode`: a new protocol object over the input, the outer struct's
        begin, then its fields. */
    method Decode(data: seq<Token>) returns (r: Result<seq<Field>>)
      modifies this
      ensures fresh(protocol) && protocol.Valid() && protocol.tokens == data
      ensures r == DecodeSpec.Decode(data)
    {
      protocol := new TokenReader(data);
      var b := protocol.ReadStructBegin();
      if b.Err? {
        return Err(b.error);
      }
      r := ReadFields();
    }

    /** `readFields`: field records in wire order until a STOP header. */
    method ReadFields() returns (r: Result<seq<Field>>)
      requires protocol.Valid()
      modifies protocol
      ensures protocol.Valid()
      ensures Agrees(r, DecodeFields(protocol.tokens, old(protocol.pos), []), protocol.pos)
      decreases |protocol.tokens| - protocol.pos, 2
    {
      var fields: seq<Field> := [];
      while true
        invariant protocol.Valid() && old(protocol.pos) <= protocol.pos
        invariant DecodeFields(protocol.tokens, old(protocol.pos), [])
               == DecodeFields(protocol.tokens, protocol.pos, fields)
        decreases |protocol.tokens| - protocol.pos
      {
        var header := protocol.ReadFieldBegin();
        if header.Err? {
          return Err(header.error);
        }
        var (ftype, fid) := header.value;
        if ftype == TType.STOP {
          break;
        }
        if ftype !in TType.TypeNames {
          return Err(NoTypeName(ftype));
        }
        var name := TType.TypeNames[ftype];
        var value := ReadFieldValue(ftype);
        if value.Err? {
          return Err(value.error);
        }
        fields := fields + [Field(fid, name, value.value)];
        var e := protocol.ReadFieldEnd();
        if e.Err? {
          return Err(e.error);
        }
      }
      r := Ok(fields);
    }

    /** `readFieldValue`: dispatch on the tag to one read or one nested decoder. */
    method ReadFieldValue(tag: int) returns (r: Result<Value>)
      requires protocol.Valid()
      modifies protocol
      ensures protocol.Valid()
      ensures Agrees(r, DecodeValue(protocol.tokens, old(protocol.pos), tag), protocol.pos)
      decreases |protocol.tokens| - protocol.pos, 1
    {
      if tag == TType.BOOL {
        var b := protocol.ReadBool();
        r := if b.Ok? then Ok(Bool(b.value)) else Err(b.error);
      } else if tag == TType.BYTE {
        var b := protocol.ReadByte();
        r := if b.Ok? then Ok(Byte(b.value)) else Err(b.error);
      } else if tag == TType.DOUBLE {
        var d := protocol.ReadDouble();
        r := if d.Ok? then Ok(Double(d.value)) else Err(d.error);
      } else if tag == TType.I16 {
        var i := protocol.ReadI16();
        r := if i.Ok? then Ok(I16(i.value)) else Err(i.error);
      } else if tag == TType.I32 {
        var i := protocol.ReadI32();
        r := if i.Ok? then Ok(I32(i.value)) else Err(i.error);
      } else if tag == TType.I64 {
        var i := protocol.ReadI64();
        r := if i.Ok? then Ok(I64(i.value)) else Err(i.error);
      } else if tag == TType.STRING {
        var binary := protocol.ReadBinary();
        if binary.Err? {
          return Err(binary.error);
        }
        match Utf8.Decode(binary.value)
        case Some(text) =>
          r := Ok(Str(text));
        case None =>
          r := Ok(Str(Diagnostic(binary.value)));
      } else if tag == TType.STRUCT {
        r := ReadStruct();
      } else if tag == TType.MAP {
        r := ReadMap();
      } else if tag == TType.SET {
        r := ReadSet();
      } else if tag == TType.LIST {
        r := ReadList();
      } else {
        r := Err(UnknownType(tag));
      }
    }

    /** `readStruct`. */
    method ReadStruct() returns (r: Result<Value>)
      requires protocol.Valid()
      modifies protocol
      ensures protocol.Valid()
      ensures Agrees(r, DecodeStruct(protocol.tokens, old(protocol.pos)), protocol.pos)
      decreases |protocol.tokens| - protocol.pos, 0
    {
      var b := protocol.ReadStructBegin();
      if b.Err? {
        return Err(b.error);
      }
      var fields := ReadFields();
      if fields.Err? {
        return Err(fields.error);
      }
      var e := protocol.ReadStructEnd();
      if e.Err? {
        return Err(e.error);
      }
      r := Ok(Struct(fields.value));
    }

    /** `readMap`: `size` key/value pairs, each key read before its value; a
        later equal key overwrites the earlier entry. */
    method ReadMap() returns (r: Result<Value>)
      requires protocol.Valid()
      modifies protocol
      ensures protocol.Valid()
      ensures Agrees(r, DecodeMap(protocol.tokens, old(protocol.pos)), protocol.pos)
      decreases |protocol.tokens| - protocol.pos, 0
    {
      var kvMap: map<Value, Value> := map[];
      var header := protocol.ReadMapBegin();
      if header.Err? {
        return Err(header.error);
      }
      var (ktype, vtype, size) := header.value;
      ghost var start := protocol.pos;
      var i := 0;
      while i < size
        invariant protocol.Valid() && old(protocol.pos) < start <= protocol.pos
        invariant 0 <= i && (i == 0 || i <= size)
        invariant DecodeMapEntries(protocol.tokens, start, ktype, vtype, size, map[])
               == DecodeMapEntries(protocol.tokens, protocol.pos, ktype, vtype, size - i, kvMap)
        decreases size - i
      {
        var key := ReadFieldValue(ktype);
        if key.Err? {
          return Err(key.error);
        }
        var value := ReadFieldValue(vtype);
        if value.Err? {
          return Err(value.error);
        }
        if !Hashable(key.value) {
          return Err(Unhashable);
        }
        kvMap := kvMap[key.value := value.value];
        i := i + 1;
      }
      var e := protocol.ReadMapEnd();
      if e.Err? {
        return Err(e.error);
      }
      if ktype !in TType.TypeNames {
        return Err(NoTypeName(ktype));
      }
      if vtype !in TType.TypeNames {
        return Err(NoTypeName(vtype));
      }
      r := Ok(Map(TType.TypeNames[ktype], TType.TypeNames[vtype], kvMap));
    }

    /** `readSet`: `size` elements of the declared type; equal ones collapse. */
    method ReadSet() returns (r: Result<Value>)
      requires protocol.Valid()
      modifies protocol
      ensures protocol.Valid()
      ensures Agrees(r, DecodeSet(protocol.tokens, old(protocol.pos)), protocol.pos)
      decreases |protocol.tokens| - protocol.pos, 0
    {
      var vSet: set<Value> := {};
      var header := protocol.ReadSetBegin();
      if header.Err? {
        return Err(header.error);
      }
      var (etype, size) := header.value;
      ghost var start := protocol.pos;
      var i := 0;
      while i < size
        invariant protocol.Valid() && old(protocol.pos) < start <= protocol.pos
        invariant 0 <= i && (i == 0 || i <= size)
        invariant DecodeSetItems(protocol.tokens, start, etype, size, {})
               == DecodeSetItems(protocol.tokens, protocol.pos, etype, size - i, vSet)
        decreases size - i
      {
        var v := ReadFieldValue(etype);
        if v.Err? {
          return Err(v.error);
        }
        if !Hashable(v.value) {
          return Err(Unhashable);
        }
        vSet := vSet + {v.value};
        i := i + 1;
      }
      var e := protocol.ReadSetEnd();
      if e.Err? {
        return Err(e.error);
      }
      if etype !in TType.TypeNames {
        return Err(NoTypeName(etype));
      }
      r := Ok(Set(TType.TypeNames[etype], vSet));
    }

    /** `readList`: `size` elements of the declared type, in wire order. */
    method ReadList() returns (r: Result<Value>)
      requires protocol.Valid()
      modifies protocol
      ensures protocol.Valid()
      ensures Agrees(r, DecodeList(protocol.tokens, old(protocol.pos)), protocol.pos)
      decreases |protocol.tokens| - protocol.pos, 0
    {
      var vList: seq<Value> := [];
      var header := protocol.ReadListBegin();
      if header.Err? {
        return Err(header.error);
      }
      var (etype, size) := header.value;
      ghost var start := protocol.pos;
      var i := 0;
      while i < size
        invariant protocol.Valid() && old(protocol.pos) < start <= protocol.pos
        invariant 0 <= i && (i == 0 || i <= size)
        invariant DecodeListItems(protocol.tokens, start, etype, size, [])
               == DecodeListItems(protocol.tokens, protocol.pos, etype, size - i, vList)
        decreases size - i
      {
        var v := ReadFieldValue(etype);
        if v.Err? {
          return Err(v.error);
        }
        vList := vList + [v.value];
        i := i + 1;
      }
      var e := protocol.ReadListEnd();
      if e.Err? {
        return Err(e.error);
      }
      if etype !in TType.TypeNames {
        return Err(NoTypeName(etype));
      }
      r := Ok(List(TType.TypeNames[etype], vList));
    }
  }
}
