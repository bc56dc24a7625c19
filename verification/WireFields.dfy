/**
Reading a message's fields in order: src/pb/big.cc, ReadFields. A field the message does not
know is skipped by its wire type.
 */
module WireFields {
  import opened BigEndian
  import opened Options
  import opened Wire

  /** What a message makes of a field's value: refuses it, takes n bytes of it, or does not know it. */
  datatype Field<+M> = Corrupt | Took(out: M, size: nat) | Unknown

  /** The message after the fields in data, or None where one is corrupt. */
  function ReadFields<M>(data: seq<Byte>, out: M, fn: (seq<Byte>, nat, M) -> Field<M>): Option<M>
    decreases |data|
  {
    if data == [] then Some(out)
    else
      match ReadTag(data)
      case Bad => None
      case Got(tag, n) =>
        var rest := data[n..];
        match fn(rest, tag.num, out)
        case Corrupt => None
        case Took(next, k) => if k <= |rest| then ReadFields(rest[k..], next, fn) else None
        case Unknown =>
          match FieldSize(rest, tag.num, tag.typ)
          case Bad => None
          case Got(_, k) => ReadFields(rest[k..], out, fn)
  }

  method ReadFieldsLoop<M>(data0: seq<Byte>, out0: M, fn: (seq<Byte>, nat, M) -> Field<M>) returns (r: Option<M>)
    ensures r == ReadFields(data0, out0, fn)
  {
    var data, out := data0, out0;
    while data != []
      invariant ReadFields(data, out, fn) == ReadFields(data0, out0, fn)
      decreases |data|
    {
      var t := ReadTag(data);
      if t.Bad? {
        return None;
      }
      data := data[t.size..];
      match fn(data, t.value.num, out) {
        case Corrupt =>
          return None;
        case Took(next, k) =>
          if k > |data| {
            return None;
          }
          data, out := data[k..], next;
        case Unknown =>
          var k := ConsumeFieldValue(data, t.value.num, t.value.typ);
          if k.Bad? {
            return None;
          }
          data := data[k.size..];
      }
    }
    r := Some(out);
  }

  /** A written field whose value the message takes is read, and then what follows it. */
  lemma FieldReads<M>(num: nat, typ: WireType, value: seq<Byte>, rest: seq<Byte>, out: M, next: M,
                      fn: (seq<Byte>, nat, M) -> Field<M>)
    requires ValidNumber(num) && fn(value + rest, num, out) == Took(next, |value|)
    ensures ReadFields(TagBytes(num, typ) + value + rest, out, fn) == ReadFields(rest, next, fn)
  {
    var tag := TagBytes(num, typ);
    var data := tag + value + rest;
    TagReads(num, typ, value + rest);
    assert data == tag + (value + rest);
    assert data[|tag|..] == value + rest && (value + rest)[|value|..] == rest;
  }
}
