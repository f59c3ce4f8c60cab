/** The serializer and deserializer of database keys. */
module KeyCodec {
  import opened Basics
  import opened ByteOrder
  import opened KeyFormat

  /** What a tuple element may be: a value, or a directive that forces separators. */
  datatype Element = Field(value: Value) | Interfix | Separator

  function ElementBytes(e: Element): Bytes {
    match e
    case Field(v) => Encode(v)
    case Interfix => []
    case Separator => [SEP]
  }

  function WrittenTail(elements: seq<Element>): Bytes {
    if elements == [] then [] else [SEP] + (ElementBytes(elements[0]) + WrittenTail(elements[1..]))
  }

  /** The bytes written for a tuple of elements. */
  function Written(elements: seq<Element>): Bytes {
    if elements == [] then [] else ElementBytes(elements[0]) + WrittenTail(elements[1..])
  }

  function Fields(vs: seq<Value>): seq<Element> {
    seq(|vs|, i requires 0 <= i < |vs| => Field(vs[i]))
  }

  lemma {:induction false} WrittenTailSnoc(elements: seq<Element>, e: Element)
    ensures WrittenTail(elements + [e]) == WrittenTail(elements) + [SEP] + ElementBytes(e)
  {
    if elements == [] {
      assert WrittenTail([e]) == [SEP] + (ElementBytes(e) + []);
    } else {
      WrittenTailSnoc(elements[1..], e);
      assert (elements + [e])[1..] == elements[1..] + [e];
      Regroup([SEP], ElementBytes(elements[0]), WrittenTail(elements[1..]), [SEP], ElementBytes(e));
    }
  }

  lemma Regroup(a: Bytes, b: Bytes, c: Bytes, d: Bytes, e: Bytes)
    ensures a + (b + (c + d + e)) == a + (b + c) + d + e
    ensures b + (c + d + e) == b + c + d + e
  {
  }

  lemma WrittenSnoc(elements: seq<Element>, e: Element)
    ensures Written(elements + [e]) == Written(elements) + (if elements == [] then [] else [SEP]) + ElementBytes(e)
  {
    if elements == [] {
      assert elements + [e] == [e];
      assert WrittenTail([e][1..]) == [];
    } else {
      assert (elements + [e])[1..] == elements[1..] + [e];
      WrittenTailSnoc(elements[1..], e);
      Regroup([], ElementBytes(elements[0]), WrittenTail(elements[1..]), [SEP], ElementBytes(e));
    }
  }

  lemma {:induction false} WrittenTailFields(vs: seq<Value>)
    ensures WrittenTail(Fields(vs)) == Tail(vs)
  {
    if vs != [] {
      assert Fields(vs)[1..] == Fields(vs[1..]);
      WrittenTailFields(vs[1..]);
    }
  }

  /** A tuple of values is written as its encoding, and with a closing `Interfix` as its prefix key. */
  lemma WrittenFields(vs: seq<Value>)
    ensures Written(Fields(vs)) == EncodeTuple(vs)
    ensures Written(Fields(vs) + [Interfix]) == EncodePrefix(vs)
  {
    if vs != [] {
      assert Fields(vs)[1..] == Fields(vs[1..]);
      WrittenTailFields(vs[1..]);
    }
    WrittenSnoc(Fields(vs), Interfix);
  }

  /** `Interfix` finalizes the serialization, so it can only come last. */
  predicate InterfixLast(elements: seq<Element>) {
    forall i | 0 <= i < |elements| - 1 :: elements[i] != Interfix
  }

  class Serializer {
    var out: Bytes
    var depth: nat
    var sep: bool
    var fin: bool

    constructor ()
      ensures out == [] && depth == 0 && !sep && !fin
    {
      out, depth, sep, fin := [], 0, false, false;
    }

    method TupleStart()
      requires !sep && !fin
      modifies `depth, `sep
      ensures depth == old(depth) + 1 && !sep
    {
      depth := depth + 1;
      sep := false;
    }

    method TupleEnd()
      modifies `depth, `sep
      ensures depth == (if old(depth) > 0 then old(depth) - 1 else 0) && !sep
    {
      depth := if depth > 0 then depth - 1 else 0;
      sep := false;
    }

    /** A separator goes in front of every record but the first. */
    method RecordStart()
      requires !fin
      modifies `out, `sep
      ensures out == old(out) + (if old(sep) then [SEP] else []) && sep
    {
      var pending := sep;
      sep := true;
      if pending {
        WriteSeparator();
      }
    }

    method WriteSeparator()
      requires !fin
      modifies `out
      ensures out == old(out) + [SEP]
    {
      out := out + [SEP];
    }

    method SerializeValue(v: Value, ghost ty: Type)
      requires depth > 0 && HasType(v, ty)
      modifies `out, `sep
      ensures out == old(out) + Encode(v)
      ensures v.Str? || v.Raw? ==> sep
      ensures v.U64? || v.I64? ==> !sep
      ensures v.Absent? ==> sep == old(sep)
      decreases v
    {
      match v
      case Str(text) => out, sep := out + text, true;
      case Raw(bytes) => out, sep := out + bytes, true;
      case U64(n) => out, sep := out + ToBigEndian(n, 8), false;
      case I64(i) => out, sep := out + ToBigEndian(Unsigned(i), 8), false;
      case Absent =>
      case Present(inner) => SerializeValue(inner, ty.inner);
    }

    method SerializeElement(e: Element, ghost ty: Type)
      requires depth > 0 && !fin
      requires e.Field? ==> HasType(e.value, ty)
      modifies `out, `sep, `fin
      ensures out == old(out) + (if old(sep) then [SEP] else []) + ElementBytes(e)
      ensures sep && fin == e.Interfix?
    {
      RecordStart();
      match e {
        case Field(v) => SerializeValue(v, ty);
        case Interfix => fin := true;
        case Separator => WriteSeparator();
      }
      sep := true;
    }
  }

  method SerializeTuple(elements: seq<Element>, ghost tys: seq<Type>) returns (out: Bytes)
    requires |tys| == |elements|
    requires forall i | 0 <= i < |elements| && elements[i].Field? :: HasType(elements[i].value, tys[i])
    requires InterfixLast(elements)
    ensures out == Written(elements)
  {
    var serializer := new Serializer();
    serializer.TupleStart();
    for i := 0 to |elements|
      invariant fresh(serializer)
      invariant serializer.depth == 1
      invariant serializer.sep == (i > 0)
      invariant serializer.fin == (i > 0 && elements[i - 1].Interfix?)
      invariant serializer.out == Written(elements[..i])
    {
      assert elements[..i + 1] == elements[..i] + [elements[i]];
      WrittenSnoc(elements[..i], elements[i]);
      serializer.SerializeElement(elements[i], tys[i]);
    }
    assert elements[..|elements|] == elements;
    serializer.TupleEnd();
    assert serializer.depth == 0;
    out := serializer.out;
  }

  class Deserializer {
    const buf: Bytes
    var pos: nat
    var rec: nat
    var len: nat

    ghost predicate Valid()
      reads this
    {
      pos <= |buf|
    }

    constructor (buf: Bytes)
      ensures Valid() && this.buf == buf && pos == 0 && rec == 0 && len == 0
    {
      this.buf, pos, rec, len := buf, 0, 0, 0;
    }

    /** Consume the current record, up to the next separator or the end. */
    method RecordNext() returns (record: Bytes)
      requires Valid()
      modifies `pos
      ensures Valid()
      ensures pos == RecordEnd(buf, old(pos)) && record == buf[old(pos)..pos]
    {
      var end := pos;
      while end < |buf| && buf[end] != SEP
        invariant pos <= end <= |buf|
        invariant RecordEnd(buf, end) == RecordEnd(buf, pos)
      {
        end := end + 1;
      }
      record := buf[pos..end];
      pos := end;
    }

    /** Consume everything left. */
    method RecordTrail() returns (record: Bytes)
      requires Valid()
      modifies `pos
      ensures Valid()
      ensures pos == |buf| && record == buf[old(pos)..]
    {
      record := buf[pos..];
      pos := |buf|;
    }

    method RecordStart() returns (r: Result<()>)
      requires Valid()
      modifies `pos, `rec
      ensures Valid()
      ensures match StartRecord(buf, old(pos), old(rec), len)
              case Ok(start) => r == Ok(()) && pos == start && rec == old(rec) + 1
              case Err(e) => r == Err(e)
    {
      var started := pos != 0 || rec > 0;
      var inputDone := pos >= |buf|;
      var outputDone := rec >= len;
      var incomplete := inputDone && !outputDone;
      if !(!started || incomplete || (pos < |buf| && buf[pos] == SEP)) {
        return Err(MissingSeparator);
      }
      if started && !incomplete {
        pos := pos + 1;
      }
      rec := rec + 1;
      r := Ok(());
    }

    method DeserializeInteger() returns (r: Result<nat>)
      requires Valid()
      modifies `pos
      ensures Valid()
      ensures if old(pos) + 8 <= |buf|
              then r == Ok(FromBigEndian(buf[old(pos)..old(pos) + 8])) && pos == old(pos) + 8
              else r == Err(Underflow)
    {
      var end := if pos + 8 < |buf| then pos + 8 else |buf|;
      var bytes := buf[pos..end];
      if |bytes| != 8 {
        return Err(Underflow);
      }
      pos := pos + 8;
      r := Ok(FromBigEndian(bytes));
    }

    method DeserializeValue(ty: Type) returns (r: Result<Value>)
      requires Valid()
      modifies `pos
      ensures Valid()
      ensures match DecodeValue(buf, old(pos), ty)
              case Ok((v, end)) => r == Ok(v) && pos == end
              case Err(e) => r == Err(e)
      decreases ty
    {
      match ty
      case StrType =>
        var record := RecordNext();
        r := Ok(Str(record));
      case RawType =>
        var record := RecordTrail();
        r := Ok(Raw(record));
      case U64Type =>
        var n := DeserializeInteger();
        r := if n.Ok? then Ok(U64(n.value)) else Err(n.error);
      case I64Type =>
        var n := DeserializeInteger();
        r := if n.Ok? then Ok(I64(Signed(n.value))) else Err(n.error);
      case OptType(inner) =>
        if pos >= |buf| || buf[pos] == SEP {
          r := Ok(Absent);
        } else {
          var v := DeserializeValue(inner);
          r := if v.Ok? then Ok(Present(v.value)) else Err(v.error);
        }
    }

    /** The next tuple element; nothing only when both input and tuple are exhausted. */
    method NextElement(ty: Type) returns (r: Result<Option<Value>>)
      requires Valid()
      modifies `pos, `rec
      ensures Valid()
      ensures if old(pos) == |buf| && old(rec) >= len then
                r == Ok(None) && pos == old(pos) && rec == old(rec)
              else
                match StartRecord(buf, old(pos), old(rec), len)
                case Err(e) => r == Err(e)
                case Ok(start) =>
                  match DecodeValue(buf, start, ty)
                  case Err(e) => r == Err(e)
                  case Ok((v, end)) => r == Ok(Some(v)) && pos == end && rec == old(rec) + 1
    {
      var finished := pos >= |buf|;
      var complete := rec >= len;
      if finished && complete {
        return Ok(None);
      }
      var start := RecordStart();
      if start.Err? {
        return Err(start.error);
      }
      var v := DeserializeValue(ty);
      r := if v.Ok? then Ok(Some(v.value)) else Err(v.error);
    }

    /** The tuple visitor asks for one element per declared field. */
    method DeserializeTuple(tys: seq<Type>) returns (r: Result<seq<Value>>)
      requires Valid() && pos == 0 && rec == 0
      modifies this
      ensures Valid()
      ensures match DecodeFields(buf, 0, 0, |tys|, tys)
              case Ok((vs, end)) => r == Ok(vs) && pos == end
              case Err(e) => r == Err(e)
    {
      len := |tys|;
      var vs: seq<Value> := [];
      PrependNone(DecodeFields(buf, 0, 0, |tys|, tys));
      assert tys[0..] == tys;
      for i := 0 to |tys|
        invariant Valid() && len == |tys|
        invariant DecodeFields(buf, 0, 0, |tys|, tys) == Prepend(vs, DecodeFields(buf, pos, rec, len, tys[i..]))
      {
        assert tys[i..][0] == tys[i] && tys[i..][1..] == tys[i + 1..];
        ghost var was, at := pos, rec;
        var next := NextElement(tys[i]);
        if next.Err? {
          return Err(next.error);
        }
        if next.value.None? {
          return Err(InvalidLength);
        }
        assert DecodeFields(buf, was, at, len, tys[i..])
            == Prepend([next.value.value], DecodeFields(buf, pos, rec, len, tys[i + 1..]));
        PrependTwice(vs, [next.value.value], DecodeFields(buf, pos, rec, len, tys[i + 1..]));
        vs := vs + [next.value.value];
      }
      assert vs + [] == vs;
      r := Ok(vs);
    }

    /** The list visitor asks for strings until none is left. */
    method DeserializeList() returns (r: Result<seq<Value>>)
      requires Valid() && pos == 0 && rec == 0
      modifies this
      ensures Valid()
      ensures r == DecodeList(buf, 0, 0)
    {
      len := 1;
      var vs: seq<Value> := [];
      ContinueTwice([], [], DecodeList(buf, 0, 0));
      while true
        invariant Valid() && len == 1
        invariant DecodeList(buf, 0, 0) == Continue(vs, DecodeList(buf, pos, rec))
        decreases |buf| - pos + if rec == 0 then 1 else 0
      {
        ghost var was, at := pos, rec;
        var next := NextElement(StrType);
        if next.Err? {
          return Err(next.error);
        }
        if next.value.None? {
          assert vs + [] == vs;
          return Ok(vs);
        }
        assert DecodeList(buf, was, at) == Continue([next.value.value], DecodeList(buf, pos, rec));
        ContinueTwice(vs, [next.value.value], DecodeList(buf, pos, rec));
        vs := vs + [next.value.value];
      }
    }
  }

  /** Decode a tuple from a buffer, insisting that it is consumed. */
  method FromSlice(buf: Bytes, tys: seq<Type>) returns (r: Result<seq<Value>>)
    ensures r == DecodeTuple(tys, buf)
  {
    var deserializer := new Deserializer(buf);
    r := deserializer.DeserializeTuple(tys);
    if r.Ok? {
      var remain := |buf| - deserializer.pos;
      if !(remain == 0 || (remain == 1 && buf[deserializer.pos] == SEP)) {
        r := Err(TrailingBytes);
      }
    }
  }
}
