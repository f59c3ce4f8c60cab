/** The 0xFF-separated record format of database keys: what the serializer writes and what the
    deserializer reads back. */
module KeyFormat {
  import opened Basics
  import opened ByteOrder

  /** Record separator, a byte that occurs in no UTF-8 string. */
  const SEP: Byte := 0xFF

  datatype Value =
    | Str(text: Bytes)
    | U64(n: int)
    | I64(i: int)
    | Absent
    | Present(inner: Value)
    | Raw(bytes: Bytes)

  datatype Type = StrType | U64Type | I64Type | OptType(inner: Type) | RawType

  predicate HasType(v: Value, ty: Type) {
    match v
    case Str(text) => ty == StrType && SEP !in text
    case U64(n) => ty == U64Type && 0 <= n < TWO_64
    case I64(i) => ty == I64Type && -TWO_63 <= i < TWO_63
    case Absent => ty.OptType?
    case Present(inner) => ty.OptType? && HasType(inner, ty.inner)
    case Raw(_) => ty == RawType
  }

  predicate HaveTypes(vs: seq<Value>, tys: seq<Type>) {
    |vs| == |tys| && forall i | 0 <= i < |vs| :: HasType(vs[i], tys[i])
  }

  // ---------------------------------------------------------------- integers

  function Power256(k: nat): nat {
    if k == 0 then 1 else 256 * Power256(k - 1)
  }

  function ToBigEndian(n: nat, k: nat): (bs: Bytes)
    ensures |bs| == k
  {
    if k == 0 then [] else ToBigEndian(n / 256, k - 1) + [n % 256]
  }

  function FromBigEndian(bs: Bytes): nat {
    if bs == [] then 0 else 256 * FromBigEndian(bs[..|bs| - 1]) + bs[|bs| - 1]
  }

  lemma {:induction false} BigEndianRoundTrip(n: nat, k: nat)
    requires n < Power256(k)
    ensures FromBigEndian(ToBigEndian(n, k)) == n
  {
    if k > 0 {
      BigEndianRoundTrip(n / 256, k - 1);
      assert ToBigEndian(n, k)[..k - 1] == ToBigEndian(n / 256, k - 1);
    }
  }

  /** Big-endian bytes sort as the integers they encode. */
  lemma {:induction false} BigEndianOrder(m: nat, n: nat, k: nat)
    requires m < n < Power256(k)
    ensures Less(ToBigEndian(m, k), ToBigEndian(n, k))
  {
    if k > 0 {
      if m / 256 < n / 256 {
        BigEndianOrder(m / 256, n / 256, k - 1);
        LessAppends(ToBigEndian(m / 256, k - 1), ToBigEndian(n / 256, k - 1), [m % 256], [n % 256]);
      } else {
        LessLast(ToBigEndian(m / 256, k - 1), m % 256, n % 256);
      }
    }
  }

  lemma {:induction false} LessAppends(s: Bytes, t: Bytes, x: Bytes, y: Bytes)
    requires |s| == |t| && Less(s, t)
    ensures Less(s + x, t + y)
  {
    assert (s + x)[1..] == s[1..] + x && (t + y)[1..] == t[1..] + y;
    if s[0] == t[0] {
      LessAppends(s[1..], t[1..], x, y);
    }
  }

  lemma {:induction false} LessLast(s: Bytes, a: Byte, b: Byte)
    requires a < b
    ensures Less(s + [a], s + [b])
  {
    if s != [] {
      LessLast(s[1..], a, b);
      assert (s + [a])[1..] == s[1..] + [a] && (s + [b])[1..] == s[1..] + [b];
    }
  }

  lemma EightBytes()
    ensures Power256(8) == TWO_64
  {
    assert Power256(3) == 0x100_0000;
    assert Power256(6) == 0x1_0000_0000_0000;
  }

  /** Two's complement. */
  function Unsigned(i: int): int {
    if i < 0 then i + TWO_64 else i
  }

  function Signed(n: int): int {
    if n >= TWO_63 then n - TWO_64 else n
  }

  // ---------------------------------------------------------------- encoding

  function Encode(v: Value): Bytes {
    match v
    case Str(text) => text
    case U64(n) => if 0 <= n then ToBigEndian(n, 8) else []
    case I64(i) => if 0 <= Unsigned(i) then ToBigEndian(Unsigned(i), 8) else []
    case Absent => []
    case Present(inner) => Encode(inner)
    case Raw(bytes) => bytes
  }

  /** Each value preceded by a separator. */
  function Tail(vs: seq<Value>): Bytes {
    if vs == [] then [] else [SEP] + (Encode(vs[0]) + Tail(vs[1..]))
  }

  /** Values joined by separators. */
  function EncodeTuple(vs: seq<Value>): Bytes {
    if vs == [] then [] else Encode(vs[0]) + Tail(vs[1..])
  }

  /** The key written for the tuple followed by an `Interfix`: closed by a separator. */
  function EncodePrefix(vs: seq<Value>): Bytes {
    if vs == [] then [] else EncodeTuple(vs) + [SEP]
  }

  lemma EncodeTupleCons(v: Value, vs: seq<Value>)
    requires vs != []
    ensures EncodeTuple([v] + vs) == Encode(v) + [SEP] + EncodeTuple(vs)
  {
    assert ([v] + vs)[1..] == vs;
    assert Encode(v) + ([SEP] + EncodeTuple(vs)) == Encode(v) + [SEP] + EncodeTuple(vs);
  }

  lemma OneField(v: Value)
    ensures EncodeTuple([v]) == Encode(v)
    ensures EncodePrefix([v]) == Encode(v) + [SEP]
  {
    var none: seq<Value> := [v][1..];
    assert Tail(none) == [];
  }

  lemma JoinsLast(a: Bytes, b: Bytes, c: Bytes)
    ensures a + b + c == a + (b + c)
    ensures a + [] == a
  {
  }

  lemma EncodePrefixCons(v: Value, vs: seq<Value>)
    ensures EncodePrefix([v] + vs) == Encode(v) + [SEP] + EncodePrefix(vs)
  {
    JoinsLast(Encode(v) + [SEP], EncodeTuple(vs), [SEP]);
    if vs == [] {
      assert [v] + vs == [v];
      OneField(v);
    } else {
      EncodeTupleCons(v, vs);
    }
  }

  // ---------------------------------------------------------------- decoding

  datatype Error = Underflow | MissingSeparator | InvalidLength | TrailingBytes

  datatype Result<+T> = Ok(value: T) | Err(error: Error)

  /** The end of the record that starts at `pos`. */
  function RecordEnd(buf: Bytes, pos: nat): (end: nat)
    requires pos <= |buf|
    ensures pos <= end <= |buf|
    ensures SEP !in buf[pos..end]
    ensures end < |buf| ==> buf[end] == SEP
    decreases |buf| - pos
  {
    if pos == |buf| || buf[pos] == SEP then pos
    else
      var end := RecordEnd(buf, pos + 1);
      assert buf[pos..end] == [buf[pos]] + buf[pos + 1..end];
      end
  }

  /** Decode one value at `pos`; the result carries the position after it. */
  function DecodeValue(buf: Bytes, pos: nat, ty: Type): (r: Result<(Value, nat)>)
    requires pos <= |buf|
    ensures r.Ok? ==> pos <= r.value.1 <= |buf|
  {
    match ty
    case StrType =>
      var end := RecordEnd(buf, pos);
      Ok((Str(buf[pos..end]), end))
    case U64Type =>
      if pos + 8 <= |buf| then Ok((U64(FromBigEndian(buf[pos..pos + 8])), pos + 8)) else Err(Underflow)
    case I64Type =>
      if pos + 8 <= |buf| then Ok((I64(Signed(FromBigEndian(buf[pos..pos + 8]))), pos + 8)) else Err(Underflow)
    case OptType(inner) =>
      if pos == |buf| || buf[pos] == SEP then Ok((Absent, pos))
      else
        (match DecodeValue(buf, pos, inner)
         case Ok((v, end)) => Ok((Present(v), end))
         case Err(e) => Err(e))
    case RawType =>
      Ok((Raw(buf[pos..]), |buf|))
  }

  /** Step over the separator in front of record number `rec`; when the input is exhausted but the
      tuple is not, stay put. */
  function StartRecord(buf: Bytes, pos: nat, rec: nat, len: nat): (r: Result<nat>)
    requires pos <= |buf|
    ensures r.Ok? ==> pos <= r.value <= |buf|
  {
    var started := pos != 0 || rec > 0;
    var incomplete := pos == |buf| && rec < len;
    if !started || incomplete then Ok(pos)
    else if pos < |buf| && buf[pos] == SEP then Ok(pos + 1)
    else Err(MissingSeparator)
  }

  function DecodeFields(buf: Bytes, pos: nat, rec: nat, len: nat, tys: seq<Type>): (r: Result<(seq<Value>, nat)>)
    requires pos <= |buf|
    ensures r.Ok? ==> pos <= r.value.1 <= |buf|
    decreases |tys|, 1
  {
    if tys == [] then Ok(([], pos))
    else if pos == |buf| && rec >= len then Err(InvalidLength)
    else
      match StartRecord(buf, pos, rec, len)
      case Err(e) => Err(e)
      case Ok(start) => DecodeFieldsAt(buf, start, rec, len, tys)
  }

  /** The rest of `DecodeFields` once the separator has been stepped over. */
  function DecodeFieldsAt(buf: Bytes, start: nat, rec: nat, len: nat, tys: seq<Type>): (r: Result<(seq<Value>, nat)>)
    requires start <= |buf| && tys != []
    ensures r.Ok? ==> start <= r.value.1 <= |buf|
    decreases |tys|, 0
  {
    match DecodeValue(buf, start, tys[0])
    case Err(e) => Err(e)
    case Ok((v, next)) => Prepend([v], DecodeFields(buf, next, rec + 1, len, tys[1..]))
  }

  function Prepend(vs: seq<Value>, r: Result<(seq<Value>, nat)>): Result<(seq<Value>, nat)> {
    match r
    case Err(e) => Err(e)
    case Ok((rest, pos)) => Ok((vs + rest, pos))
  }

  /** The whole input must be consumed, up to one trailing separator. */
  predicate Finished(buf: Bytes, pos: nat)
    requires pos <= |buf|
  {
    pos == |buf| || (pos == |buf| - 1 && buf[pos] == SEP)
  }

  function DecodeTuple(tys: seq<Type>, buf: Bytes): Result<seq<Value>> {
    match DecodeFields(buf, 0, 0, |tys|, tys)
    case Err(e) => Err(e)
    case Ok((vs, pos)) => if Finished(buf, pos) then Ok(vs) else Err(TrailingBytes)
  }

  lemma {:induction false} FromBigEndianBound(bs: Bytes)
    ensures FromBigEndian(bs) < Power256(|bs|)
  {
    if bs != [] {
      FromBigEndianBound(bs[..|bs| - 1]);
    }
  }

  /** Whatever the bytes, a decoded value has the type asked for. */
  lemma {:induction false} DecodedHasType(buf: Bytes, pos: nat, ty: Type)
    requires pos <= |buf|
    ensures DecodeValue(buf, pos, ty).Ok? ==> HasType(DecodeValue(buf, pos, ty).value.0, ty)
  {
    match ty
    case OptType(inner) => DecodedHasType(buf, pos, inner);
    case U64Type | I64Type =>
      if pos + 8 <= |buf| {
        FromBigEndianBound(buf[pos..pos + 8]);
        EightBytes();
      }
    case StrType | RawType =>
  }

  lemma {:induction false} FieldsHaveTypes(buf: Bytes, pos: nat, rec: nat, len: nat, tys: seq<Type>)
    requires pos <= |buf|
    ensures DecodeFields(buf, pos, rec, len, tys).Ok? ==> HaveTypes(DecodeFields(buf, pos, rec, len, tys).value.0, tys)
    decreases |tys|
  {
    if tys != [] && StartRecord(buf, pos, rec, len).Ok? {
      var start := StartRecord(buf, pos, rec, len).value;
      DecodedHasType(buf, start, tys[0]);
      var v := DecodeValue(buf, start, tys[0]);
      if v.Ok? {
        FieldsHaveTypes(buf, v.value.1, rec + 1, len, tys[1..]);
      }
    }
  }

  /** Whatever the bytes, a decoded tuple has the types asked for. */
  lemma DecodedHaveTypes(buf: Bytes, tys: seq<Type>)
    ensures DecodeTuple(tys, buf).Ok? ==> HaveTypes(DecodeTuple(tys, buf).value, tys)
  {
    FieldsHaveTypes(buf, 0, 0, |tys|, tys);
  }

  // ---------------------------------------------------------------- round trip

  /** Every `Present` inside encodes to something that cannot be mistaken for an absent field. */
  predicate Distinguishable(v: Value) {
    v.Present? ==> Encode(v.inner) != [] && Encode(v.inner)[0] != SEP && Distinguishable(v.inner)
  }

  predicate IsRaw(v: Value) {
    v.Raw? || (v.Present? && IsRaw(v.inner))
  }

  /** Optional fields are distinguishable and raw bytes stand only in the last position. */
  predicate Lossless(vs: seq<Value>) {
    forall i | 0 <= i < |vs| :: Distinguishable(vs[i]) && (IsRaw(vs[i]) ==> i == |vs| - 1)
  }

  /** What follows a value: nothing, or a separator and more. */
  predicate Boundary(rest: Bytes) {
    rest == [] || rest[0] == SEP
  }

  lemma {:induction false} RecordEndAt(buf: Bytes, pos: nat, text: Bytes, rest: Bytes)
    requires pos <= |buf| && buf[pos..] == text + rest
    requires SEP !in text && Boundary(rest)
    ensures RecordEnd(buf, pos) == pos + |text|
    decreases |text|
  {
    if text == [] {
      assert rest == buf[pos..];
    } else {
      assert buf[pos] == text[0];
      assert buf[pos + 1..] == text[1..] + rest;
      RecordEndAt(buf, pos + 1, text[1..], rest);
    }
  }

  lemma FixedWidth(buf: Bytes, pos: nat, n: nat, rest: Bytes)
    requires pos <= |buf| && buf[pos..] == ToBigEndian(n, 8) + rest
    requires n < TWO_64
    ensures pos + 8 <= |buf| && FromBigEndian(buf[pos..pos + 8]) == n
  {
    assert buf[pos..pos + 8] == buf[pos..][..8] == ToBigEndian(n, 8);
    EightBytes();
    BigEndianRoundTrip(n, 8);
  }

  lemma DecodeGoodPlain(buf: Bytes, pos: nat, v: Value, ty: Type, rest: Bytes)
    requires pos <= |buf| && buf[pos..] == Encode(v) + rest
    requires HasType(v, ty) && Boundary(rest)
    requires !v.Present? && (v.Raw? ==> rest == [])
    ensures DecodeValue(buf, pos, ty) == Ok((v, pos + |Encode(v)|))
  {
    match v
    case Str(text) =>
      RecordEndAt(buf, pos, text, rest);
      assert buf[pos..pos + |text|] == buf[pos..][..|text|];
    case U64(n) => FixedWidth(buf, pos, n, rest);
    case I64(i) => FixedWidth(buf, pos, Unsigned(i), rest);
    case Absent => assert rest == buf[pos..];
    case Raw(bytes) => assert bytes + rest == bytes;
  }

  /** A value is read back exactly, and the reader stops at its end. */
  lemma {:induction false} DecodeGood(buf: Bytes, pos: nat, v: Value, ty: Type, rest: Bytes)
    requires pos <= |buf| && buf[pos..] == Encode(v) + rest
    requires HasType(v, ty) && Boundary(rest)
    requires Distinguishable(v) && (IsRaw(v) ==> rest == [])
    ensures DecodeValue(buf, pos, ty) == Ok((v, pos + |Encode(v)|))
    ensures pos + |Encode(v)| <= |buf| && buf[pos + |Encode(v)|..] == rest
  {
    assert buf[pos + |Encode(v)|..] == buf[pos..][|Encode(v)|..];
    if v.Present? {
      assert buf[pos] == Encode(v.inner)[0];
      DecodeGood(buf, pos, v.inner, ty.inner, rest);
    } else {
      DecodeGoodPlain(buf, pos, v, ty, rest);
    }
  }

  /** A mistakable optional, or raw bytes with something after them, is not read back. */
  lemma {:induction false} DecodeBad(buf: Bytes, pos: nat, v: Value, ty: Type, rest: Bytes)
    requires pos <= |buf| && buf[pos..] == Encode(v) + rest
    requires HasType(v, ty) && Boundary(rest)
    requires !Distinguishable(v) || (IsRaw(v) && rest != [])
    ensures DecodeValue(buf, pos, ty).Ok? ==> DecodeValue(buf, pos, ty).value.0 != v
  {
    if v.Present? {
      if Encode(v.inner) == [] {
        assert buf[pos..] == rest;
      } else {
        assert buf[pos] == Encode(v.inner)[0];
        if Encode(v.inner)[0] != SEP {
          DecodeBad(buf, pos, v.inner, ty.inner, rest);
        }
      }
    }
  }

  /** The unread input when `vs` remain and record number `rec` is next. */
  function Remaining(rec: nat, vs: seq<Value>): Bytes {
    if rec == 0 then EncodeTuple(vs) else Tail(vs)
  }

  /** Where the first of the remaining records starts, and what it is followed by. */
  lemma RemainingHead(buf: Bytes, pos: nat, rec: nat, len: nat, vs: seq<Value>) returns (start: nat)
    requires pos <= |buf| && buf[pos..] == Remaining(rec, vs)
    requires vs != [] && (rec == 0 ==> pos == 0)
    ensures StartRecord(buf, pos, rec, len) == Ok(start)
    ensures start <= |buf| && buf[start..] == Encode(vs[0]) + Tail(vs[1..])
  {
    if rec == 0 {
      start := 0;
    } else {
      start := pos + 1;
      assert buf[pos] == buf[pos..][0] == SEP;
      assert buf[pos + 1..] == buf[pos..][1..];
    }
  }

  /** The first remaining field is read back when it is distinguishable and, if raw, the last. */
  predicate HeadReads(vs: seq<Value>)
    requires vs != []
  {
    Distinguishable(vs[0]) && (IsRaw(vs[0]) ==> |vs| == 1)
  }

  /** What follows the first value starts with a separator or is nothing. */
  lemma TailBoundary(vs: seq<Value>)
    requires vs != []
    ensures Boundary(Tail(vs[1..]))
    ensures |vs| == 1 ==> Tail(vs[1..]) == []
  {
  }

  lemma HeadGood(buf: Bytes, start: nat, vs: seq<Value>, ty: Type) returns (next: nat)
    requires vs != [] && HasType(vs[0], ty) && HeadReads(vs)
    requires start <= |buf| && buf[start..] == Encode(vs[0]) + Tail(vs[1..])
    ensures DecodeValue(buf, start, ty) == Ok((vs[0], next))
    ensures next <= |buf| && buf[next..] == Tail(vs[1..])
  {
    var v, rest := vs[0], Tail(vs[1..]);
    TailBoundary(vs);
    DecodeGood(buf, start, v, ty, rest);
    next := start + |Encode(v)|;
  }

  lemma HeadBad(buf: Bytes, start: nat, vs: seq<Value>, ty: Type)
    requires vs != [] && HasType(vs[0], ty) && !HeadReads(vs)
    requires start <= |buf| && buf[start..] == Encode(vs[0]) + Tail(vs[1..])
    ensures var r := DecodeValue(buf, start, ty);
            r.Ok? ==> r.value.0 != vs[0]
  {
    DecodeBad(buf, start, vs[0], ty, Tail(vs[1..]));
  }

  /** The first remaining record is read and the others remain. */
  lemma ReadHead(buf: Bytes, pos: nat, rec: nat, len: nat, vs: seq<Value>, ty: Type) returns (start: nat, next: nat)
    requires pos <= |buf| && buf[pos..] == Remaining(rec, vs)
    requires vs != [] && (rec == 0 ==> pos == 0)
    requires HasType(vs[0], ty) && HeadReads(vs)
    ensures StartRecord(buf, pos, rec, len) == Ok(start)
    ensures start <= |buf| && DecodeValue(buf, start, ty) == Ok((vs[0], next))
    ensures next <= |buf| && buf[next..] == Remaining(rec + 1, vs[1..])
  {
    start := RemainingHead(buf, pos, rec, len, vs);
    next := HeadGood(buf, start, vs, ty);
  }

  lemma TailFacts(vs: seq<Value>, tys: seq<Type>)
    requires vs != [] && HaveTypes(vs, tys)
    ensures HasType(vs[0], tys[0]) && HaveTypes(vs[1..], tys[1..])
    ensures Lossless(vs) <==> Lossless(vs[1..]) && HeadReads(vs)
    ensures vs == [vs[0]] + vs[1..] && tys == [tys[0]] + tys[1..]
  {
    if Lossless(vs[1..]) && HeadReads(vs) {
      assert forall i | 1 <= i < |vs| :: vs[i] == vs[1..][i - 1];
    }
    if Lossless(vs) {
      assert forall i | 0 <= i < |vs| - 1 :: vs[1..][i] == vs[i + 1];
    }
  }

  /** Losslessly encoded fields are read back one by one, whatever types are still to come. */
  lemma {:induction false} DecodeFieldsGood(buf: Bytes, pos: nat, rec: nat, len: nat, vs: seq<Value>, tys: seq<Type>, more: seq<Type>)
    requires pos <= |buf| && buf[pos..] == Remaining(rec, vs)
    requires rec == 0 ==> pos == 0
    requires HaveTypes(vs, tys) && Lossless(vs)
    requires rec + |vs| + |more| <= len
    ensures DecodeFields(buf, pos, rec, len, tys + more)
         == Prepend(vs, DecodeFields(buf, |buf|, rec + |vs|, len, more))
    decreases |vs|
  {
    if vs == [] {
      assert pos == |buf| && tys + more == more;
      PrependNone(DecodeFields(buf, |buf|, rec, len, more));
    } else {
      TailFacts(vs, tys);
      var start, next := ReadHead(buf, pos, rec, len, vs, tys[0]);
      DecodeFieldsGood(buf, next, rec + 1, len, vs[1..], tys[1..], more);
      DecodeStepMore(buf, pos, rec, len, tys, more, vs[0], start, next);
      PrependTwice([vs[0]], vs[1..], DecodeFields(buf, |buf|, rec + |vs|, len, more));
    }
  }

  lemma DecodeStep(buf: Bytes, pos: nat, rec: nat, len: nat, tys: seq<Type>, v: Value,
                   start: nat, next: nat)
    requires pos <= |buf| && rec < len && tys != []
    requires StartRecord(buf, pos, rec, len) == Ok(start)
    requires start <= |buf| && DecodeValue(buf, start, tys[0]) == Ok((v, next))
    ensures next <= |buf|
    ensures DecodeFields(buf, pos, rec, len, tys) == Prepend([v], DecodeFields(buf, next, rec + 1, len, tys[1..]))
  {
  }

  lemma DecodeStepMore(buf: Bytes, pos: nat, rec: nat, len: nat, tys: seq<Type>, more: seq<Type>, v: Value,
                       start: nat, next: nat)
    requires pos <= |buf| && rec < len && tys != []
    requires StartRecord(buf, pos, rec, len) == Ok(start)
    requires start <= |buf| && DecodeValue(buf, start, tys[0]) == Ok((v, next))
    ensures next <= |buf|
    ensures DecodeFields(buf, pos, rec, len, tys + more)
         == Prepend([v], DecodeFields(buf, next, rec + 1, len, tys[1..] + more))
  {
    assert (tys + more)[0] == tys[0] && (tys + more)[1..] == tys[1..] + more;
    DecodeStep(buf, pos, rec, len, tys + more, v, start, next);
  }

  lemma PrependNone(r: Result<(seq<Value>, nat)>)
    ensures Prepend([], r) == r
  {
    if r.Ok? {
      assert [] + r.value.0 == r.value.0;
    }
  }

  lemma PrependTwice(a: seq<Value>, b: seq<Value>, r: Result<(seq<Value>, nat)>)
    ensures Prepend(a, Prepend(b, r)) == Prepend(a + b, r)
  {
    if r.Ok? {
      assert a + (b + r.value.0) == a + b + r.value.0;
    }
  }

  lemma {:induction false} DecodeFieldsBad(buf: Bytes, pos: nat, rec: nat, len: nat, vs: seq<Value>, tys: seq<Type>)
    requires pos <= |buf| && buf[pos..] == Remaining(rec, vs)
    requires rec == 0 ==> pos == 0
    requires HaveTypes(vs, tys) && !Lossless(vs)
    requires rec + |vs| <= len
    ensures DecodeFields(buf, pos, rec, len, tys).Ok? ==> DecodeFields(buf, pos, rec, len, tys).value.0 != vs
    decreases |vs|
  {
    TailFacts(vs, tys);
    if HeadReads(vs) {
      var start, next := ReadHead(buf, pos, rec, len, vs, tys[0]);
      DecodeFieldsBad(buf, next, rec + 1, len, vs[1..], tys[1..]);
      DecodeStep(buf, pos, rec, len, tys, vs[0], start, next);
      var tail := DecodeFields(buf, next, rec + 1, len, tys[1..]);
      assert tail.Ok? ==> ([vs[0]] + tail.value.0)[1..] == tail.value.0;
    } else {
      var start := RemainingHead(buf, pos, rec, len, vs);
      HeadBad(buf, start, vs, tys[0]);
      var r := DecodeValue(buf, start, tys[0]);
      if r.Ok? {
        DecodeStep(buf, pos, rec, len, tys, r.value.0, start, r.value.1);
      }
    }
  }

  /** Decoding an encoded tuple returns it, and consumes every byte, exactly when the tuple is
      lossless. */
  lemma RoundTripIffLossless(vs: seq<Value>, tys: seq<Type>)
    requires HaveTypes(vs, tys)
    ensures DecodeTuple(tys, EncodeTuple(vs)) == Ok(vs) <==> Lossless(vs)
    ensures Lossless(vs) ==> DecodeFields(EncodeTuple(vs), 0, 0, |tys|, tys) == Ok((vs, |EncodeTuple(vs)|))
  {
    var buf := EncodeTuple(vs);
    assert buf[0..] == buf;
    if Lossless(vs) {
      DecodeFieldsGood(buf, 0, 0, |tys|, vs, tys, []);
      assert tys + [] == tys && vs + [] == vs;
    } else {
      DecodeFieldsBad(buf, 0, 0, |tys|, vs, tys);
    }
  }

  // ---------------------------------------------------------------- prefix keys

  lemma SeparatorJoins(head: Bytes, rest: Bytes)
    ensures head + [SEP] + rest == head + ([SEP] + rest)
  {
  }

  lemma SameRemainder(head: Bytes, x: Bytes, y: Bytes)
    requires head + [SEP] + x == head + [SEP] + y
    ensures x == y
  {
    assert x == (head + [SEP] + x)[|head| + 1..];
    assert y == (head + [SEP] + y)[|head| + 1..];
  }

  /** The first field of a buffer is read back. */
  lemma FirstField(buf: Bytes, v: Value, ty: Type, rest: Bytes)
    requires HasType(v, ty) && Distinguishable(v) && !IsRaw(v)
    requires buf == Encode(v) + [SEP] + rest
    ensures DecodeValue(buf, 0, ty) == Ok((v, |Encode(v)|))
  {
    SeparatorJoins(Encode(v), rest);
    assert buf[0..] == buf;
    DecodeGood(buf, 0, v, ty, [SEP] + rest);
  }

  /** Two separated values of one type that start the same bytes are equal. */
  lemma SelfDelimiting(a: Value, b: Value, ty: Type, x: Bytes, y: Bytes)
    requires HasType(a, ty) && HasType(b, ty)
    requires Distinguishable(a) && Distinguishable(b) && !IsRaw(a) && !IsRaw(b)
    requires Encode(a) + [SEP] + x == Encode(b) + [SEP] + y
    ensures a == b && x == y
  {
    var buf := Encode(a) + [SEP] + x;
    FirstField(buf, a, ty, x);
    FirstField(buf, b, ty, y);
    SameRemainder(Encode(a), x, y);
  }

  /** Fields usable in a prefix: no raw bytes and no mistakable optional. */
  predicate Delimited(vs: seq<Value>) {
    forall i | 0 <= i < |vs| :: Distinguishable(vs[i]) && !IsRaw(vs[i])
  }

  lemma PrefixCancel(head: Bytes, p: Bytes, k: Bytes)
    ensures head + p <= head + k <==> p <= k
  {
    if head + p <= head + k {
      assert p == (head + p)[|head|..] && k == (head + k)[|head|..];
    }
    if p <= k {
      assert head + k == head + p + k[|p|..];
    }
  }

  lemma PrefixHead(a: Value, b: Value, ty: Type, p: Bytes, k: Bytes)
    requires HasType(a, ty) && HasType(b, ty)
    requires Distinguishable(a) && Distinguishable(b) && !IsRaw(a) && !IsRaw(b)
    requires Encode(a) + [SEP] + p <= Encode(b) + [SEP] + k
    ensures a == b
  {
    var z := (Encode(b) + [SEP] + k)[|Encode(a) + [SEP] + p|..];
    assert Encode(a) + [SEP] + (p + z) == Encode(b) + [SEP] + k;
    SelfDelimiting(a, b, ty, p + z, k);
  }

  /** One field of the comparison. */
  lemma PrefixStep(a: Value, b: Value, ty: Type, prefix: seq<Value>, key: seq<Value>)
    requires HasType(a, ty) && HasType(b, ty)
    requires Distinguishable(a) && Distinguishable(b) && !IsRaw(a) && !IsRaw(b)
    requires key != []
    ensures EncodePrefix([a] + prefix) <= EncodeTuple([b] + key) <==>
            a == b && EncodePrefix(prefix) <= EncodeTuple(key)
  {
    EncodePrefixCons(a, prefix);
    EncodeTupleCons(b, key);
    var p, k := EncodePrefix(prefix), EncodeTuple(key);
    if Encode(a) + [SEP] + p <= Encode(b) + [SEP] + k {
      PrefixHead(a, b, ty, p, k);
    }
    PrefixCancel(Encode(a) + [SEP], p, k);
  }

  /** A prefix key matches a longer key exactly when the leading fields are equal. */
  lemma {:induction false} PrefixExact(prefix: seq<Value>, key: seq<Value>, tys: seq<Type>)
    requires |prefix| < |key|
    requires HaveTypes(key, tys) && HaveTypes(prefix, tys[..|prefix|])
    requires Delimited(prefix) && Delimited(key[..|prefix|])
    ensures EncodePrefix(prefix) <= EncodeTuple(key) <==> prefix == key[..|prefix|]
    decreases |prefix|
  {
    if prefix != [] {
      var n := |prefix| - 1;
      assert prefix == [prefix[0]] + prefix[1..] && key == [key[0]] + key[1..];
      assert key[..n + 1] == [key[0]] + key[1..][..n];
      assert tys[..n + 1][1..] == tys[1..][..n];
      assert HasType(prefix[0], tys[..n + 1][0]);
      assert Distinguishable(key[..n + 1][0]) && !IsRaw(key[..n + 1][0]);
      assert Delimited(key[1..][..n]) by {
        assert forall i | 0 <= i < n :: key[1..][..n][i] == key[..n + 1][i + 1];
      }
      PrefixExact(prefix[1..], key[1..], tys[1..]);
      PrefixStep(prefix[0], key[0], tys[0], prefix[1..], key[1..]);
    }
  }

  /** Types whose values delimit themselves. */
  predicate Plain(ty: Type) {
    ty == StrType || ty == U64Type || ty == I64Type
  }

  /** As a prefix, `a` is found in keys that start with `a` and in no others. */
  ghost predicate MatchesOnlyItself(a: Value, b: Value, rest: seq<Value>) {
    EncodePrefix([a]) <= EncodeTuple([b] + rest) <==> a == b
  }

  lemma HeadBytes(a: Value, b: Value, rest: seq<Value>)
    requires rest != []
    ensures EncodePrefix([a]) == Encode(a) + [SEP]
    ensures EncodeTuple([b] + rest) == Encode(b) + [SEP] + EncodeTuple(rest)
  {
    OneField(a);
    EncodeTupleCons(b, rest);
  }

  /** A value that, as a present option, is found under the prefix of an absent one. */
  function Mistakable(ty: Type): (v: Value)
    ensures HasType(v, ty)
    ensures [SEP] <= Encode(v) + [SEP]
  {
    match ty
    case StrType => Str([])
    case U64Type => LastByteRun(); U64(TWO_64 - 1)
    case I64Type => LastByteRun(); I64(-1)
    case OptType(_) => Absent
    case RawType => Raw([])
  }

  lemma {:induction false} LeadingByte(n: nat, k: nat)
    requires k > 0 && n == Power256(k) - 1
    ensures ToBigEndian(n, k)[0] == SEP
  {
    if k > 1 {
      LeadingByte(n / 256, k - 1);
    }
  }

  lemma LastByteRun()
    ensures ToBigEndian(TWO_64 - 1, 8)[0] == SEP
  {
    EightBytes();
    LeadingByte(TWO_64 - 1, 8);
  }

  /** A prefix field matches exactly its own keys, whatever its value and theirs, if and only if its
      type is plain: raw bytes and optional fields give false matches. */
  lemma PrefixTypeExactIff(ty: Type)
    ensures (forall a, b, rest | HasType(a, ty) && HasType(b, ty) && rest != [] :: MatchesOnlyItself(a, b, rest)) <==> Plain(ty)
  {
    if Plain(ty) {
      forall a, b, rest | HasType(a, ty) && HasType(b, ty) && rest != [] ensures MatchesOnlyItself(a, b, rest) {
        HeadBytes(a, b, rest);
        if EncodePrefix([a]) <= EncodeTuple([b] + rest) {
          assert Encode(a) + [SEP] + [] == Encode(a) + [SEP];
          PrefixHead(a, b, ty, [], EncodeTuple(rest));
        }
      }
    } else if ty == RawType {
      HeadBytes(Raw([]), Raw([SEP]), [Absent]);
      assert !MatchesOnlyItself(Raw([]), Raw([SEP]), [Absent]);
    } else {
      var present := Present(Mistakable(ty.inner));
      HeadBytes(Absent, present, [Absent]);
      assert !MatchesOnlyItself(Absent, present, [Absent]);
    }
  }

  // ---------------------------------------------------------------- additive evolution

  /** Types that accept a missing tail field. */
  predicate Tolerant(ty: Type) {
    ty.StrType? || ty.OptType? || ty.RawType?
  }

  function EmptyOf(ty: Type): Value {
    match ty
    case OptType(_) => Absent
    case RawType => Raw([])
    case _ => Str([])
  }

  function Empties(tys: seq<Type>): seq<Value> {
    seq(|tys|, i requires 0 <= i < |tys| => EmptyOf(tys[i]))
  }

  predicate AllTolerant(tys: seq<Type>) {
    forall i | 0 <= i < |tys| :: Tolerant(tys[i])
  }

  lemma MissingValue(buf: Bytes, ty: Type)
    ensures DecodeValue(buf, |buf|, ty) == if Tolerant(ty) then Ok((EmptyOf(ty), |buf|)) else Err(Underflow)
  {
    assert buf[|buf|..] == [] && buf[|buf|..|buf|] == [];
  }

  /** Past the end of the input, tolerant fields read as empty and any other fails. */
  lemma {:induction false} MissingTails(buf: Bytes, rec: nat, len: nat, tails: seq<Type>)
    requires rec + |tails| <= len
    ensures DecodeFields(buf, |buf|, rec, len, tails) ==
            if AllTolerant(tails) then Ok((Empties(tails), |buf|)) else Err(Underflow)
    decreases |tails|
  {
    if tails != [] {
      MissingTails(buf, rec + 1, len, tails[1..]);
      MissingValue(buf, tails[0]);
      assert tails == [tails[0]] + tails[1..];
      assert Empties(tails) == [EmptyOf(tails[0])] + Empties(tails[1..]);
      assert AllTolerant(tails) <==> Tolerant(tails[0]) && AllTolerant(tails[1..]);
      if Tolerant(tails[0]) {
        DecodeStep(buf, |buf|, rec, len, tails, EmptyOf(tails[0]), |buf|, |buf|);
      } else {
        assert DecodeFieldsAt(buf, |buf|, rec, len, tails) == Err(Underflow);
      }
    } else {
      assert Empties(tails) == [];
    }
  }

  /** An old key read under a schema extended by any number of tail fields gives the old fields and
      empty tails when every tail is tolerant, and fails otherwise. */
  lemma AdditiveEvolution(vs: seq<Value>, tys: seq<Type>, tails: seq<Type>)
    requires HaveTypes(vs, tys) && Lossless(vs)
    ensures DecodeTuple(tys + tails, EncodeTuple(vs)) ==
            if AllTolerant(tails) then Ok(vs + Empties(tails)) else Err(Underflow)
  {
    var buf := EncodeTuple(vs);
    assert buf[0..] == buf;
    DecodeFieldsGood(buf, 0, 0, |tys + tails|, vs, tys, tails);
    MissingTails(buf, |vs|, |tys + tails|, tails);
  }

  ghost predicate RawOnlyLast(vs: seq<Value>) {
    forall i | 0 <= i < |vs| - 1 :: !IsRaw(vs[i])
  }

  lemma LosslessWithEmpties(vs: seq<Value>, tys: seq<Type>, tails: seq<Type>)
    requires HaveTypes(vs, tys) && Lossless(vs)
    requires AllTolerant(tails)
    ensures HaveTypes(vs + Empties(tails), tys + tails)
    ensures Lossless(vs + Empties(tails)) <==> RawOnlyLast(vs + Empties(tails))
  {
    assert forall i | 0 <= i < |vs + Empties(tails)| :: Distinguishable((vs + Empties(tails))[i]);
  }

  /** A key rewritten under the extended schema with empty tails reads the same as the old key does,
      exactly when raw bytes stay in the last position. */
  lemma RewrittenReadsSame(vs: seq<Value>, tys: seq<Type>, tails: seq<Type>)
    requires HaveTypes(vs, tys) && Lossless(vs)
    requires AllTolerant(tails)
    ensures DecodeTuple(tys + tails, EncodeTuple(vs + Empties(tails))) == DecodeTuple(tys + tails, EncodeTuple(vs))
       <==> RawOnlyLast(vs + Empties(tails))
  {
    LosslessWithEmpties(vs, tys, tails);
    AdditiveEvolution(vs, tys, tails);
    RoundTripIffLossless(vs + Empties(tails), tys + tails);
  }

  // ---------------------------------------------------------------- string lists

  /** A list is read as a sequence of declared length one that goes on until the input ends. */
  function DecodeList(buf: Bytes, pos: nat, rec: nat): Result<seq<Value>>
    requires pos <= |buf|
    decreases |buf| - pos + if rec == 0 then 1 else 0
  {
    if pos == |buf| && rec >= 1 then Ok([])
    else
      match StartRecord(buf, pos, rec, 1)
      case Err(e) => Err(e)
      case Ok(start) =>
        var end := RecordEnd(buf, start);
        Continue([Str(buf[start..end])], DecodeList(buf, end, rec + 1))
  }

  function Continue(vs: seq<Value>, r: Result<seq<Value>>): Result<seq<Value>> {
    match r
    case Err(e) => Err(e)
    case Ok(rest) => Ok(vs + rest)
  }

  lemma ContinueTwice(a: seq<Value>, b: seq<Value>, r: Result<seq<Value>>)
    ensures Continue(a, Continue(b, r)) == Continue(a + b, r)
    ensures Continue([], r) == r
  {
    if r.Ok? {
      assert a + (b + r.value) == a + b + r.value;
      assert [] + r.value == r.value;
    }
  }

  predicate AllStrings(vs: seq<Value>) {
    forall i | 0 <= i < |vs| :: HasType(vs[i], StrType)
  }

  lemma ListStep(buf: Bytes, pos: nat, rec: nat, v: Value, start: nat, next: nat)
    requires pos <= |buf| && (rec > 0 ==> pos < |buf|)
    requires StartRecord(buf, pos, rec, 1) == Ok(start)
    requires start <= |buf| && DecodeValue(buf, start, StrType) == Ok((v, next))
    ensures next <= |buf|
    ensures DecodeList(buf, pos, rec) == Continue([v], DecodeList(buf, next, rec + 1))
  {
  }

  lemma {:induction false} DecodeListGood(buf: Bytes, pos: nat, rec: nat, vs: seq<Value>)
    requires pos <= |buf| && buf[pos..] == Remaining(rec, vs)
    requires rec == 0 ==> pos == 0 && vs != []
    requires AllStrings(vs)
    ensures DecodeList(buf, pos, rec) == Ok(vs)
    decreases |vs|
  {
    if vs == [] {
      assert pos == |buf|;
    } else {
      assert rec > 0 ==> pos < |buf|;
      var start, next := ReadHead(buf, pos, rec, 1, vs, StrType);
      DecodeListGood(buf, next, rec + 1, vs[1..]);
      ListStep(buf, pos, rec, vs[0], start, next);
      assert [vs[0]] + vs[1..] == vs;
    }
  }

  /** A list of strings is read back exactly when it is not empty; the empty list reads as one empty
      string. */
  lemma ListRoundTripIffNonEmpty(vs: seq<Value>)
    requires AllStrings(vs)
    ensures DecodeList(EncodeTuple(vs), 0, 0) == if vs == [] then Ok([Str([])]) else Ok(vs)
  {
    var buf := EncodeTuple(vs);
    assert buf[0..] == buf;
    if vs == [] {
      var none: seq<Value> := [];
      assert DecodeList(buf, 0, 1) == Ok(none);
      assert [Str(buf[0..0])] + none == [Str([])];
    } else {
      DecodeListGood(buf, 0, 0, vs);
    }
  }
}
