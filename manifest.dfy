/**
 * The records of ManifestBuilder.swift: the `AnyCodable` metadata value with
 * its fixed decode and encode dispatch, and the `FileEntry` manifest record.
 * JSON text is not modelled: a `Json` value is the parsed document the
 * decoder's single-value container looks at.
 */
module Manifest {
  import opened Wrappers

  /** Swift's `Int` on a 64-bit platform. */
  type Int64 = i: int | -0x8000_0000_0000_0000 <= i < 0x8000_0000_0000_0000

  predicate FitsInt64(i: int)
  {
    -0x8000_0000_0000_0000 <= i < 0x8000_0000_0000_0000
  }

  /**
   * A JSON number, classified by its value rather than its spelling:
   * `Integral(i)` is any number whose value is exactly the integer i, however
   * it is written (`3`, `3.0`, `1e2`, and `-0.0` for 0), which is what
   * `decode(Int.self)` accepts when i fits `Int`; `Fractional` is any other
   * number, kept as its literal because floating point is not modelled.
   */
  datatype Number = Integral(i: int) | Fractional(literal: string)

  datatype Json =
    | JNull
    | JBool(b: bool)
    | JNumber(n: Number)
    | JString(s: string)
    | JArray(items: seq<Json>)
    | JObject(fields: map<string, Json>)

  /**
   * The Swift `Any` an `AnyCodable` holds, as a closed tagged variant. A `Double`
   * keeps the number it came from; `Unsupported` stands for every other Swift
   * value (a `Date`, `nil`, a struct), which the encoder rejects.
   */
  datatype AnyValue =
    | IntValue(i: Int64)
    | DoubleValue(d: Number)
    | StringValue(s: string)
    | BoolValue(b: bool)
    | ArrayValue(items: seq<AnyValue>)
    | DictValue(fields: map<string, AnyValue>)
    | Unsupported

  datatype CodingError = DataCorrupted | InvalidValue

  /** A document with no null anywhere inside it. */
  predicate NullFree(j: Json)
    decreases j
  {
    match j
    case JNull => false
    case JArray(items) => forall k :: 0 <= k < |items| ==> NullFree(items[k])
    case JObject(fields) => forall key :: key in fields ==> NullFree(fields[key])
    case _ => true
  }

  /**
   * `AnyCodable.init(from:)`: try Int, Double, String, Bool, an array of
   * `AnyCodable`, then a dictionary of them, and fail with "Unsupported type".
   * A failure inside an array or dictionary makes that attempt fail as a whole.
   */
  function DecodeAny(j: Json): (r: Result<AnyValue, CodingError>)
    ensures r.Success? <==> NullFree(j)
    ensures r.Success? ==> Encodable(r.value)
    decreases j
  {
    match j
    case JNumber(Integral(i)) =>
      if FitsInt64(i) then Success(IntValue(i)) else Success(DoubleValue(Integral(i)))
    case JNumber(n) => Success(DoubleValue(n))
    case JString(s) => Success(StringValue(s))
    case JBool(b) => Success(BoolValue(b))
    case JArray(items) =>
      if forall k :: 0 <= k < |items| ==> DecodeAny(items[k]).Success? then
        Success(ArrayValue(seq(|items|, k requires 0 <= k < |items| => DecodeAny(items[k]).value)))
      else Failure(DataCorrupted)
    case JObject(fields) =>
      if forall key :: key in fields ==> DecodeAny(fields[key]).Success? then
        Success(DictValue(map key | key in fields :: DecodeAny(fields[key]).value))
      else Failure(DataCorrupted)
    case JNull => Failure(DataCorrupted)
  }

  /**
   * `AnyCodable.encode(to:)`: dispatch in the same order (Int, Double, String,
   * Bool, array, dictionary); anything else throws `invalidValue`.
   */
  function EncodeAny(v: AnyValue): (r: Result<Json, CodingError>)
    ensures r.Success? ==> NullFree(r.value)
    decreases v
  {
    match v
    case IntValue(i) => Success(JNumber(Integral(i)))
    case DoubleValue(d) => Success(JNumber(d))
    case StringValue(s) => Success(JString(s))
    case BoolValue(b) => Success(JBool(b))
    case ArrayValue(items) =>
      if forall k :: 0 <= k < |items| ==> EncodeAny(items[k]).Success? then
        Success(JArray(seq(|items|, k requires 0 <= k < |items| => EncodeAny(items[k]).value)))
      else Failure(InvalidValue)
    case DictValue(fields) =>
      if forall key :: key in fields ==> EncodeAny(fields[key]).Success? then
        Success(JObject(map key | key in fields :: EncodeAny(fields[key]).value))
      else Failure(InvalidValue)
    case Unsupported => Failure(InvalidValue)
  }

  /** A value the encoder accepts: no unsupported value anywhere inside it. */
  predicate Encodable(v: AnyValue)
    decreases v
  {
    match v
    case Unsupported => false
    case ArrayValue(items) => forall k :: 0 <= k < |items| ==> Encodable(items[k])
    case DictValue(fields) => forall key :: key in fields ==> Encodable(fields[key])
    case _ => true
  }

  /**
   * What a value becomes after an encode/decode round trip: a Double whose
   * JSON form is an integer that fits `Int` is read back as an Int.
   */
  function Canonical(v: AnyValue): AnyValue
    decreases v
  {
    match v
    case DoubleValue(Integral(i)) => if FitsInt64(i) then IntValue(i) else v
    case ArrayValue(items) => ArrayValue(seq(|items|, k requires 0 <= k < |items| => Canonical(items[k])))
    case DictValue(fields) => DictValue(map key | key in fields :: Canonical(fields[key]))
    case _ => v
  }

  /** Encoding succeeds exactly on values without an unsupported part. */
  lemma {:induction false} EncodeSucceedsIffEncodable(v: AnyValue)
    ensures EncodeAny(v).Success? <==> Encodable(v)
    decreases v
  {
    match v
    case ArrayValue(items) =>
      forall k | 0 <= k < |items| ensures EncodeAny(items[k]).Success? <==> Encodable(items[k]) {
        EncodeSucceedsIffEncodable(items[k]);
      }
    case DictValue(fields) =>
      forall key | key in fields ensures EncodeAny(fields[key]).Success? <==> Encodable(fields[key]) {
        EncodeSucceedsIffEncodable(fields[key]);
      }
    case _ =>
  }

  /** Decoding what was encoded gives back the value, up to Double-to-Int narrowing. */
  lemma {:induction false} EncodeDecodeRoundTrip(v: AnyValue)
    requires EncodeAny(v).Success?
    ensures DecodeAny(EncodeAny(v).value) == Success(Canonical(v))
    decreases v
  {
    match v
    case ArrayValue(items) =>
      var js := EncodeAny(v).value.items;
      forall k | 0 <= k < |items| ensures DecodeAny(js[k]) == Success(Canonical(items[k])) {
        EncodeDecodeRoundTrip(items[k]);
      }
      assert DecodeAny(JArray(js)).value.items == Canonical(v).items;
    case DictValue(fields) =>
      var js := EncodeAny(v).value.fields;
      forall key | key in fields ensures DecodeAny(js[key]) == Success(Canonical(fields[key])) {
        EncodeDecodeRoundTrip(fields[key]);
      }
      assert DecodeAny(JObject(js)).value.fields == Canonical(v).fields;
    case _ =>
  }

  /** Every value the decoder produces re-encodes to the document it came from. */
  lemma {:induction false} DecodeEncodeRoundTrip(j: Json)
    requires DecodeAny(j).Success?
    ensures EncodeAny(DecodeAny(j).value) == Success(j)
    decreases j
  {
    match j
    case JArray(items) =>
      var vs := DecodeAny(j).value.items;
      forall k | 0 <= k < |items| ensures EncodeAny(vs[k]) == Success(items[k]) {
        DecodeEncodeRoundTrip(items[k]);
      }
      assert EncodeAny(DecodeAny(j).value).value.items == items;
    case JObject(fields) =>
      var vs := DecodeAny(j).value.fields;
      forall key | key in fields ensures EncodeAny(vs[key]) == Success(fields[key]) {
        DecodeEncodeRoundTrip(fields[key]);
      }
      assert EncodeAny(DecodeAny(j).value).value.fields == fields;
    case _ =>
  }

  /** A JSON null anywhere, even inside an array, makes the whole metadata value undecodable. */
  lemma {:induction false} NullIsRejected(items: seq<Json>, k: int)
    requires 0 <= k < |items| && items[k] == JNull
    ensures DecodeAny(JNull).Failure?
    ensures DecodeAny(JArray(items)).Failure?
  {
  }

  /** Int is tried before Double: a Double with an integral JSON form comes back as an Int. */
  lemma DoubleNarrowsToInt()
    ensures DecodeAny(EncodeAny(DoubleValue(Integral(3))).value) == Success(IntValue(3))
    ensures DecodeAny(JNumber(Integral(0x8000_0000_0000_0000))) == Success(DoubleValue(Integral(0x8000_0000_0000_0000)))
  {
  }

  /** The per-file manifest record. */
  datatype FileEntry = FileEntry(
    path: string,
    size: int,
    chunkHashes: seq<string>,
    fileSHA256: string,
    metadata: map<string, AnyValue>,
    merkleRoot: string)
}
