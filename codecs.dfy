/**
 * The two payload codecs of the data-access object. The Spring string serializer and
 * SerializeUtil are foreign code: each is a pair of total functions, and what the model
 * needs of them is stated as a round-trip hypothesis, never assumed.
 */
module Codecs {
  import opened Wrappers

  type Bytes = seq<bv8>

  /**
   * A Java value handed to the object operations: a java.lang.String, or any other
   * serializable object, whose serialized state `fields` stands for.
   */
  datatype Value = Str(s: string) | Obj(fields: string)

  /** The template's string serializer (getStringSerializer()). */
  datatype StringCodec = StringCodec(encode: string -> Bytes, decode: Bytes -> string)

  /** SerializeUtil: serialize and deserialize any object. */
  datatype ObjectCodec = ObjectCodec(serialize: Value -> Bytes, deserialize: Bytes -> Value)

  ghost predicate StringRoundTrip(sc: StringCodec)
  {
    forall s :: sc.decode(sc.encode(s)) == s
  }

  ghost predicate ObjectRoundTrip(oc: ObjectCodec)
  {
    forall v :: oc.deserialize(oc.serialize(v)) == v
  }

  /** The bytes a push stores: the codec is chosen by the value's runtime type. */
  function EncodeForPush(sc: StringCodec, oc: ObjectCodec, v: Value): (b: Bytes)
    ensures v.Str? ==> b == sc.encode(v.s)
    ensures v.Obj? ==> b == oc.serialize(v)
  {
    if v.Str? then sc.encode(v.s) else oc.serialize(v)
  }

  /**
   * What resultLPop/resultRPop return for popped bytes: the codec is chosen by the
   * calling method (`asString` for the String variants), and a null pop stays null.
   */
  function DecodePopped(sc: StringCodec, oc: ObjectCodec, asString: bool, b: Option<Bytes>): (r: Option<Value>)
    ensures r.None? <==> b.None?
    ensures asString && r.Some? ==> r.value.Str?
  {
    match b
    case None => None
    case Some(x) => Some(if asString then Str(sc.decode(x)) else oc.deserialize(x))
  }

  /**
   * The matching pairs round-trip: lPushString/lPopString on a String, and
   * lPushObj/lPopObj on a non-String object.
   */
  lemma MatchingCodecsRoundTrip(sc: StringCodec, oc: ObjectCodec, v: Value)
    requires StringRoundTrip(sc) && ObjectRoundTrip(oc)
    ensures DecodePopped(sc, oc, v.Str?, Some(EncodeForPush(sc, oc, v))) == Some(v)
  {
  }

  /** lPushObj of a String followed by lPopObj decodes string-codec bytes with SerializeUtil. */
  lemma StringPushedObjectPopped(sc: StringCodec, oc: ObjectCodec, s: string)
    ensures DecodePopped(sc, oc, false, Some(EncodeForPush(sc, oc, Str(s)))) == Some(oc.deserialize(sc.encode(s)))
  {
  }

  // A pair of codecs that each round-trip, used to show that the mixed pair need not.

  function Byte(x: int): (b: bv8)
    requires 0 <= x < 256
    ensures b as int == x
  {
    x as bv8
  }

  /** Three big-endian bytes per character. */
  function CharBytes(c: char): (b: Bytes)
    ensures |b| == 3
  {
    var n := c as int;
    var q := n / 256;
    [Byte(q / 256), Byte(q % 256), Byte(n % 256)]
  }

  function CharOf(a: bv8, b: bv8, c: bv8): char
  {
    var n := (a as int * 256 + b as int) * 256 + c as int;
    if n < 0xD800 || 0xE000 <= n < 0x11_0000 then n as char else '?'
  }

  lemma CharRoundTrip(c: char)
    ensures CharOf(CharBytes(c)[0], CharBytes(c)[1], CharBytes(c)[2]) == c
  {
    var n := c as int;
    var q := n / 256;
    assert n == q * 256 + n % 256;
    assert q == (q / 256) * 256 + q % 256;
    var b := CharBytes(c);
    assert b[0] as int == q / 256 && b[1] as int == q % 256 && b[2] as int == n % 256;
    assert (b[0] as int * 256 + b[1] as int) * 256 + b[2] as int == n;
  }

  function WitnessEncode(s: string): (b: Bytes)
    ensures |b| == 3 * |s|
  {
    if s == [] then [] else CharBytes(s[0]) + WitnessEncode(s[1..])
  }

  function WitnessDecode(b: Bytes): string
    decreases |b|
  {
    if |b| < 3 then "" else [CharOf(b[0], b[1], b[2])] + WitnessDecode(b[3..])
  }

  lemma {:induction false} WitnessStringRoundTrip(s: string)
    ensures WitnessDecode(WitnessEncode(s)) == s
  {
    if s != [] {
      var c := s[0];
      var rest := WitnessEncode(s[1..]);
      var b := CharBytes(c) + rest;
      assert b[3..] == rest;
      CharRoundTrip(c);
      WitnessStringRoundTrip(s[1..]);
    }
  }

  function WitnessSerialize(v: Value): Bytes
  {
    match v
    case Str(s) => [0] + WitnessEncode(s)
    case Obj(f) => [1] + WitnessEncode(f)
  }

  function WitnessDeserialize(b: Bytes): Value
  {
    if |b| > 0 && b[0] == 0 then Str(WitnessDecode(b[1..])) else if |b| > 0 then Obj(WitnessDecode(b[1..])) else Obj("")
  }

  /**
   * Both codecs may round-trip and the mixed pair still lose the value: lPushObj("A")
   * followed by lPopObj need not give back "A".
   */
  lemma MixedCodecsCanDisagree()
    ensures StringRoundTrip(StringCodec(WitnessEncode, WitnessDecode))
    ensures ObjectRoundTrip(ObjectCodec(WitnessSerialize, WitnessDeserialize))
    ensures DecodePopped(StringCodec(WitnessEncode, WitnessDecode), ObjectCodec(WitnessSerialize, WitnessDeserialize),
                         false, Some(EncodeForPush(StringCodec(WitnessEncode, WitnessDecode),
                                                   ObjectCodec(WitnessSerialize, WitnessDeserialize), Str("A"))))
            != Some(Str("A"))
  {
    forall s | true ensures WitnessDecode(WitnessEncode(s)) == s {
      WitnessStringRoundTrip(s);
    }
    forall v | true ensures WitnessDeserialize(WitnessSerialize(v)) == v {
      match v
      case Str(s) =>
        assert ([0] + WitnessEncode(s))[1..] == WitnessEncode(s);
      case Obj(f) =>
        assert ([1] + WitnessEncode(f))[1..] == WitnessEncode(f);
    }
    var e := WitnessEncode("A");
    assert e == CharBytes('A');
    assert e[0] == 0 && e[1..] == [0, 65];
  }
}
