/**
  The JSON token stream of section 4 of RFC 8259 as `Utf8JsonReader` and
  `Utf8JsonWriter` see it, and the ordinary (non-polymorphic) codec that
  System.Text.Json applies to the payload of a tagged record.

  The payload codec is modelled structurally: a value is encoded to the
  token sequence a writer emits for it and decoded by consuming exactly
  those tokens. Numbers are integers; floating point is not modelled.
*/
module Json {
  import opened Wrappers

  datatype Token =
    | StartObject
    | EndObject
    | StartArray
    | EndArray
    | PropertyName(name: string)
    | Str(text: string)
    | Number(n: int)
    | True
    | False
    | Null

  datatype Value =
    | JNull
    | JBool(b: bool)
    | JNumber(n: int)
    | JString(s: string)
    | JArray(elements: seq<Value>)
    | JObject(members: seq<Member>)

  datatype Member = Member(key: string, value: Value)

  /** What the reader reports when the tokens do not form a value. */
  datatype DecodeError = UnexpectedToken(position: nat) | UnexpectedEnd

  /** `rest` is what is left of `toks` after a prefix has been consumed. */
  ghost predicate IsSuffix(rest: seq<Token>, toks: seq<Token>)
  {
    |rest| <= |toks| && rest == toks[|toks| - |rest|..]
  }

  function EncodeValue(v: Value): seq<Token>
  {
    match v
    case JNull => [Null]
    case JBool(b) => if b then [True] else [False]
    case JNumber(n) => [Number(n)]
    case JString(s) => [Str(s)]
    case JArray(es) => [StartArray] + EncodeElements(es)
    case JObject(ms) => [StartObject] + EncodeMembers(ms)
  }

  /** The elements of an array followed by the closing `EndArray`. */
  function EncodeElements(es: seq<Value>): seq<Token>
  {
    if es == [] then [EndArray]
    else EncodeValue(es[0]) + EncodeElements(es[1..])
  }

  /** The members of an object followed by the closing `EndObject`. */
  function EncodeMembers(ms: seq<Member>): seq<Token>
  {
    if ms == [] then [EndObject]
    else [PropertyName(ms[0].key)] + EncodeValue(ms[0].value) + EncodeMembers(ms[1..])
  }

  /** Reads one value from the front of `toks`; on success returns it and the unread tokens. */
  function DecodeValue(toks: seq<Token>): (r: Result<(Value, seq<Token>), DecodeError>)
    ensures r.Ok? ==> |r.value.1| < |toks| && IsSuffix(r.value.1, toks)
    decreases |toks|, 0
  {
    if toks == [] then Err(UnexpectedEnd)
    else
      match toks[0]
      case Null => Ok((JNull, toks[1..]))
      case True => Ok((JBool(true), toks[1..]))
      case False => Ok((JBool(false), toks[1..]))
      case Number(n) => Ok((JNumber(n), toks[1..]))
      case Str(s) => Ok((JString(s), toks[1..]))
      case StartArray =>
        var (es, rest) :- DecodeElements(toks[1..]);
        Ok((JArray(es), rest))
      case StartObject =>
        var (ms, rest) :- DecodeMembers(toks[1..]);
        Ok((JObject(ms), rest))
      case _ => Err(UnexpectedToken(0))
  }

  /** Reads array elements up to and including the closing `EndArray`. */
  function DecodeElements(toks: seq<Token>): (r: Result<(seq<Value>, seq<Token>), DecodeError>)
    ensures r.Ok? ==> |r.value.1| < |toks| && IsSuffix(r.value.1, toks)
    decreases |toks|, 1
  {
    if toks == [] then Err(UnexpectedEnd)
    else if toks[0] == EndArray then Ok(([], toks[1..]))
    else
      var (v, rest) :- DecodeValue(toks);
      var (es, rest') :- DecodeElements(rest);
      Ok(([v] + es, rest'))
  }

  /** Reads object members up to and including the closing `EndObject`. */
  function DecodeMembers(toks: seq<Token>): (r: Result<(seq<Member>, seq<Token>), DecodeError>)
    ensures r.Ok? ==> |r.value.1| < |toks| && IsSuffix(r.value.1, toks)
    decreases |toks|, 1
  {
    if toks == [] then Err(UnexpectedEnd)
    else if toks[0] == EndObject then Ok(([], toks[1..]))
    else if !toks[0].PropertyName? then Err(UnexpectedToken(0))
    else
      var (v, rest) :- DecodeValue(toks[1..]);
      var (ms, rest') :- DecodeMembers(rest);
      Ok(([Member(toks[0].name, v)] + ms, rest'))
  }

  /** Decoding what the encoder wrote gives back the value and leaves the following tokens unread. */
  lemma {:induction false} ValueRoundTrip(v: Value, rest: seq<Token>)
    ensures DecodeValue(EncodeValue(v) + rest) == Ok((v, rest))
    decreases v, 1
  {
    var toks := EncodeValue(v) + rest;
    match v
    case JArray(es) =>
      assert toks[0] == StartArray && toks[1..] == EncodeElements(es) + rest;
      ElementsRoundTrip(es, rest);
      assert DecodeElements(toks[1..]) == Ok((es, rest));
    case JObject(ms) =>
      assert toks[0] == StartObject && toks[1..] == EncodeMembers(ms) + rest;
      MembersRoundTrip(ms, rest);
      assert DecodeMembers(toks[1..]) == Ok((ms, rest));
    case _ =>
      assert toks[1..] == rest;
  }

  lemma {:induction false} ElementsRoundTrip(es: seq<Value>, rest: seq<Token>)
    ensures DecodeElements(EncodeElements(es) + rest) == Ok((es, rest))
    decreases es, 0
  {
    if es != [] {
      var toks := EncodeElements(es) + rest;
      var tail := EncodeElements(es[1..]) + rest;
      assert toks == EncodeValue(es[0]) + tail;
      ValueRoundTrip(es[0], tail);
      ElementsRoundTrip(es[1..], rest);
      EncodingStartsAValue(es[0]);
      assert toks[0] == EncodeValue(es[0])[0];
      assert [es[0]] + es[1..] == es;
    }
  }

  lemma {:induction false} MembersRoundTrip(ms: seq<Member>, rest: seq<Token>)
    ensures DecodeMembers(EncodeMembers(ms) + rest) == Ok((ms, rest))
    decreases ms, 0
  {
    if ms != [] {
      var tail := EncodeMembers(ms[1..]) + rest;
      EncodeMembersCons(ms, rest);
      ValueRoundTrip(ms[0].value, tail);
      MembersRoundTrip(ms[1..], rest);
      MembersStep(ms[0], EncodeValue(ms[0].value) + tail, tail, ms[1..], rest);
    }
  }

  lemma EncodeMembersCons(ms: seq<Member>, rest: seq<Token>)
    requires ms != []
    ensures EncodeMembers(ms) + rest
         == [PropertyName(ms[0].key)] + (EncodeValue(ms[0].value) + (EncodeMembers(ms[1..]) + rest))
    ensures [ms[0]] + ms[1..] == ms
  {
  }

  /** One member step of the decoder: a name, a value, then the remaining members. */
  lemma MembersStep(m: Member, valueToks: seq<Token>, tail: seq<Token>, ms: seq<Member>, rest: seq<Token>)
    requires DecodeValue(valueToks) == Ok((m.value, tail))
    requires DecodeMembers(tail) == Ok((ms, rest))
    ensures DecodeMembers([PropertyName(m.key)] + valueToks) == Ok(([m] + ms, rest))
  {
    var toks := [PropertyName(m.key)] + valueToks;
    assert toks[0] == PropertyName(m.key) && toks[1..] == valueToks;
  }

  /** An encoded value never starts with a closing token. */
  lemma EncodingStartsAValue(v: Value)
    ensures |EncodeValue(v)| > 0
    ensures EncodeValue(v)[0] != EndArray && EncodeValue(v)[0] != EndObject
  {
  }

  /**
    The decoder accepts only canonical encodings: whatever it consumes is
    exactly the encoding of the value it returns.
  */
  lemma {:induction false} ValueCanonical(toks: seq<Token>)
    ensures DecodeValue(toks).Ok? ==>
      toks == EncodeValue(DecodeValue(toks).value.0) + DecodeValue(toks).value.1
    decreases |toks|, 0
  {
    if toks != [] && DecodeValue(toks).Ok? {
      match toks[0]
      case StartArray =>
        ElementsCanonical(toks[1..]);
      case StartObject =>
        MembersCanonical(toks[1..]);
      case _ =>
    }
  }

  lemma {:induction false} ElementsCanonical(toks: seq<Token>)
    ensures DecodeElements(toks).Ok? ==>
      toks == EncodeElements(DecodeElements(toks).value.0) + DecodeElements(toks).value.1
    decreases |toks|, 1
  {
    if toks != [] && toks[0] != EndArray && DecodeElements(toks).Ok? {
      var (v, rest) := DecodeValue(toks).value;
      ValueCanonical(toks);
      ElementsCanonical(rest);
      var (es, rest') := DecodeElements(rest).value;
      assert ([v] + es)[1..] == es;
    }
  }

  lemma {:induction false} MembersCanonical(toks: seq<Token>)
    ensures DecodeMembers(toks).Ok? ==>
      toks == EncodeMembers(DecodeMembers(toks).value.0) + DecodeMembers(toks).value.1
    decreases |toks|, 1
  {
    if toks != [] && toks[0] != EndObject && DecodeMembers(toks).Ok? {
      var (v, rest) := DecodeValue(toks[1..]).value;
      ValueCanonical(toks[1..]);
      MembersCanonical(rest);
      var (ms, rest') := DecodeMembers(rest).value;
      assert ([Member(toks[0].name, v)] + ms)[1..] == ms;
    }
  }
}
