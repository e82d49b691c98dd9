/**
  The JNS converter (subprojects/JNS/JnsConverter.cs): reads and writes a
  value of a polymorphic base type `T` in the wire shape

    { "<group tag>": "<type tag>", "type_value": { ...members... } }

  over the token stream of a JSON reader and writer. The payload object is
  handled by the ordinary codec of module Json.
*/
module JnsConverter {
  import opened Wrappers
  import opened Json
  import opened JnsServer

  /** A .NET type, identified by its full name. */
  type TypeId = string

  type Directory = Server<string, TypeId>

  /** A non-null value: its runtime type and the members of its ordinary encoding. */
  datatype Instance = Instance(runtimeType: TypeId, fields: seq<Member>)

  /** The literal property name that introduces the payload. */
  const TypeValueKey: string := "type_value"

  /** Why `Read` throws; the comments give the original exception. */
  datatype ReadError =
    | NoObjectStart                         // JsonException "Could not find the start of an object"
    | NoPropertyName                        // JsonException "Could not find a property name"
    | UnknownGroup(group: string)           // JsonException "This type-group is not recognized ..."
    | NoTypeName                            // JsonException: the group's value is not a string
    | UnknownType(record: JnsRecord<string>)  // JsonException "Type could not be found on the JNS server"
    | NoTypeValue                           // JsonException "No field type_value found"
    | NotAStringToken                       // InvalidOperationException from GetString
    | NoPayloadObject                       // JsonException "Object definition could not be found"
    | BadPayload(cause: DecodeError)        // raised by the nested deserializer
    | InvalidCast(concrete: TypeId, target: TypeId)  // InvalidCastException from the cast to T
    | NoObjectEnd                           // JsonException: anything but the closing brace

  /** Why `Write` throws. */
  datatype WriteError =
    | NullBaseRecord                        // NullReferenceException: T itself is not registered
    | UnregisteredType(runtimeType: TypeId)   // NotSupportedException "Type could not be found"

  /**
    Whether a value of type `concrete` can be cast to the converter's type
    `target`: the same type, or a type registered under `target` as its base.
  */
  predicate Assignable(s: Directory, concrete: TypeId, target: TypeId)
  {
    concrete == target || (concrete in s.declaredBase && s.declaredBase[concrete] == target)
  }

  /**
    `Utf8JsonReader.GetString`: the text of a property name or string
    token, null for a JSON null, and an InvalidOperationException (`None`
    here) for every other token.
  */
  function GetString(t: Token): Option<Option<string>>
  {
    match t
    case PropertyName(n) => Some(Some(n))
    case Str(s) => Some(Some(s))
    case Null => Some(None)
    case _ => None
  }

  /**
    The converter for base type `target`, reading from a reader positioned
    on `toks[0]`. On success it returns the value and the tokens after the
    closing brace of the tagged object.
  */
  function Read(s: Directory, target: TypeId, toks: seq<Token>): (r: Result<(Instance, seq<Token>), ReadError>)
    ensures r.Ok? ==> |r.value.1| < |toks| && IsSuffix(r.value.1, toks)
    ensures r.Ok? ==>
              && |toks| > 2 && toks[1].PropertyName? && toks[2].Str?
              && TranslateRecord(s, JnsRecord(toks[1].name, toks[2].text)) == Some(r.value.0.runtimeType)
    ensures r.Ok? ==> Assignable(s, r.value.0.runtimeType, target)
    ensures (toks == [] || toks[0] != StartObject) ==> r == Err(NoObjectStart)
    ensures |toks| >= 2 && toks[0] == StartObject && toks[1].PropertyName? && !ContainsGroup(s, toks[1].name)
      ==> r == Err(UnknownGroup(toks[1].name))
  {
    if toks == [] || toks[0] != StartObject then Err(NoObjectStart)
    else if |toks| < 2 || !toks[1].PropertyName? then Err(NoPropertyName)
    else
      var group := toks[1].name;
      if !ContainsGroup(s, group) then Err(UnknownGroup(group))
      else if |toks| < 3 || !toks[2].Str? then Err(NoTypeName)
      else
        var record := JnsRecord(group, toks[2].text);
        match TranslateRecord(s, record)
        case None => Err(UnknownType(record))
        case Some(concrete) =>
          if |toks| < 4 then Err(NoTypeValue)
          else if GetString(toks[3]).None? then Err(NotAStringToken)
          else if GetString(toks[3]).value != Some(TypeValueKey) then Err(NoTypeValue)
          else if |toks| < 5 || toks[4] != StartObject then Err(NoPayloadObject)
          else
            ReadBody(s, target, concrete, toks[5..])
  }

  /**
    The rest of `Read` once the payload's opening brace has been consumed:
    the nested deserializer reads the members of `concrete`, the result is
    cast to `target`, and the tagged object must close immediately.
  */
  function ReadBody(s: Directory, target: TypeId, concrete: TypeId, body: seq<Token>)
    : (r: Result<(Instance, seq<Token>), ReadError>)
    ensures r.Ok? ==> |r.value.1| < |body| && IsSuffix(r.value.1, body)
    ensures r.Ok? ==> r.value.0.runtimeType == concrete && Assignable(s, concrete, target)
  {
    match DecodeMembers(body)
    case Err(e) => Err(BadPayload(e))
    case Ok((fields, rest)) =>
      if !Assignable(s, concrete, target) then Err(InvalidCast(concrete, target))
      else if rest == [] || rest[0] != EndObject then Err(NoObjectEnd)
      else Ok((Instance(concrete, fields), rest[1..]))
  }

  /** Once the header names a known tag pair, `Read` continues with the body. */
  lemma ReadAfterHeader(s: Directory, target: TypeId, record: JnsRecord<string>, body: seq<Token>)
    requires record.groupName in s.groups && record in s.forward
    ensures Read(s, target, Header(record) + [StartObject] + body) == ReadBody(s, target, s.forward[record], body)
  {
    var toks := Header(record) + [StartObject] + body;
    assert toks[0] == StartObject && toks[1] == PropertyName(record.groupName);
    assert toks[2] == Str(record.typeName) && toks[3] == PropertyName(TypeValueKey);
    assert toks[4] == StartObject && toks[5..] == body;
  }

  /** The tokens before the payload: the opening brace, the tag pair and the `type_value` name. */
  function Header(record: JnsRecord<string>): seq<Token>
  {
    [StartObject, PropertyName(record.groupName), Str(record.typeName), PropertyName(TypeValueKey)]
  }

  /**
    The converter for base type `target` writing `value` (`None` is a null
    reference). A null is tagged with the record of `target` itself and
    carries a JSON null payload. The serializer itself never hands a null
    to this converter (`HandleNull` is false for reference types), so the
    null branch is reached only by calling the converter directly.
  */
  function Write(s: Directory, target: TypeId, value: Option<Instance>): (r: Result<seq<Token>, WriteError>)
    ensures r.Ok? <==> if value.Some? then ContainsType(s, value.value.runtimeType) else ContainsType(s, target)
    ensures r.Ok? ==> |r.value| >= 6 && r.value[0] == StartObject && r.value[|r.value| - 1] == EndObject
    ensures value.Some? && !ContainsType(s, value.value.runtimeType) ==> r == Err(UnregisteredType(value.value.runtimeType))
    ensures value.Some? && r.Ok? ==> r.value[..4] == Header(TranslateType(s, value.value.runtimeType).value)
    ensures value.None? && r.Ok? ==> r.value == Header(TranslateType(s, target).value) + [Null, EndObject]
    ensures value.None? && !ContainsType(s, target) ==> r == Err(NullBaseRecord)
  {
    match value
    case None =>
      (match TranslateType(s, target)
       case None => Err(NullBaseRecord)
       case Some(record) => Ok(Header(record) + [Null, EndObject]))
    case Some(v) =>
      match TranslateType(s, v.runtimeType)
      case None => Err(UnregisteredType(v.runtimeType))
      case Some(record) => Ok(Header(record) + EncodeValue(JObject(v.fields)) + [EndObject])
  }

  /** Reading what was written for a non-null value gives the same runtime type and payload back. */
  lemma RoundTrip(s: Directory, target: TypeId, v: Instance, rest: seq<Token>)
    requires Valid(s)
    requires ContainsType(s, v.runtimeType) && Assignable(s, v.runtimeType, target)
    ensures Write(s, target, Some(v)).Ok?
    ensures Read(s, target, Write(s, target, Some(v)).value + rest) == Ok((v, rest))
  {
    var record := s.backward[v.runtimeType];
    var body := EncodeMembers(v.fields) + ([EndObject] + rest);
    assert Write(s, target, Some(v)).value + rest == Header(record) + [StartObject] + body;
    ReadAfterHeader(s, target, record, body);
    MembersRoundTrip(v.fields, [EndObject] + rest);
  }

  /**
    `Read` accepts nothing but what `Write` produces for the value it
    returns: the wrapper's members (the tag pair, then `type_value`, then
    the closing brace) cannot be reordered, left out or followed by more,
    and a null payload is rejected. The payload's own members are taken as
    the value's fields in the order they come, so this says nothing about
    how the serializer treats reordered or unknown payload members. A
    string value where the `type_value` name belongs is excluded, since a
    JSON reader never reports one there.
  */
  lemma Canonical(s: Directory, target: TypeId, toks: seq<Token>, v: Instance, rest: seq<Token>)
    requires Valid(s)
    requires Read(s, target, toks) == Ok((v, rest))
    requires !toks[3].Str?
    ensures Write(s, target, Some(v)).Ok?
    ensures toks == Write(s, target, Some(v)).value + rest
  {
    HeaderOfAccepted(s, target, toks);
    var record := JnsRecord(toks[1].name, toks[2].text);
    BodyCanonical(s, target, s.forward[record], toks[5..], v, rest);
    WriteShape(s, target, v, record);
    Regroup(Header(record), [StartObject], EncodeMembers(v.fields), [EndObject], rest);
  }

  lemma Regroup<T>(a: seq<T>, b: seq<T>, c: seq<T>, d: seq<T>, e: seq<T>)
    ensures a + b + c + d + e == a + b + (c + d + e)
  {
  }

  /** What `Write` emits for a value whose type carries the tag pair `record`. */
  lemma WriteShape(s: Directory, target: TypeId, v: Instance, record: JnsRecord<string>)
    requires Valid(s)
    requires record in s.forward && s.forward[record] == v.runtimeType
    ensures Write(s, target, Some(v)) == Ok(Header(record) + [StartObject] + EncodeMembers(v.fields) + [EndObject])
  {
    assert s.backward[v.runtimeType] == record;
    var members := EncodeMembers(v.fields);
    assert EncodeValue(JObject(v.fields)) == [StartObject] + members;
    assert Header(record) + ([StartObject] + members) + [EndObject]
        == Header(record) + [StartObject] + members + [EndObject];
  }

  /** An accepted input starts with the header of the tag pair it resolved, and the body yields the result. */
  lemma HeaderOfAccepted(s: Directory, target: TypeId, toks: seq<Token>)
    requires Read(s, target, toks).Ok?
    requires !toks[3].Str?
    ensures |toks| > 5
    ensures var record := JnsRecord(toks[1].name, toks[2].text);
      && record in s.forward
      && toks == Header(record) + [StartObject] + toks[5..]
      && ReadBody(s, target, s.forward[record], toks[5..]) == Read(s, target, toks)
  {
    assert toks[3] == PropertyName(TypeValueKey) && toks[4] == StartObject;
    assert toks == toks[..5] + toks[5..];
  }

  /** The body `ReadBody` accepts is the payload's encoding followed by the closing brace. */
  lemma BodyCanonical(s: Directory, target: TypeId, concrete: TypeId, body: seq<Token>, v: Instance, rest: seq<Token>)
    requires ReadBody(s, target, concrete, body) == Ok((v, rest))
    ensures v.runtimeType == concrete
    ensures body == EncodeMembers(v.fields) + [EndObject] + rest
  {
    var (fields, rest') := DecodeMembers(body).value;
    MembersCanonical(body);
    assert rest' == [EndObject] + rest'[1..];
  }

  /** A null written by the converter cannot be read back: its payload is not an object. */
  lemma NullIsNotReadBack(s: Directory, target: TypeId, reader: TypeId, rest: seq<Token>)
    requires Valid(s) && ContainsType(s, target)
    ensures Write(s, target, None).Ok?
    ensures Read(s, reader, Write(s, target, None).value + rest) == Err(NoPayloadObject)
  {
    var record := s.backward[target];
    assert s.forward[record] == target;
    var toks := Write(s, target, None).value + rest;
    assert toks[..5] == Header(record) + [Null];
  }

  /** A member after the payload makes `Read` fail where the closing brace belongs. */
  lemma ExtraMemberRejected(s: Directory, target: TypeId, v: Instance, key: string, extra: Value, rest: seq<Token>)
    requires Valid(s)
    requires ContainsType(s, v.runtimeType) && Assignable(s, v.runtimeType, target)
    ensures Read(s, target,
      Header(s.backward[v.runtimeType]) + EncodeValue(JObject(v.fields))
      + [PropertyName(key)] + EncodeValue(extra) + [EndObject] + rest) == Err(NoObjectEnd)
  {
    var record := s.backward[v.runtimeType];
    var tail := [PropertyName(key)] + EncodeValue(extra) + [EndObject] + rest;
    var body := EncodeMembers(v.fields) + tail;
    assert EncodeValue(JObject(v.fields)) == [StartObject] + EncodeMembers(v.fields);
    Regroup7(Header(record), [StartObject], EncodeMembers(v.fields), [PropertyName(key)], EncodeValue(extra), [EndObject], rest);
    ReadAfterHeader(s, target, record, body);
    MembersRoundTrip(v.fields, tail);
    assert tail[0] == PropertyName(key);
  }

  lemma Regroup7<T>(a: seq<T>, b: seq<T>, c: seq<T>, d: seq<T>, e: seq<T>, f: seq<T>, g: seq<T>)
    ensures a + (b + c) + d + e + f + g == a + b + (c + (d + e + f + g))
  {
  }
}
