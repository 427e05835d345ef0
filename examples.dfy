/**
 * The library's own usage examples, stated as lemmas about concrete
 * descriptors: a non-empty-string codec, the three modifiers over `string`,
 * an enumeration of two letters and the unsafe unwrap of `number`.
 */
module Examples {
  import opened Values
  import opened Descriptors
  import opened Extensions

  /** Validation of a non-empty string: a string check, then a length check with a message. */
  function NonEmptyStringValidate(u: Value, c: Context): Validation {
    var r := Validate(StringType, u, c);
    if r.Failure? then r
    else if |r.value.s| > 0 then Success(r.value)
    else Failure([ValidationError(u, c, Some("Empty string is not allowed"))])
  }

  const NonEmptyStringDecoder: Decoder := MakeDecoder("NonEmptyString", NonEmptyStringValidate)
  const NonEmptyStringEncoder: Encoder := MakeEncoder(Via((v: Value) => v))
  const NonEmptyStringCodec: Descriptor := MakeCodec(NonEmptyStringDecoder, NonEmptyStringEncoder, (u: Value) => u.Str?)

  /**
   * The codec adds no validation of its own: it decodes like its decoder,
   * rejecting "", yet encodes "" unchanged.
   */
  lemma NonEmptyStringCodecExample()
    ensures NonEmptyStringDecoder.Decode(Str("str")).Success?
    ensures NonEmptyStringDecoder.Decode(Str("")).Failure?
    ensures Encode(NonEmptyStringCodec, Str("str")) == Some(Str("str"))
    ensures Encode(NonEmptyStringCodec, Str("")) == Some(Str(""))
    ensures Decode(NonEmptyStringCodec, Str("str")).Success?
    ensures Decode(NonEmptyStringCodec, Str("")).Failure?
  {
    CodecDecodesAsDecoder(NonEmptyStringDecoder, NonEmptyStringEncoder, (u: Value) => u.Str?, Str("str"));
    CodecDecodesAsDecoder(NonEmptyStringDecoder, NonEmptyStringEncoder, (u: Value) => u.Str?, Str(""));
  }

  /** A nullable over `string` encodes by identity, so even a value it rejects passes through. */
  lemma NullableEncodeExample()
    ensures Encode(Nullable(StringType, None), Null) == Some(Null)
    ensures Encode(Nullable(StringType, None), Undefined) == Some(Undefined)
    ensures Encode(Nullable(StringType, None), Str("s")) == Some(Str("s"))
    ensures !Is(Nullable(StringType, None), Num(3))
    ensures Encode(Nullable(StringType, None), Num(3)) == Some(Num(3))
  {
    NullableEncode(StringType, None, Null);
    NullableEncode(StringType, None, Undefined);
    NullableEncode(StringType, None, Str("s"));
    NullableEncode(StringType, None, Num(3));
  }

  /** `string` alone rejects null and undefined and accepts "test". */
  lemma StringExample()
    ensures Decode(StringType, Undefined).Failure?
    ensures Decode(StringType, Null).Failure?
    ensures Decode(StringType, Str("test")).Success?
  {
  }

  lemma NullableStringExample()
    ensures Decode(Nullable(StringType, Some("NullableString")), Undefined).Success?
    ensures Decode(Nullable(StringType, Some("NullableString")), Null).Success?
    ensures Decode(Nullable(StringType, Some("NullableString")), Str("test")).Success?
  {
    var t := Nullable(StringType, Some("NullableString"));
    NullableValidate(StringType, Some("NullableString"), Undefined, Root(t.name, Undefined));
    NullableValidate(StringType, Some("NullableString"), Null, Root(t.name, Null));
    NullableValidate(StringType, Some("NullableString"), Str("test"), Root(t.name, Str("test")));
  }

  lemma OptionalStringExample()
    ensures Decode(Optional(StringType, Some("OptionalString")), Undefined).Success?
    ensures Decode(Optional(StringType, Some("OptionalString")), Null).Failure?
    ensures Decode(Optional(StringType, Some("OptionalString")), Str("test")).Success?
  {
    var t := Optional(StringType, Some("OptionalString"));
    OptionalValidate(StringType, Some("OptionalString"), Undefined, Root(t.name, Undefined));
    OptionalValidate(StringType, Some("OptionalString"), Null, Root(t.name, Null));
    OptionalValidate(StringType, Some("OptionalString"), Str("test"), Root(t.name, Str("test")));
  }

  lemma NullUnionStringExample()
    ensures Decode(NullUnion(StringType, Some("NullUnion")), Undefined).Failure?
    ensures Decode(NullUnion(StringType, Some("NullUnion")), Null).Success?
    ensures Decode(NullUnion(StringType, Some("NullUnion")), Str("test")).Success?
  {
    var t := NullUnion(StringType, Some("NullUnion"));
    NullUnionValidate(StringType, Some("NullUnion"), Undefined, Root(t.name, Undefined));
    NullUnionValidate(StringType, Some("NullUnion"), Null, Root(t.name, Null));
    NullUnionValidate(StringType, Some("NullUnion"), Str("test"), Root(t.name, Str("test")));
  }

  /** The default names of the three modifiers over `string`. */
  lemma DefaultNamesExample()
    ensures Nullable(StringType, None).name == "string | null | undefined"
    ensures Optional(StringType, None).name == "string | undefined"
    ensures NullUnion(StringType, None).name == "string | null"
    ensures CreateEnumType(map[], None).name == "enum"
  {
  }

  /** The enum object `{ Male: 'M', Female: 'F' }`. */
  const Sex: map<string, Value> := map["Male" := Str("M"), "Female" := Str("F")]

  lemma SexEnumExample()
    ensures Decode(CreateEnumType(Sex, Some("Sex")), Str("M")).Success?
    ensures Decode(CreateEnumType(Sex, Some("Sex")), Str("F")).Success?
    ensures Decode(CreateEnumType(Sex, Some("Sex")), Str("A")).Failure?
    ensures Decode(CreateEnumType(Sex, None), Str("A")).Failure?
    ensures !Is(CreateEnumType(Sex, None), Str("Male"))
  {
    assert Sex["Male"] == Str("M");
    assert Sex["Female"] == Str("F");
  }

  lemma UnsafeDecodeNumberExample()
    ensures UnsafeDecode(v => Decode(NumberType, v), Num(1)) == Returned(Num(1))
    ensures UnsafeDecode(v => Decode(NumberType, v), Str("1")).Raised?
    ensures UnsafeDecode(v => Decode(NumberType, v), Str("")).Raised?
    ensures UnsafeDecode(v => Decode(NumberType, v), Undefined).Raised?
    ensures UnsafeDecode(v => Decode(NumberType, v), Null).Raised?
  {
  }

  /** The report for 12 checked against `string`: one error, for 12, at the root context of `string`. */
  lemma GenerateErrorExample()
    ensures GenerateError(StringType, Num(12)) == [Invalid(ValidationError(Num(12), [ContextEntry("", "string", Num(12))], None))]
    ensures GenerateError(StringType, Str("ok")) == [NoErrors]
  {
  }
}
