/**
 * The extensions the library adds on top of io-ts: decoder, encoder and codec
 * construction, the three optionality modifiers, the enumeration type, error
 * reporting and the unsafe unwrap.
 */
module Extensions {
  import opened Values
  import opened Descriptors

  /** A decoder record: a name and a validate function, exposed as given. */
  datatype Decoder = Decoder(name: string, validate: (Value, Context) -> Validation) {
    /** `decode(i)` validates `i` at the one-entry context rooted at this decoder. */
    function Decode(i: Value): Validation {
      validate(i, Root(name, i))
    }
  }

  /** An encoder record holding one encode function. */
  datatype Encoder = Encoder(encode: Encoding)

  /** `decoder(name, validate)`. */
  function MakeDecoder(name: string, validate: (Value, Context) -> Validation): (d: Decoder)
    ensures d.name == name
    ensures d.validate == validate
    ensures forall i :: d.Decode(i) == validate(i, [ContextEntry("", name, i)])
  {
    Decoder(name, validate)
  }

  /** `encoder(encode)`. */
  function MakeEncoder(encode: Encoding): (e: Encoder)
    ensures e.encode == encode
    ensures forall a :: Apply(e.encode, a) == Apply(encode, a)
  {
    Encoder(encode)
  }

  /** `codec(decoder, encoder, is)`: every part is taken over unchanged. */
  function MakeCodec(d: Decoder, e: Encoder, accepts: Value -> bool): (r: Descriptor)
    ensures r.name == d.name
    ensures forall u :: Is(r, u) == accepts(u)
    ensures forall u, c :: Validate(r, u, c) == d.validate(u, c)
    ensures forall a :: Encode(r, a) == Some(Apply(e.encode, a))
    ensures r.Custom? && r.encode == e.encode
    ensures UsesIdentity(r) == e.encode.Identity?
  {
    Custom(d.name, accepts, d.validate, e.encode)
  }

  /** A codec decodes every input exactly as the decoder it was built from. */
  lemma CodecDecodesAsDecoder(d: Decoder, e: Encoder, accepts: Value -> bool, i: Value)
    ensures Decode(MakeCodec(d, e, accepts), i) == d.Decode(i)
  {
  }

  /**
   * Whenever the caller's `is` agrees with the decoder, every value the codec
   * decodes satisfies the codec's `is`, and every failure carries an error.
   */
  lemma CodecAgreement(d: Decoder, e: Encoder, accepts: Value -> bool, i: Value)
    requires forall u, c :: Consistent(accepts, d.validate(u, c))
    ensures Decode(MakeCodec(d, e, accepts), i).Success? ==> accepts(Decode(MakeCodec(d, e, accepts), i).value)
    ensures Decode(MakeCodec(d, e, accepts), i).Failure? ==> |Decode(MakeCodec(d, e, accepts), i).errors| > 0
  {
    var t := MakeCodec(d, e, accepts);
    ValidateConsistent(t, i, Root(t.name, i));
  }

  /** The result the wrapped descriptor, always a modifier's first member, gives inside it. */
  function Delegated(t: Descriptor, u: Value, c: Context): Validation {
    Validate(t, u, MemberContext(c, 0, t, u))
  }

  /** `nullable(type, name)`: `type`, null or undefined. */
  function Nullable(t: Descriptor, name: Option<string>): (r: Descriptor)
    ensures name.None? ==> r.name == t.name + " | null | undefined"
    ensures name.Some? ==> r.name == name.value
    ensures forall u :: Is(r, u) <==> u == Null || u == Undefined || Is(t, u)
  {
    var r := Union(if name.Some? then name.value else t.name + " | null | undefined", [t, NullType, UndefinedType]);
    assert forall u :: Is(t, u) ==> Is(r.members[0], u);
    assert forall u :: u == Null ==> Is(r.members[1], u);
    assert forall u :: u == Undefined ==> Is(r.members[2], u);
    r
  }

  /** `optional(type, name)`: `type` or undefined. */
  function Optional(t: Descriptor, name: Option<string>): (r: Descriptor)
    ensures name.None? ==> r.name == t.name + " | undefined"
    ensures name.Some? ==> r.name == name.value
    ensures forall u :: Is(r, u) <==> u == Undefined || Is(t, u)
  {
    var r := Union(if name.Some? then name.value else t.name + " | undefined", [t, UndefinedType]);
    assert forall u :: Is(t, u) ==> Is(r.members[0], u);
    assert forall u :: u == Undefined ==> Is(r.members[1], u);
    r
  }

  /** `nullUnion(type, name)`: `type` or null. */
  function NullUnion(t: Descriptor, name: Option<string>): (r: Descriptor)
    ensures name.None? ==> r.name == t.name + " | null"
    ensures name.Some? ==> r.name == name.value
    ensures forall u :: Is(r, u) <==> u == Null || Is(t, u)
  {
    var r := Union(if name.Some? then name.value else t.name + " | null", [t, NullType]);
    assert forall u :: Is(t, u) ==> Is(r.members[0], u);
    assert forall u :: u == Null ==> Is(r.members[1], u);
    r
  }

  /**
   * `nullable(type)` decodes null and undefined whatever `type` does; any other
   * value it decodes exactly when `type` does, and then to `type`'s result.
   */
  lemma {:induction false} NullableValidate(t: Descriptor, name: Option<string>, u: Value, c: Context)
    ensures u == Null || u == Undefined ==> Validate(Nullable(t, name), u, c).Success?
    ensures Delegated(t, u, c).Success? ==> Validate(Nullable(t, name), u, c) == Delegated(t, u, c)
    ensures u != Null && u != Undefined ==> (Validate(Nullable(t, name), u, c).Success? <==> Delegated(t, u, c).Success?)
    ensures (u == Null || u == Undefined) && Delegated(t, u, c).Failure? ==> Validate(Nullable(t, name), u, c) == Success(u)
  {
    var r := Nullable(t, name);
    assert MemberResult(r, 0, u, c) == Delegated(t, u, c);
    UnionStep(r, 0, u, c, []);
    if MemberResult(r, 0, u, c).Failure? {
      var acc1 := [] + MemberResult(r, 0, u, c).errors;
      UnionStep(r, 1, u, c, acc1);
      if MemberResult(r, 1, u, c).Failure? {
        var acc2 := acc1 + MemberResult(r, 1, u, c).errors;
        UnionStep(r, 2, u, c, acc2);
        if u != Undefined {
          assert r.members[2] == UndefinedType;
          assert MemberResult(r, 2, u, c).Failure?;
          assert UnionFrom(r, 3, u, c, acc2 + MemberResult(r, 2, u, c).errors).Failure?;
        }
      }
    }
  }

  /**
   * `optional(type)` decodes undefined whatever `type` does; any other value,
   * null included, it decodes exactly when `type` does, and then to `type`'s result.
   */
  lemma {:induction false} OptionalValidate(t: Descriptor, name: Option<string>, u: Value, c: Context)
    ensures u == Undefined ==> Validate(Optional(t, name), u, c).Success?
    ensures Delegated(t, u, c).Success? ==> Validate(Optional(t, name), u, c) == Delegated(t, u, c)
    ensures u != Undefined ==> (Validate(Optional(t, name), u, c).Success? <==> Delegated(t, u, c).Success?)
    ensures u == Undefined && Delegated(t, u, c).Failure? ==> Validate(Optional(t, name), u, c) == Success(u)
  {
    var r := Optional(t, name);
    assert MemberResult(r, 0, u, c) == Delegated(t, u, c);
    UnionStep(r, 0, u, c, []);
    if MemberResult(r, 0, u, c).Failure? {
      UnionStep(r, 1, u, c, MemberResult(r, 0, u, c).errors);
    }
  }

  /**
   * `nullUnion(type)` decodes null whatever `type` does; any other value,
   * undefined included, it decodes exactly when `type` does, and then to `type`'s result.
   */
  lemma {:induction false} NullUnionValidate(t: Descriptor, name: Option<string>, u: Value, c: Context)
    ensures u == Null ==> Validate(NullUnion(t, name), u, c).Success?
    ensures Delegated(t, u, c).Success? ==> Validate(NullUnion(t, name), u, c) == Delegated(t, u, c)
    ensures u != Null ==> (Validate(NullUnion(t, name), u, c).Success? <==> Delegated(t, u, c).Success?)
    ensures u == Null && Delegated(t, u, c).Failure? ==> Validate(NullUnion(t, name), u, c) == Success(u)
  {
    var r := NullUnion(t, name);
    assert MemberResult(r, 0, u, c) == Delegated(t, u, c);
    UnionStep(r, 0, u, c, []);
    if MemberResult(r, 0, u, c).Failure? {
      UnionStep(r, 1, u, c, MemberResult(r, 0, u, c).errors);
    }
  }

  /**
   * `nullable(type)` encodes a value of `type` as `type` does, and null or
   * undefined that `type` does not accept as themselves. Over a `type` whose
   * encode is `identity` it encodes every value unchanged, members or not.
   */
  lemma NullableEncode(t: Descriptor, name: Option<string>, a: Value)
    ensures Is(t, a) ==> Encode(Nullable(t, name), a) == Encode(t, a)
    ensures UsesIdentity(t) ==> Encode(Nullable(t, name), a) == Some(a)
    ensures (a == Null || a == Undefined) && !Is(t, a) ==> Encode(Nullable(t, name), a) == Some(a)
  {
    var r := Nullable(t, name);
    if UsesIdentity(t) {
      assert UsesIdentity(r);
    }
    if Is(t, a) {
      UnionEncodeFirst(r, 0, a);
    } else if a == Null {
      UnionEncodeFirst(r, 1, a);
    } else if a == Undefined {
      UnionEncodeFirst(r, 2, a);
    }
  }

  /**
   * `optional(type)` encodes a value of `type` as `type` does, and undefined
   * that `type` does not accept as itself; over an identity `type`, every value unchanged.
   */
  lemma OptionalEncode(t: Descriptor, name: Option<string>, a: Value)
    ensures Is(t, a) ==> Encode(Optional(t, name), a) == Encode(t, a)
    ensures UsesIdentity(t) ==> Encode(Optional(t, name), a) == Some(a)
    ensures a == Undefined && !Is(t, a) ==> Encode(Optional(t, name), a) == Some(a)
  {
    var r := Optional(t, name);
    if UsesIdentity(t) {
      assert UsesIdentity(r);
    }
    if Is(t, a) {
      UnionEncodeFirst(r, 0, a);
    } else if a == Undefined {
      UnionEncodeFirst(r, 1, a);
    }
  }

  /**
   * `nullUnion(type)` encodes a value of `type` as `type` does, and null that
   * `type` does not accept as itself; over an identity `type`, every value unchanged.
   */
  lemma NullUnionEncode(t: Descriptor, name: Option<string>, a: Value)
    ensures Is(t, a) ==> Encode(NullUnion(t, name), a) == Encode(t, a)
    ensures UsesIdentity(t) ==> Encode(NullUnion(t, name), a) == Some(a)
    ensures a == Null && !Is(t, a) ==> Encode(NullUnion(t, name), a) == Some(a)
  {
    var r := NullUnion(t, name);
    if UsesIdentity(t) {
      assert UsesIdentity(r);
    }
    if Is(t, a) {
      UnionEncodeFirst(r, 0, a);
    } else if a == Null {
      UnionEncodeFirst(r, 1, a);
    }
  }

  /** A modifier over a well-formed descriptor is well formed again. */
  lemma ModifiersWellFormed(t: Descriptor, name: Option<string>)
    requires WellFormed(t)
    ensures WellFormed(Nullable(t, name)) && WellFormed(Optional(t, name)) && WellFormed(NullUnion(t, name))
  {
  }

  /** `createEnumType(e, name)`, equivalently `new EnumType(e, name)`. */
  function CreateEnumType(e: map<string, Value>, name: Option<string>): (r: Descriptor)
    ensures name.None? ==> r.name == "enum"
    ensures name.Some? ==> r.name == name.value
    ensures forall u :: Is(r, u) <==> exists k :: k in e && e[k] == u
  {
    Enum(if name.Some? then name.value else "enum", e)
  }

  /**
   * An enumeration decodes a member to itself, rejects any other value with
   * exactly one error at the current context, and encodes by identity.
   */
  lemma EnumValidate(e: map<string, Value>, name: Option<string>, u: Value, c: Context)
    ensures (exists k :: k in e && e[k] == u) ==> Validate(CreateEnumType(e, name), u, c) == Success(u)
    ensures (forall k :: k in e ==> e[k] != u) ==> Validate(CreateEnumType(e, name), u, c) == Failure([ValidationError(u, c, None)])
    ensures Encode(CreateEnumType(e, name), u) == Some(u)
  {
  }

  /** Only the values of the enum object matter: objects with the same values give the same type. */
  lemma EnumKeysIrrelevant(e1: map<string, Value>, e2: map<string, Value>, name: Option<string>, u: Value, c: Context)
    requires e1.Values == e2.Values
    ensures Is(CreateEnumType(e1, name), u) == Is(CreateEnumType(e2, name), u)
    ensures Validate(CreateEnumType(e1, name), u, c) == Validate(CreateEnumType(e2, name), u, c)
  {
  }

  /** An empty enum object accepts nothing. */
  lemma EmptyEnumRejects(name: Option<string>, u: Value, c: Context)
    ensures !Is(CreateEnumType(map[], name), u)
    ensures Validate(CreateEnumType(map[], name), u, c).Failure?
  {
  }

  /** One line of a validation report; the wording of the lines is not modelled. */
  datatype Report = NoErrors | Invalid(error: ValidationError)

  /** The report of a validation result: one line per error, or a single "no errors" line. */
  function ReportOf(r: Validation): (rep: seq<Report>)
    ensures r.Success? ==> rep == [NoErrors]
    ensures r.Failure? ==> |rep| == |r.errors| && forall i | 0 <= i < |rep| :: rep[i] == Invalid(r.errors[i])
  {
    match r
    case Success(_) => [NoErrors]
    case Failure(es) => seq(|es|, i requires 0 <= i < |es| => Invalid(es[i]))
  }

  /** `generateError(decoder, value)`. */
  function GenerateError(t: Descriptor, value: Value): (rep: seq<Report>)
    ensures rep == [NoErrors] <==> Decode(t, value).Success?
    ensures Decode(t, value).Failure?
        ==> |rep| == |Decode(t, value).errors| && forall i | 0 <= i < |rep| :: rep[i] == Invalid(Decode(t, value).errors[i])
  {
    var rep := ReportOf(Decode(t, value));
    assert Decode(t, value).Failure? && |rep| > 0 ==> rep[0] != NoErrors;
    rep
  }

  /** For a well-formed descriptor the report is never empty: valid input gets the "no errors" line. */
  lemma GenerateErrorNonEmpty(t: Descriptor, value: Value)
    requires WellFormed(t)
    ensures |GenerateError(t, value)| > 0
    ensures Decode(t, value).Failure? ==> NoErrors !in GenerateError(t, value)
  {
    ValidateConsistent(t, value, Root(t.name, value));
  }

  /** What `unsafeDecode(decoder)(value)` does: return the decoded value or raise the failure report. */
  datatype Unwrapped = Returned(value: Value) | Raised(report: seq<Report>)

  /** `unsafeDecode(decoder)(value)`, for the decoder's decode function `decode`. */
  function UnsafeDecode(decode: Value -> Validation, value: Value): (r: Unwrapped)
    ensures r.Returned? <==> decode(value).Success?
    ensures r.Returned? ==> r.value == decode(value).value
    ensures r.Raised? ==> r.report == ReportOf(decode(value))
  {
    match decode(value)
    case Success(v) => Returned(v)
    case Failure(es) => Raised(ReportOf(Failure(es)))
  }

  /**
   * Unwrapping a descriptor's decode raises exactly the report `generateError`
   * gives, which for a well-formed descriptor names at least one error.
   */
  lemma UnsafeDecodeRaisesReport(t: Descriptor, value: Value)
    requires WellFormed(t)
    ensures UnsafeDecode(v => Decode(t, v), value).Raised?
        ==> var rep := UnsafeDecode(v => Decode(t, v), value).report;
            rep == GenerateError(t, value) && |rep| > 0 && NoErrors !in rep
  {
    GenerateErrorNonEmpty(t, value);
  }
}
