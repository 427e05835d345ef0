/**
 * Type descriptors as a closed set of variants, with the behaviour the
 * extensions rely on from io-ts: validation, the membership test, encoding,
 * and the union combinator that the optionality modifiers are built from.
 */
module Descriptors {
  import opened Values

  /**
   * An encode function. io-ts tells its own `identity` apart from every other
   * function (by reference): a union whose members all use it encodes by
   * identity without looking at its members.
   */
  datatype Encoding = Identity | Via(f: Value -> Value)

  function Apply(e: Encoding, a: Value): Value {
    match e
    case Identity => a
    case Via(f) => f(a)
  }

  /**
   * A runtime type: a primitive leaf (string, number, null, undefined), a codec
   * assembled from caller-supplied parts, a union of member descriptors, or an
   * enumeration over the values of an enum object.
   */
  datatype Descriptor =
    | Prim(name: string, accepts: Value -> bool)
    | Custom(name: string, accepts: Value -> bool, validate: (Value, Context) -> Validation, encode: Encoding)
    | Union(name: string, members: seq<Descriptor>)
    | Enum(name: string, enumObject: map<string, Value>)

  const StringType: Descriptor := Prim("string", (u: Value) => u.Str?)
  const NumberType: Descriptor := Prim("number", (u: Value) => u.Num?)
  const NullType: Descriptor := Prim("null", (u: Value) => u.Null?)
  const UndefinedType: Descriptor := Prim("undefined", (u: Value) => u.Undefined?)

  /** The membership predicate `is`. */
  function Is(t: Descriptor, u: Value): bool
    decreases t
  {
    match t
    case Prim(_, accepts) => accepts(u)
    case Custom(_, accepts, _, _) => accepts(u)
    case Union(_, ms) => exists i | 0 <= i < |ms| :: Is(ms[i], u)
    case Enum(_, e) => u in e.Values
  }

  /** The context a union hands to its `k`-th member. */
  function MemberContext(c: Context, k: nat, m: Descriptor, u: Value): Context {
    c + [ContextEntry(IndexKey(k), m.name, u)]
  }

  /** `validate(u, c)`: check `u` at context `c`. */
  function Validate(t: Descriptor, u: Value, c: Context): Validation
    decreases t, 1
  {
    match t
    case Prim(_, accepts) => if accepts(u) then Success(u) else Rejected(u, c)
    case Custom(_, _, validate, _) => validate(u, c)
    case Union(_, _) => UnionFrom(t, 0, u, c, [])
    case Enum(_, _) => if Is(t, u) then Success(u) else Rejected(u, c)
  }

  /**
   * A union tries its members in order from the `k`-th on: the first success is
   * the result; the errors of the members that failed are collected in `acc`.
   */
  function UnionFrom(t: Descriptor, k: nat, u: Value, c: Context, acc: seq<ValidationError>): Validation
    requires t.Union? && k <= |t.members|
    decreases t, 0, |t.members| - k
  {
    if k == |t.members| then Failure(acc)
    else
      var m := t.members[k];
      var r := Validate(m, u, MemberContext(c, k, m, u));
      if r.Success? then Success(r.value) else UnionFrom(t, k + 1, u, c, acc + r.errors)
  }

  /** `decode(i)`: validate at the root context this descriptor seeds. */
  function Decode(t: Descriptor, i: Value): Validation {
    Validate(t, i, Root(t.name, i))
  }

  /** Whether the encode function is io-ts's `identity`. */
  predicate UsesIdentity(t: Descriptor)
    decreases t
  {
    match t
    case Prim(_, _) => true
    case Custom(_, _, _, encode) => encode.Identity?
    case Union(_, ms) => forall i | 0 <= i < |ms| :: UsesIdentity(ms[i])
    case Enum(_, _) => true
  }

  /** `encode(a)`; `None` stands for the exception a union raises when no member accepts `a`. */
  function Encode(t: Descriptor, a: Value): Option<Value>
    decreases t, 1
  {
    match t
    case Prim(_, _) => Some(a)
    case Custom(_, _, _, encode) => Some(Apply(encode, a))
    case Union(_, _) => if UsesIdentity(t) then Some(a) else EncodeFrom(t, 0, a)
    case Enum(_, _) => Some(a)
  }

  /** A union encodes with the first member, from the `k`-th on, whose `is` accepts `a`. */
  function EncodeFrom(t: Descriptor, k: nat, a: Value): Option<Value>
    requires t.Union? && k <= |t.members|
    decreases t, 0, |t.members| - k
  {
    if k == |t.members| then None
    else if Is(t.members[k], a) then Encode(t.members[k], a)
    else EncodeFrom(t, k + 1, a)
  }

  /** A result that keeps the descriptor's promises: successes are members, failures say why. */
  ghost predicate Consistent(accepts: Value -> bool, r: Validation) {
    && (r.Success? ==> accepts(r.value))
    && (r.Failure? ==> |r.errors| > 0)
  }

  /**
   * What callers must guarantee of what they compose: a codec's `is` agrees
   * with its validate function, and every union has a member.
   */
  ghost predicate WellFormed(t: Descriptor)
    decreases t
  {
    match t
    case Prim(_, _) => true
    case Custom(_, accepts, validate, _) => forall u, c :: Consistent(accepts, validate(u, c))
    case Union(_, ms) => |ms| > 0 && forall i | 0 <= i < |ms| :: WellFormed(ms[i])
    case Enum(_, _) => true
  }

  /** The `j`-th member's own result inside a union. */
  ghost function MemberResult(t: Descriptor, j: nat, u: Value, c: Context): Validation
    requires t.Union? && j < |t.members|
  {
    Validate(t.members[j], u, MemberContext(c, j, t.members[j], u))
  }

  /** Member `j` is the first member from the `k`-th on that accepts `u`. */
  ghost predicate FirstSuccess(t: Descriptor, k: nat, j: nat, u: Value, c: Context)
    requires t.Union? && k <= j < |t.members|
  {
    && MemberResult(t, j, u, c).Success?
    && forall i | k <= i < j :: MemberResult(t, i, u, c).Failure?
  }

  lemma {:induction false} UnionFromFirstSuccess(t: Descriptor, k: nat, u: Value, c: Context, acc: seq<ValidationError>)
    requires t.Union? && k <= |t.members|
    ensures UnionFrom(t, k, u, c, acc).Success?
        <==> exists j | k <= j < |t.members| :: MemberResult(t, j, u, c).Success?
    ensures UnionFrom(t, k, u, c, acc).Success?
        ==> exists j | k <= j < |t.members| :: FirstSuccess(t, k, j, u, c) && UnionFrom(t, k, u, c, acc) == MemberResult(t, j, u, c)
    decreases |t.members| - k
  {
    if k < |t.members| {
      var r := MemberResult(t, k, u, c);
      if r.Success? {
        assert FirstSuccess(t, k, k, u, c);
      } else {
        UnionFromFirstSuccess(t, k + 1, u, c, acc + r.errors);
        if UnionFrom(t, k, u, c, acc).Success? {
          var j :| k + 1 <= j < |t.members| && FirstSuccess(t, k + 1, j, u, c)
                   && UnionFrom(t, k + 1, u, c, acc + r.errors) == MemberResult(t, j, u, c);
          assert FirstSuccess(t, k, j, u, c);
        }
      }
    }
  }

  /**
   * A union succeeds exactly when some member succeeds at the context the
   * union gives it, and then with the result of the first member that does.
   */
  lemma UnionSemantics(t: Descriptor, u: Value, c: Context)
    requires t.Union?
    ensures Validate(t, u, c).Success?
        <==> exists j | 0 <= j < |t.members| :: MemberResult(t, j, u, c).Success?
    ensures Validate(t, u, c).Success?
        ==> exists j | 0 <= j < |t.members| :: FirstSuccess(t, 0, j, u, c) && Validate(t, u, c) == MemberResult(t, j, u, c)
  {
    UnionFromFirstSuccess(t, 0, u, c, []);
  }

  /**
   * Every well-formed descriptor keeps the validation invariant: a successful
   * value satisfies the descriptor's `is`, and a failure carries at least one error.
   */
  lemma {:induction false} ValidateConsistent(t: Descriptor, u: Value, c: Context)
    requires WellFormed(t)
    ensures Consistent(v => Is(t, v), Validate(t, u, c))
    decreases t, 1
  {
    match t
    case Prim(_, _) =>
    case Custom(_, _, _, _) =>
    case Enum(_, _) =>
    case Union(_, ms) =>
      UnionFromConsistent(t, 0, u, c, []);
  }

  lemma {:induction false} UnionFromConsistent(t: Descriptor, k: nat, u: Value, c: Context, acc: seq<ValidationError>)
    requires t.Union? && WellFormed(t) && k <= |t.members|
    requires k == |t.members| ==> |acc| > 0
    ensures Consistent(v => Is(t, v), UnionFrom(t, k, u, c, acc))
    decreases t, 0, |t.members| - k
  {
    if k < |t.members| {
      var m := t.members[k];
      ValidateConsistent(m, u, MemberContext(c, k, m, u));
      var r := Validate(m, u, MemberContext(c, k, m, u));
      if r.Failure? {
        UnionFromConsistent(t, k + 1, u, c, acc + r.errors);
      }
    }
  }

  /** One step of a union: the `k`-th member's success ends it, its failure moves on to the next member. */
  lemma UnionStep(t: Descriptor, k: nat, u: Value, c: Context, acc: seq<ValidationError>)
    requires t.Union? && k < |t.members|
    ensures MemberResult(t, k, u, c).Success? ==> UnionFrom(t, k, u, c, acc) == MemberResult(t, k, u, c)
    ensures MemberResult(t, k, u, c).Failure?
        ==> UnionFrom(t, k, u, c, acc) == UnionFrom(t, k + 1, u, c, acc + MemberResult(t, k, u, c).errors)
  {
  }

  /** A descriptor whose encode is io-ts's `identity` encodes every value as itself. */
  lemma IdentityEncode(t: Descriptor, a: Value)
    requires UsesIdentity(t)
    ensures Encode(t, a) == Some(a)
  {
  }

  /** Encoding a member of the type never raises. */
  lemma {:induction false} EncodeMember(t: Descriptor, a: Value)
    requires Is(t, a)
    ensures Encode(t, a).Some?
    decreases t, 1
  {
    if t.Union? && !UsesIdentity(t) {
      var j :| 0 <= j < |t.members| && Is(t.members[j], a);
      EncodeFromMember(t, 0, j, a);
    }
  }

  lemma {:induction false} EncodeFromMember(t: Descriptor, k: nat, j: nat, a: Value)
    requires t.Union? && k <= j < |t.members| && Is(t.members[j], a)
    ensures EncodeFrom(t, k, a).Some?
    decreases t, 0, |t.members| - k
  {
    if Is(t.members[k], a) {
      EncodeMember(t.members[k], a);
    } else {
      EncodeFromMember(t, k + 1, j, a);
    }
  }

  /**
   * A union encodes a value as the first member whose `is` accepts it does:
   * through that member's encode, or, when every member uses `identity`, by
   * identity, which is what that member does too.
   */
  lemma {:induction false} UnionEncodeFirst(t: Descriptor, j: nat, a: Value)
    requires t.Union? && j < |t.members| && Is(t.members[j], a)
    requires forall i | 0 <= i < j :: !Is(t.members[i], a)
    ensures Encode(t, a) == Encode(t.members[j], a)
  {
    if UsesIdentity(t) {
      assert UsesIdentity(t.members[j]);
      IdentityEncode(t.members[j], a);
    } else {
      EncodeFromFirst(t, 0, j, a);
    }
  }

  lemma {:induction false} EncodeFromFirst(t: Descriptor, k: nat, j: nat, a: Value)
    requires t.Union? && k <= j < |t.members| && Is(t.members[j], a)
    requires forall i | k <= i < j :: !Is(t.members[i], a)
    ensures EncodeFrom(t, k, a) == Encode(t.members[j], a)
    decreases j - k
  {
    if k < j {
      EncodeFromFirst(t, k + 1, j, a);
    }
  }

  /**
   * A primitive accepts a value exactly when its predicate does, returning it
   * unchanged, and otherwise fails with one error rooted at its own name.
   */
  lemma PrimitiveDecode(name: string, accepts: Value -> bool, i: Value)
    ensures accepts(i) ==> Decode(Prim(name, accepts), i) == Success(i)
    ensures !accepts(i) ==> Decode(Prim(name, accepts), i) == Failure([ValidationError(i, [ContextEntry("", name, i)], None)])
  {
  }
}
