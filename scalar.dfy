/**
 * The JSON form of a scalar (pkg/tfutil/scalar.go). After encoding/json has
 * filled in the envelope, UnmarshalJSON checks the type tag, the Go type
 * name and which value fields are present for the element type; MarshalJSON
 * fills in exactly the fields that check demands.
 */
module Scalars {
  import opened Wrappers
  import Numbers

  const TypeScalar: string := "scalar"

  /** The branch the element type T takes in the type switches. */
  datatype Kind = Complex128Kind | Complex64Kind | OtherKind

  /** A scalar's value: a complex128, a complex64, or a value of any other element type V. */
  datatype Element<V> =
    | C128(c128: Numbers.Complex128)
    | C64(c64: Numbers.Complex64)
    | Plain(v: V)

  function KindOf<V>(e: Element<V>): Kind
  {
    match e
    case C128(_) => Complex128Kind
    case C64(_) => Complex64Kind
    case Plain(_) => OtherKind
  }

  /** scalarSerializer once decoded: every value field is a pointer that may be nil. */
  datatype Envelope<V> = Envelope(
    typ: string,
    tfDataType: string,
    goDataType: string,
    value: Option<V>,
    real64: Option<Numbers.Float64>,
    imag64: Option<Numbers.Float64>,
    real32: Option<Numbers.Float32>,
    imag32: Option<Numbers.Float32>)

  datatype ScalarError =
    | ParseError(message: string)
    | NotScalar
    | GoTypeMismatch(expected: string, got: string)
    | MissingParts
    | StrayFields
    | MissingValue

  /** Exactly the value fields of the kind are present, and no others. */
  predicate FieldsFor<V>(kind: Kind, env: Envelope<V>)
  {
    match kind
    case Complex128Kind =>
      env.real64.Some? && env.imag64.Some? && env.real32.None? && env.imag32.None? && env.value.None?
    case Complex64Kind =>
      env.real32.Some? && env.imag32.Some? && env.real64.None? && env.imag64.None? && env.value.None?
    case OtherKind =>
      env.value.Some? && env.real64.None? && env.imag64.None? && env.real32.None? && env.imag32.None?
  }

  /**
   * The checks of UnmarshalJSON, in order, and the value it then stores. For
   * the complex kinds both parts of the right width must be present and
   * every other value field absent; for any other kind only value is looked at.
   */
  function Decode<V>(kind: Kind, goName: string, env: Envelope<V>): (r: Result<Element<V>, ScalarError>)
    ensures env.typ != TypeScalar ==> r == Failure(NotScalar)
    ensures env.typ == TypeScalar && env.goDataType != goName ==> r == Failure(GoTypeMismatch(goName, env.goDataType))
    ensures r.Success? ==> KindOf(r.value) == kind
    ensures kind == OtherKind ==> (r.Success? <==> env.typ == TypeScalar && env.goDataType == goName && env.value.Some?)
    ensures kind != OtherKind ==> (r.Success? <==> env.typ == TypeScalar && env.goDataType == goName && FieldsFor(kind, env))
    ensures r.Success? && kind == Complex128Kind ==> r.value == C128(Numbers.Complex(env.real64.value, env.imag64.value))
    ensures r.Success? && kind == Complex64Kind ==> r.value == C64(Numbers.Complex(env.real32.value, env.imag32.value))
    ensures r.Success? && kind == OtherKind ==> r.value == Plain(env.value.value)
  {
    if env.typ != TypeScalar then Failure(NotScalar)
    else if env.goDataType != goName then Failure(GoTypeMismatch(goName, env.goDataType))
    else
      match kind
      case Complex128Kind =>
        if env.real64.None? || env.imag64.None? then Failure(MissingParts)
        else if env.real32.Some? || env.imag32.Some? || env.value.Some? then Failure(StrayFields)
        else Success(C128(Numbers.Complex(env.real64.value, env.imag64.value)))
      case Complex64Kind =>
        if env.real32.None? || env.imag32.None? then Failure(MissingParts)
        else if env.real64.Some? || env.imag64.Some? || env.value.Some? then Failure(StrayFields)
        else Success(C64(Numbers.Complex(env.real32.value, env.imag32.value)))
      case OtherKind =>
        if env.value.None? then Failure(MissingValue)
        else Success(Plain(env.value.value))
  }

  /**
   * The field selection of MarshalJSON: type "scalar", the two type names,
   * and exactly the value fields UnmarshalJSON demands for the value's kind.
   */
  function Encode<V>(goName: string, tfName: string, e: Element<V>): (env: Envelope<V>)
    ensures env.typ == TypeScalar && env.goDataType == goName && env.tfDataType == tfName
    ensures FieldsFor(KindOf(e), env)
  {
    match e
    case C128(c) => Envelope(TypeScalar, tfName, goName, None, Some(c.re), Some(c.im), None, None)
    case C64(c) => Envelope(TypeScalar, tfName, goName, None, None, None, Some(c.re), Some(c.im))
    case Plain(v) => Envelope(TypeScalar, tfName, goName, Some(v), None, None, None, None)
  }

  /** What MarshalJSON writes, UnmarshalJSON reads back unchanged. */
  lemma DecodeEncode<V>(goName: string, tfName: string, e: Element<V>)
    ensures Decode(KindOf(e), goName, Encode(goName, tfName, e)) == Success(e)
  {
  }

  /** An envelope with exactly its kind's fields that UnmarshalJSON accepts is what MarshalJSON writes for the value read. */
  lemma EncodeDecode<V>(kind: Kind, goName: string, env: Envelope<V>)
    requires FieldsFor(kind, env)
    requires Decode(kind, goName, env).Success?
    ensures Encode(goName, env.tfDataType, Decode(kind, goName, env).value) == env
  {
  }

  /**
   * For an element type other than the complex ones only value is looked at:
   * an envelope that also carries complex parts is accepted, and what
   * MarshalJSON writes for the value read drops those parts.
   */
  lemma PlainIgnoresParts<V>(goName: string, env: Envelope<V>)
    requires env.typ == TypeScalar && env.goDataType == goName && env.value.Some?
    requires env.real64.Some? || env.imag64.Some? || env.real32.Some? || env.imag32.Some?
    ensures Decode(OtherKind, goName, env) == Success(Plain(env.value.value))
    ensures Encode(goName, env.tfDataType, Decode(OtherKind, goName, env).value) != env
  {
  }

  /** A scalar: one value of the element type. */
  class Scalar<V> {
    var value: Element<V>

    /** NewScalar: NewScalar(v).Value() is v. */
    constructor NewScalar(v: Element<V>)
      ensures Value() == v
    {
      value := v;
    }

    function Value(): Element<V>
      reads this
    {
      value
    }

    /** Clone: a fresh scalar holding the same value. */
    method Clone() returns (s: Scalar<V>)
      ensures fresh(s) && s.Value() == Value()
    {
      s := new Scalar.NewScalar(value);
    }

    /**
     * UnmarshalJSON: the decoded envelope (or the decoder's error) is
     * checked as Decode says; the value is replaced only when every check
     * passes.
     */
    method UnmarshalJSON(kind: Kind, goName: string, decoded: Result<Envelope<V>, string>)
      returns (err: Option<ScalarError>)
      modifies this
      ensures decoded.Failure? ==> err == Some(ParseError(decoded.error)) && value == old(value)
      ensures decoded.Success? && Decode(kind, goName, decoded.value).Failure? ==>
        err == Some(Decode(kind, goName, decoded.value).error) && value == old(value)
      ensures decoded.Success? && Decode(kind, goName, decoded.value).Success? ==>
        err == None && value == Decode(kind, goName, decoded.value).value
    {
      if decoded.Failure? {
        return Some(ParseError(decoded.error));
      }
      var s := decoded.value;
      if s.typ != TypeScalar {
        return Some(NotScalar);
      }
      if s.goDataType != goName {
        return Some(GoTypeMismatch(goName, s.goDataType));
      }
      match kind {
        case Complex128Kind =>
          if s.real64.None? || s.imag64.None? {
            return Some(MissingParts);
          }
          if s.real32.Some? || s.imag32.Some? || s.value.Some? {
            return Some(StrayFields);
          }
          value := C128(Numbers.Complex(s.real64.value, s.imag64.value));
        case Complex64Kind =>
          if s.real32.None? || s.imag32.None? {
            return Some(MissingParts);
          }
          if s.real64.Some? || s.imag64.Some? || s.value.Some? {
            return Some(StrayFields);
          }
          value := C64(Numbers.Complex(s.real32.value, s.imag32.value));
        case OtherKind =>
          if s.value.None? {
            return Some(MissingValue);
          }
          value := Plain(s.value.value);
      }
      return None;
    }
  }
}
