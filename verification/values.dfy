/** The tagged value of this interpreter stage: a kind tag and one numeric
    payload, as the source's `Value` struct stores it. Booleans live in
    the payload as 1 or 0; nil carries 0. The object reference slot of the
    struct is never set in this stage and is not modelled. */
module Values {

  /** The value kinds, in the source's declaration order: the first one,
      ValBool, is the kind a zero-initialised struct carries. */
  datatype ValueType = ValBool | ValNil | ValNumber

  /** A value: the kind tag and the numeric payload. The payload is a double
      in the source; it is kept abstract here as a real number. */
  datatype Value = Value(kind: ValueType, payload: real)

  predicate IsBool(v: Value) { v.kind == ValBool }
  predicate IsNil(v: Value) { v.kind == ValNil }
  predicate IsNumber(v: Value) { v.kind == ValNumber }

  /** A boolean reads as true exactly when its payload is non-zero. */
  function AsBool(v: Value): bool { v.payload != 0.0 }

  function AsNumber(v: Value): real { v.payload }

  /** Wraps a boolean; reading it back gives the same boolean. */
  function BoolVal(b: bool): (v: Value)
    ensures IsBool(v) && !IsNil(v) && !IsNumber(v)
    ensures AsBool(v) == b
  {
    Value(ValBool, if b then 1.0 else 0.0)
  }

  /** The nil value. */
  const NilVal: Value := Value(ValNil, 0.0)

  /** Wraps a number; reading it back gives the same number. */
  function NumberVal(d: real): (v: Value)
    ensures IsNumber(v) && !IsBool(v) && !IsNil(v)
    ensures AsNumber(v) == d
  {
    Value(ValNumber, d)
  }

  /** Every value has exactly one kind. */
  lemma ExactlyOneKind(v: Value)
    ensures IsBool(v) || IsNil(v) || IsNumber(v)
    ensures !(IsBool(v) && IsNil(v)) && !(IsBool(v) && IsNumber(v)) && !(IsNil(v) && IsNumber(v))
  {
  }

  /** The printed form of a value. The decimal formatting of doubles belongs to
      the host runtime, so it is the parameter formatNumber. */
  function ToString(v: Value, formatNumber: real -> string): (s: string)
    ensures IsNil(v) ==> s == "nil"
    ensures IsBool(v) ==> (s == "true" <==> AsBool(v)) && (s == "false" <==> !AsBool(v))
    ensures IsNumber(v) ==> s == formatNumber(AsNumber(v))
  {
    match v.kind
    case ValNil => "nil"
    case ValBool => if v.payload != 0.0 then "true" else "false"
    case ValNumber => formatNumber(v.payload)
  }

  /** The constructors and the printer agree: nil is of kind nil and prints
      as "nil", and a wrapped boolean prints as its own spelling. */
  lemma ToStringOfConstructors(b: bool, formatNumber: real -> string)
    ensures IsNil(NilVal) && !IsBool(NilVal) && !IsNumber(NilVal)
    ensures ToString(NilVal, formatNumber) == "nil"
    ensures ToString(BoolVal(b), formatNumber) == (if b then "true" else "false")
  {
  }
}
