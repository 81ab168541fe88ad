/** The comparison operators of argument rules, `enum operator` (bpf.h:24-33). */
module Operators {
  import opened Wrappers

  const MIN_OPERATOR: int := 128

  datatype Operator = EQ | NE | LT | LE | GT | GE

  /** The enumerator's value: `EQ = MIN_OPERATOR`, each next one a step higher. */
  function OperatorValue(op: Operator): (v: int)
    ensures MIN_OPERATOR <= v <= MIN_OPERATOR + 5
  {
    match op
    case EQ => MIN_OPERATOR
    case NE => MIN_OPERATOR + 1
    case LT => MIN_OPERATOR + 2
    case LE => MIN_OPERATOR + 3
    case GT => MIN_OPERATOR + 4
    case GE => MIN_OPERATOR + 5
  }

  /** The operator an integer denotes, if any. */
  function OperatorOf(v: int): (r: Option<Operator>)
    ensures r.Some? <==> MIN_OPERATOR <= v <= MIN_OPERATOR + 5
    ensures r.Some? ==> OperatorValue(r.value) == v
  {
    if v == MIN_OPERATOR then Some(EQ)
    else if v == MIN_OPERATOR + 1 then Some(NE)
    else if v == MIN_OPERATOR + 2 then Some(LT)
    else if v == MIN_OPERATOR + 3 then Some(LE)
    else if v == MIN_OPERATOR + 4 then Some(GT)
    else if v == MIN_OPERATOR + 5 then Some(GE)
    else None
  }

  /** Decoding an operator's value gives the operator back. */
  lemma OperatorRoundTrip(op: Operator)
    ensures OperatorOf(OperatorValue(op)) == Some(op)
  {
  }

  /** The six values are distinct: 128, 129, ..., 133 in declaration order. */
  lemma OperatorValuesConsecutive(a: Operator, b: Operator)
    ensures OperatorValue(a) == OperatorValue(b) <==> a == b
    ensures OperatorValue(EQ) == 128 && OperatorValue(NE) == 129 && OperatorValue(LT) == 130
    ensures OperatorValue(LE) == 131 && OperatorValue(GT) == 132 && OperatorValue(GE) == 133
  {
  }
}
