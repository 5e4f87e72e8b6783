/** Small types shared by every component of the control-plane model. */
module Common {

  datatype Option<+T> = None | Some(value: T)

  /** Instants and time spans, in microseconds (the resolution of the program's timestamps). */
  type Time = int

  const SECOND: int := 1_000_000

  function Min(a: int, b: int): int { if a < b then a else b }

  function Max(a: int, b: int): int { if a < b then b else a }

  function MinReal(a: real, b: real): real { if a < b then a else b }

  function MaxReal(a: real, b: real): real { if a < b then b else a }

  /** A span of microseconds as hours. */
  function Hours(span: Time): real { span as real / 3600000000.0 }

  /** A rate over two adjacent spans is the rate over their union. */
  lemma RateOverSpans(rate: real, a: Time, b: Time)
    ensures rate * Hours(a) + rate * Hours(b) == rate * Hours(a + b)
  {
    assert Hours(a) + Hours(b) == Hours(a + b);
  }

  lemma RateMonotone(rate: real, a: Time, b: Time)
    requires 0.0 <= rate && a <= b
    ensures rate * Hours(a) <= rate * Hours(b)
  {
    assert 0.0 <= Hours(b) - Hours(a);
    assert 0.0 <= rate * (Hours(b) - Hours(a));
  }
}
