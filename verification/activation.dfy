/**
 * The activation functions. FIdentity and FReLU are piecewise linear and are modelled
 * exactly over the reals; FSigmoid and FTanh use Math.exp and Math.tanh and appear only
 * as variants, so that a layer can name them.
 */
module Activation {

  /** The IActivateFunction implementations a layer can be given. */
  datatype Function = FIdentity | FReLU | FSigmoid | FTanh

  /** FIdentity.apply: the input passes through unchanged. */
  function IdentityApply(u: real): real {
    u
  }

  /** FIdentity.derive: the slope is one whatever the argument. */
  function IdentityDerive(e: real): real {
    1.0
  }

  /** FReLU.apply: the positive part of the input. */
  function ReLUApply(u: real): (r: real)
    ensures r >= 0.0
    ensures u > 0.0 ==> r == u
    ensures u <= 0.0 ==> r == 0.0
  {
    if u > 0.0 then u else 0.0
  }

  /** FReLU.derive: the step function, one exactly on the positive reals. */
  function ReLUDerive(e: real): (r: real)
    ensures r == 0.0 || r == 1.0
    ensures r == 1.0 <==> e > 0.0
  {
    if e > 0.0 then 1.0 else 0.0
  }

  /** FIdentity.apply is a fixed point of every input, and so applying it twice is applying it once. */
  lemma IdentityIdempotent(u: real)
    ensures IdentityApply(u) == u
    ensures IdentityApply(IdentityApply(u)) == IdentityApply(u)
  {
  }

  /** The slope of FIdentity does not depend on where it is taken: it is one everywhere. */
  lemma IdentitySlopeConstant(e: real, e': real)
    ensures IdentityDerive(e) == IdentityDerive(e') == 1.0
  {
  }

  /** FIdentity.apply preserves the order of its arguments and so is injective. */
  lemma IdentityOrderPreserving(u: real, v: real)
    ensures u < v <==> IdentityApply(u) < IdentityApply(v)
    ensures IdentityApply(u) == IdentityApply(v) ==> u == v
  {
  }

  /** Applying FReLU to its own output changes nothing. */
  lemma ReLUIdempotent(u: real)
    ensures ReLUApply(ReLUApply(u)) == ReLUApply(u)
  {
  }

  /** The output of FReLU is its input scaled by its own derivative. */
  lemma ReLUIsInputTimesSlope(u: real)
    ensures ReLUApply(u) == u * ReLUDerive(u)
  {
  }

  /** FReLU never reverses the order of its inputs. */
  lemma ReLUMonotone(u: real, v: real)
    requires u <= v
    ensures ReLUApply(u) <= ReLUApply(v)
  {
  }
}
