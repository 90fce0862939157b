/** NNUnit: the immutable (size, activation) record a topology is made of. */
module Units {
  import opened Activation

  /**
   * One layer of the perceptron: its unit count and its activation function.
   * Both fields are final; the size is not validated, so zero and negative sizes exist.
   */
  datatype NNUnit = NNUnit(size: int, f: Function)

  /** NNUnit(size): a layer with the identity activation, as the input layer must have. */
  function Unit(size: int): (u: NNUnit)
    ensures u.size == size && u.f == FIdentity
  {
    NNUnit(size, FIdentity)
  }

  /** NNUnit(size, f): the size and the function exactly as given, for any size. */
  function UnitWith(size: int, f: Function): (u: NNUnit)
    ensures u.size == size && u.f == f
  {
    NNUnit(size, f)
  }
}
