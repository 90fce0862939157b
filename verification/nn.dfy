/**
 * NN: the multilayer perceptron's topology and weight store. The constructor validates the
 * topology, loads the weights through a TextFileInputReader (closing it on every path) or
 * takes them from the initial-data creator, and validates their shape; getClonedLayers
 * deep-copies the store. The forward and backward passes are not part of this model; only
 * the input-length guard at the top of apply is.
 */
module Network {
  import opened Errors
  import opened Activation
  import opened Units
  import opened TokenStream
  import opened TextFileInput

  /** The contents of a double[][]: its rows, in order. */
  ghost function MatrixOf(m: array<array<real>>): seq<seq<real>>
    reads m, set i | 0 <= i < m.Length :: m[i]
  {
    seq(m.Length, i requires 0 <= i < m.Length reads m, set k | 0 <= k < m.Length :: m[k] => m[i][..])
  }

  /** The contents of a double[][][] weight store: layer i, row j is the row of weights out of unit j. */
  ghost function StoreOf(w: array<array<array<real>>>): seq<seq<seq<real>>>
    reads w, set i | 0 <= i < w.Length :: w[i], set i, j | 0 <= i < w.Length && 0 <= j < w[i].Length :: w[i][j]
  {
    seq(w.Length, i requires 0 <= i < w.Length
      reads w, set k | 0 <= k < w.Length :: w[k], set k, j | 0 <= k < w.Length && 0 <= j < w[k].Length :: w[k][j]
      => MatrixOf(w[i]))
  }

  /** The contents of a sequence of rows. */
  ghost function RowsOf(rows: seq<array<real>>): seq<seq<real>>
    reads set i | 0 <= i < |rows| :: rows[i]
  {
    seq(|rows|, i requires 0 <= i < |rows| reads set k | 0 <= k < |rows| :: rows[k] => rows[i][..])
  }

  /** The contents of a sequence of matrices. */
  ghost function MatricesOf(ms: seq<array<array<real>>>): seq<seq<seq<real>>>
    reads set i | 0 <= i < |ms| :: ms[i], set i, j | 0 <= i < |ms| && 0 <= j < ms[i].Length :: ms[i][j]
  {
    seq(|ms|, i requires 0 <= i < |ms|
      reads set k | 0 <= k < |ms| :: ms[k], set k, j | 0 <= k < |ms| && 0 <= j < ms[k].Length :: ms[k][j]
      => MatrixOf(ms[i]))
  }

  // ---------------------------------------------------------------------------------------
  // getClonedLayers
  // ---------------------------------------------------------------------------------------

  /** How many entries of a row the copy loop visits: the bound given, or the row's own length. */
  function CopyBound(row: seq<real>, bound: Option<nat>): nat {
    if bound.Some? then bound.value else |row|
  }

  /**
   * The copy of one row: a new double[row.length], whose first n entries are copied, n being
   * the loop bound; the rest keep the 0.0 of the allocation. A row shorter than n makes the
   * access at index row.length fail.
   */
  function RowCopy(row: seq<real>, bound: Option<nat>): Outcome<seq<real>> {
    var n := CopyBound(row, bound);
    if |row| < n then Fail(IndexOutOfBounds(|row|, |row|))
    else Ok(seq(|row|, k requires 0 <= k < |row| => if k < n then row[k] else 0.0))
  }

  /** Copies each element in order with f; the first failure ends the copy and is its result. */
  function CopyEach<A, B>(xs: seq<A>, f: A -> Outcome<B>): Outcome<seq<B>> {
    if xs == [] then Ok([])
    else match CopyEach(xs[..|xs| - 1], f)
      case Fail(e) => Fail(e)
      case Ok(done) => match f(xs[|xs| - 1])
        case Fail(e) => Fail(e)
        case Ok(y) => Ok(done + [y])
  }

  /**
   * Copying every element succeeds exactly when each element copies; the copies are then
   * the elements' copies, in order; a failure is the failure of the first element that
   * does not copy.
   */
  lemma {:induction false} CopyEachMeaning<A, B>(xs: seq<A>, f: A -> Outcome<B>)
    ensures var r := CopyEach(xs, f);
      (r.Ok? <==> forall i :: 0 <= i < |xs| ==> f(xs[i]).Ok?) &&
      (r.Ok? ==> |r.value| == |xs| && forall i :: 0 <= i < |xs| ==> f(xs[i]) == Ok(r.value[i])) &&
      (r.Fail? ==> exists i :: 0 <= i < |xs| && f(xs[i]) == Fail(r.error) && forall k :: 0 <= k < i ==> f(xs[k]).Ok?)
  {
    if xs != [] {
      var init := xs[..|xs| - 1];
      CopyEachMeaning(init, f);
      assert forall i :: 0 <= i < |init| ==> init[i] == xs[i];
    }
  }

  /** Copying the first j + 1 elements is copying the first j, then element j. */
  lemma CopyEachStep<A, B>(xs: seq<A>, j: nat, f: A -> Outcome<B>)
    requires j < |xs|
    ensures CopyEach(xs[..j + 1], f) == match CopyEach(xs[..j], f)
      case Fail(e) => Fail(e)
      case Ok(done) => match f(xs[j])
        case Fail(e) => Fail(e)
        case Ok(y) => Ok(done + [y])
  {
    assert xs[..j + 1][..j] == xs[..j];
  }

  /** Once a prefix fails to copy, the whole sequence fails with the same error. */
  lemma {:induction false} CopyEachFailureSticks<A, B>(xs: seq<A>, j: nat, f: A -> Outcome<B>)
    requires j <= |xs| && CopyEach(xs[..j], f).Fail?
    ensures CopyEach(xs, f) == CopyEach(xs[..j], f)
    decreases |xs|
  {
    if j < |xs| {
      var init := xs[..|xs| - 1];
      assert init[..j] == xs[..j];
      CopyEachFailureSticks(init, j, f);
    } else {
      assert xs[..j] == xs;
    }
  }

  function RowCopier(bound: Option<nat>): seq<real> -> Outcome<seq<real>> {
    row => RowCopy(row, bound)
  }

  /** The rows of a matrix copied one after another; the first failing row ends the copy. */
  function MatrixCopy(m: seq<seq<real>>, bound: Option<nat>): Outcome<seq<seq<real>>> {
    CopyEach(m, RowCopier(bound))
  }

  function MatrixCopier(bound: Option<nat>): seq<seq<real>> -> Outcome<seq<seq<real>>> {
    m => MatrixCopy(m, bound)
  }

  /** The layers of a store copied one after another; the first failing row ends the copy. */
  function StoreCopy(w: seq<seq<seq<real>>>, bound: Option<nat>): Outcome<seq<seq<seq<real>>>> {
    CopyEach(w, MatrixCopier(bound))
  }

  /** A row whose first n entries are followed only by zeros: what a copy of its first n entries equals. */
  ghost predicate PaddedRow(row: seq<real>, n: nat) {
    n <= |row| && forall k :: n <= k < |row| ==> row[k] == 0.0
  }

  /** A row copy gives the row back exactly when the row is zero after the entries copied. */
  lemma RowCopyIdentity(row: seq<real>, bound: Option<nat>)
    ensures RowCopy(row, bound) == Ok(row) <==> PaddedRow(row, CopyBound(row, bound))
  {
    var n := CopyBound(row, bound);
    if PaddedRow(row, n) {
      assert RowCopy(row, bound).value == row;
    }
  }

  /** A matrix copy gives the matrix back exactly when every row copy does. */
  lemma MatrixCopyIdentity(m: seq<seq<real>>, bound: Option<nat>)
    ensures MatrixCopy(m, bound) == Ok(m) <==> forall j :: 0 <= j < |m| ==> PaddedRow(m[j], CopyBound(m[j], bound))
  {
    CopyEachMeaning(m, RowCopier(bound));
    forall j | 0 <= j < |m| {
      RowCopyIdentity(m[j], bound);
    }
    var r := MatrixCopy(m, bound);
    if r.Ok? && forall j :: 0 <= j < |m| ==> PaddedRow(m[j], CopyBound(m[j], bound)) {
      assert r.value == m;
    }
  }

  /** A store copy gives the store back exactly when every row copy does. */
  lemma StoreCopyIdentity(w: seq<seq<seq<real>>>, bound: Option<nat>)
    ensures StoreCopy(w, bound) == Ok(w) <==>
      forall i, j :: 0 <= i < |w| && 0 <= j < |w[i]| ==> PaddedRow(w[i][j], CopyBound(w[i][j], bound))
  {
    CopyEachMeaning(w, MatrixCopier(bound));
    forall i | 0 <= i < |w| {
      MatrixCopyIdentity(w[i], bound);
    }
    var r := StoreCopy(w, bound);
    if r.Ok? && forall i, j :: 0 <= i < |w| && 0 <= j < |w[i]| ==> PaddedRow(w[i][j], CopyBound(w[i][j], bound)) {
      assert r.value == w;
    }
  }

  /** Copying every row of a store through its own length reproduces the store. */
  lemma StoreCopyExact(w: seq<seq<seq<real>>>)
    ensures StoreCopy(w, None) == Ok(w)
  {
    StoreCopyIdentity(w, None);
  }

  /** Copying a store with a fixed bound L succeeds exactly when every row has at least L entries. */
  lemma StoreCopySucceeds(w: seq<seq<seq<real>>>, L: nat)
    ensures StoreCopy(w, Some(L)).Ok? <==>
      forall i, j :: 0 <= i < |w| && 0 <= j < |w[i]| ==> L <= |w[i][j]|
  {
    CopyEachMeaning(w, MatrixCopier(Some(L)));
    forall i | 0 <= i < |w| {
      CopyEachMeaning(w[i], RowCopier(Some(L)));
    }
  }

  /**
   * A failed copy with a fixed bound L names a row shorter than L: the index of the
   * failing access is that row's length, as is the array length reported.
   */
  lemma StoreCopyFailure(w: seq<seq<seq<real>>>, L: nat)
    requires StoreCopy(w, Some(L)).Fail?
    ensures exists i, j :: (0 <= i < |w| && 0 <= j < |w[i]| && |w[i][j]| < L &&
      StoreCopy(w, Some(L)).error == IndexOutOfBounds(|w[i][j]|, |w[i][j]|))
  {
    CopyEachMeaning(w, MatrixCopier(Some(L)));
    var i :| 0 <= i < |w| && MatrixCopier(Some(L))(w[i]) == Fail(StoreCopy(w, Some(L)).error);
    CopyEachMeaning(w[i], RowCopier(Some(L)));
    var j :| 0 <= j < |w[i]| && RowCopier(Some(L))(w[i][j]) == Fail(StoreCopy(w, Some(L)).error);
  }

  /** A copy that succeeds has the shape of what it copies: as many layers, rows and entries. */
  lemma StoreCopyKeepsShape(w: seq<seq<seq<real>>>, bound: Option<nat>)
    requires StoreCopy(w, bound).Ok?
    ensures var c := StoreCopy(w, bound).value;
      |c| == |w| && forall i :: 0 <= i < |w| ==> (|c[i]| == |w[i]| &&
        forall j :: 0 <= j < |w[i]| ==> |c[i][j]| == |w[i][j]|)
  {
    var c := StoreCopy(w, bound).value;
    CopyEachMeaning(w, MatrixCopier(bound));
    forall i | 0 <= i < |w|
      ensures |c[i]| == |w[i]| && forall j :: 0 <= j < |w[i]| ==> |c[i][j]| == |w[i][j]|
    {
      assert MatrixCopier(bound)(w[i]) == Ok(c[i]);
      CopyEachMeaning(w[i], RowCopier(bound));
    }
  }

  /** The deep copy of one row: new double[src.length], then the first n entries copied. */
  method CopyRow(src: array<real>, bound: Option<nat>) returns (r: Outcome<array<real>>)
    ensures var spec := RowCopy(src[..], bound);
      (spec.Fail? ==> r == Fail(spec.error)) &&
      (spec.Ok? ==> r.Ok? && fresh(r.value) && r.value[..] == spec.value)
  {
    var c := new real[src.Length](_ => 0.0);
    var n := if bound.Some? then bound.value else src.Length;
    var k := 0;
    while k < n
      invariant 0 <= k <= src.Length && k <= n
      invariant forall m :: 0 <= m < src.Length ==> c[m] == if m < k then src[m] else 0.0
    {
      if k >= src.Length {
        return Fail(IndexOutOfBounds(k, src.Length));
      }
      c[k] := src[k];
      k := k + 1;
    }
    assert c[..] == RowCopy(src[..], bound).value;
    r := Ok(c);
  }

  lemma RowsOfAppend(rows: seq<array<real>>, x: array<real>)
    ensures RowsOf(rows + [x]) == RowsOf(rows) + [x[..]]
  {
  }

  /** One pass of the row loop of getClonedLayers: row |done| of a matrix copied after the others. */
  method CopyNextRow(src: array<array<real>>, bound: Option<nat>, ghost m: seq<seq<real>>, done: seq<array<real>>)
    returns (r: Outcome<array<real>>)
    requires m == MatrixOf(src) && |done| < src.Length
    requires MatrixCopy(m[..|done|], bound) == Ok(RowsOf(done))
    ensures r.Fail? ==> MatrixCopy(m, bound) == Fail(r.error)
    ensures r.Ok? ==> fresh(r.value) && MatrixCopy(m[..|done| + 1], bound) == Ok(RowsOf(done + [r.value]))
  {
    var j := |done|;
    CopyEachStep(m, j, RowCopier(bound));
    r := CopyRow(src[j], bound);
    if r.Fail? {
      CopyEachFailureSticks(m, j + 1, RowCopier(bound));
    } else {
      RowsOfAppend(done, r.value);
    }
  }

  /** new double[n][] holding the given rows, in order. */
  method MatrixFrom(rows: seq<array<real>>) returns (m: array<array<real>>)
    ensures fresh(m) && m[..] == rows && MatrixOf(m) == RowsOf(rows)
  {
    m := new array<real>[|rows|](i requires 0 <= i < |rows| => rows[i]);
    assert m[..] == rows;
  }

  /** The deep copy of one double[][]: its rows copied in order into a new array. */
  method CopyMatrix(src: array<array<real>>, bound: Option<nat>) returns (r: Outcome<array<array<real>>>)
    ensures var spec := MatrixCopy(MatrixOf(src), bound);
      (spec.Fail? ==> r == Fail(spec.error)) &&
      (spec.Ok? ==> (r.Ok? && fresh(r.value) && (forall x | x in r.value[..] :: fresh(x)) &&
        MatrixOf(r.value) == spec.value))
  {
    ghost var m := MatrixOf(src);
    var rows: seq<array<real>> := [];
    assert m[..0] == [] && RowsOf(rows) == [];
    while |rows| < src.Length
      invariant |rows| <= src.Length && m == MatrixOf(src)
      invariant MatrixCopy(m[..|rows|], bound) == Ok(RowsOf(rows))
      invariant forall x | x in rows :: fresh(x)
    {
      var c := CopyNextRow(src, bound, m, rows);
      if c.Fail? {
        return Fail(c.error);
      }
      rows := rows + [c.value];
    }
    assert m[..|rows|] == m;
    var copy := MatrixFrom(rows);
    r := Ok(copy);
  }

  lemma MatricesOfAppend(ms: seq<array<array<real>>>, x: array<array<real>>)
    ensures MatricesOf(ms + [x]) == MatricesOf(ms) + [MatrixOf(x)]
  {
  }

  /** new double[n][][] holding the given matrices, in order. */
  method StoreFrom(ms: seq<array<array<real>>>) returns (w: array<array<array<real>>>)
    ensures fresh(w) && w[..] == ms && StoreOf(w) == MatricesOf(ms)
  {
    w := new array<array<real>>[|ms|](i requires 0 <= i < |ms| => ms[i]);
    assert w[..] == ms;
  }

  /** One pass of the layer loop of getClonedLayers: layer |done| deep-copied after the others. */
  method CopyNextLayer(src: array<array<array<real>>>, bound: Option<nat>, ghost w: seq<seq<seq<real>>>, done: seq<array<array<real>>>)
    returns (r: Outcome<array<array<real>>>)
    requires w == StoreOf(src) && |done| < src.Length
    requires StoreCopy(w[..|done|], bound) == Ok(MatricesOf(done))
    ensures r.Fail? ==> StoreCopy(w, bound) == Fail(r.error)
    ensures r.Ok? ==> (fresh(r.value) && (forall y | y in r.value[..] :: fresh(y)) &&
      StoreCopy(w[..|done| + 1], bound) == Ok(MatricesOf(done + [r.value])))
  {
    var i := |done|;
    CopyEachStep(w, i, MatrixCopier(bound));
    r := CopyMatrix(src[i], bound);
    if r.Fail? {
      CopyEachFailureSticks(w, i + 1, MatrixCopier(bound));
    } else {
      MatricesOfAppend(done, r.value);
    }
  }

  /** The layer loop of getClonedLayers: each double[][] of the store deep-copied in order. */
  method CopyLayers(src: array<array<array<real>>>, bound: Option<nat>) returns (r: Outcome<seq<array<array<real>>>>)
    ensures var spec := StoreCopy(StoreOf(src), bound);
      (spec.Fail? ==> r == Fail(spec.error)) &&
      (spec.Ok? ==> (r.Ok? && (forall x | x in r.value :: fresh(x) && forall y | y in x[..] :: fresh(y)) &&
        MatricesOf(r.value) == spec.value))
  {
    ghost var w := StoreOf(src);
    var layers: seq<array<array<real>>> := [];
    assert w[..0] == [] && MatricesOf(layers) == [];
    while |layers| < src.Length
      invariant |layers| <= src.Length && w == StoreOf(src)
      invariant StoreCopy(w[..|layers|], bound) == Ok(MatricesOf(layers))
      invariant forall x | x in layers :: fresh(x) && forall y | y in x[..] :: fresh(y)
    {
      var c := CopyNextLayer(src, bound, w, layers);
      if c.Fail? {
        return Fail(c.error);
      }
      layers := layers + [c.value];
    }
    assert w[..|layers|] == w;
    r := Ok(layers);
  }

  /** A deep copy of a weight store: new arrays at every level, holding the copied rows. */
  method CopyStore(src: array<array<array<real>>>, bound: Option<nat>) returns (r: Outcome<array<array<array<real>>>>)
    ensures var spec := StoreCopy(StoreOf(src), bound);
      (spec.Fail? ==> r == Fail(spec.error)) &&
      (spec.Ok? ==> (r.Ok? && fresh(r.value) &&
        (forall x | x in r.value[..] :: fresh(x) && forall y | y in x[..] :: fresh(y)) &&
        StoreOf(r.value) == spec.value))
  {
    var layers := CopyLayers(src, bound);
    if layers.Fail? {
      return Fail(layers.error);
    }
    var copy := StoreFrom(layers.value);
    r := Ok(copy);
  }

  // ---------------------------------------------------------------------------------------
  // Validation
  // ---------------------------------------------------------------------------------------

  /**
   * The topology checks that open the constructor: at least three layers, and FIdentity
   * on the input layer.
   */
  function TopologyError(units: seq<NNUnit>): Option<Error> {
    if |units| < 3 then Some(TooFewLayers)
    else if units[0].f != FIdentity then Some(InputLayerNotIdentity)
    else None
  }

  /** A topology passes exactly when it has three layers or more and an identity input layer. */
  lemma TopologyErrorMeaning(units: seq<NNUnit>)
    ensures TopologyError(units).None? <==> |units| >= 3 && units[0].f == FIdentity
    ensures TopologyError(units).Some? ==> |units| < 3 || units[0].f != FIdentity
  {
  }

  /** An input layer built with the one-argument NNUnit constructor passes the input-layer check. */
  lemma UnitMakesValidInputLayer(size: int, rest: seq<NNUnit>)
    requires |rest| >= 2
    ensures TopologyError([Unit(size)] + rest) == None
  {
  }

  /** An input layer given any other activation function is rejected, whatever its size. */
  lemma OtherInputLayerRejected(size: int, f: Function, rest: seq<NNUnit>)
    requires |rest| >= 2 && f != FIdentity
    ensures TopologyError([UnitWith(size, f)] + rest) == Some(InputLayerNotIdentity)
  {
  }

  /** The row count of each layer of a weight store: the lengths the shape check compares. */
  function RowCounts(layers: array<array<array<real>>>): (r: seq<int>)
    reads layers
    ensures |r| == layers.Length && forall i :: 0 <= i < layers.Length ==> r[i] == layers[i].Length
  {
    seq(layers.Length, i requires 0 <= i < layers.Length reads layers => layers[i].Length)
  }

  /** The first layer i >= from whose row count differs from units[i].size. */
  function FirstMismatch(units: seq<NNUnit>, counts: seq<int>, from: nat): Option<Error>
    requires |counts| < |units|
    decreases |counts| - from
  {
    if from >= |counts| then None
    else if units[from].size != counts[from] then Some(UnitCountMismatch(units[from].size, counts[from]))
    else FirstMismatch(units, counts, from + 1)
  }

  /** The shape check that closes the constructor, over the row count of each layer. */
  function ShapeError(units: seq<NNUnit>, counts: seq<int>): Option<Error> {
    if |counts| != |units| - 1 then Some(LayerCountMismatch(|units|, |counts|))
    else FirstMismatch(units, counts, 0)
  }

  /** The search from `from` on finds no mismatch exactly when there is none, and otherwise the first one. */
  lemma {:induction false} FirstMismatchMeaning(units: seq<NNUnit>, counts: seq<int>, from: nat)
    requires |counts| < |units|
    ensures var r := FirstMismatch(units, counts, from);
      (r.None? <==> forall k :: from <= k < |counts| ==> units[k].size == counts[k]) &&
      (r.Some? ==> exists k :: (from <= k < |counts| && units[k].size != counts[k] &&
        r.value == UnitCountMismatch(units[k].size, counts[k]) &&
        forall l :: from <= l < k ==> units[l].size == counts[l]))
    decreases |counts| - from
  {
    if from < |counts| && units[from].size == counts[from] {
      FirstMismatchMeaning(units, counts, from + 1);
      var r := FirstMismatch(units, counts, from);
      if r.Some? {
        var k :| from + 1 <= k < |counts| && units[k].size != counts[k] &&
          r.value == UnitCountMismatch(units[k].size, counts[k]) &&
          forall l :: from + 1 <= l < k ==> units[l].size == counts[l];
        assert forall l :: from <= l < k ==> units[l].size == counts[l];
      }
    }
  }

  /**
   * The shape check passes exactly when there is one weight layer per pair of adjacent unit
   * layers and layer i has units[i].size rows; otherwise it reports the layer count, or the
   * first layer whose row count is wrong.
   */
  lemma ShapeErrorMeaning(units: seq<NNUnit>, counts: seq<int>)
    ensures var r := ShapeError(units, counts);
      (r.None? <==> |counts| == |units| - 1 && forall i :: 0 <= i < |counts| ==> units[i].size == counts[i]) &&
      (r.Some? && |counts| != |units| - 1 ==> r.value == LayerCountMismatch(|units|, |counts|)) &&
      (r.Some? && |counts| == |units| - 1 ==> exists i :: (0 <= i < |counts| && units[i].size != counts[i] &&
        r.value == UnitCountMismatch(units[i].size, counts[i]) &&
        forall k :: 0 <= k < i ==> units[k].size == counts[k]))
  {
    if |counts| == |units| - 1 {
      FirstMismatchMeaning(units, counts, 0);
    }
  }

  /** The shape check loop of the constructor. */
  method ValidateShape(units: seq<NNUnit>, layers: array<array<array<real>>>) returns (e: Option<Error>)
    ensures e == ShapeError(units, RowCounts(layers))
  {
    if layers.Length != |units| - 1 {
      return Some(LayerCountMismatch(|units|, layers.Length));
    }
    var i := 0;
    while i < layers.Length
      invariant 0 <= i <= layers.Length
      invariant FirstMismatch(units, RowCounts(layers), i) == ShapeError(units, RowCounts(layers))
    {
      if units[i].size != layers[i].Length {
        return Some(UnitCountMismatch(units[i].size, layers[i].Length));
      }
      i := i + 1;
    }
    e := None;
  }

  // ---------------------------------------------------------------------------------------
  // Loading
  // ---------------------------------------------------------------------------------------

  /**
   * The weights the constructor reads: layer i is readVec(units[i].size, units[i + 1].size)
   * on the tokens the previous layers left; the first failure ends the load.
   */
  function LoadLayers(ts: seq<string>, units: seq<NNUnit>, n: nat, parse: string -> Option<real>, eof: Error):
    Outcome<(seq<seq<seq<real>>>, seq<string>)>
    requires n < |units|
  {
    if n == 0 then Ok(([], ts))
    else match LoadLayers(ts, units, n - 1, parse, eof)
      case Fail(e) => Fail(e)
      case Ok(done) => match ReadMatrix(done.1, units[n - 1].size, units[n].size, parse, eof)
        case Fail(e) => Fail(e)
        case Ok(m) => Ok((done.0 + [m.0], m.1))
  }

  /** How many weights the first n layers hold: the sum of units[i].size * units[i + 1].size. */
  function WeightCount(units: seq<NNUnit>, n: nat): int
    requires n < |units|
  {
    if n == 0 then 0 else WeightCount(units, n - 1) + units[n - 1].size * units[n].size
  }

  /** The sizes readVec accepts for the first n layers: no negative array length is ever allocated. */
  ghost predicate Allocatable(units: seq<NNUnit>, n: nat)
    requires n < |units|
  {
    forall i :: 0 <= i < n ==> units[i].size >= 0 && (units[i].size == 0 || units[i + 1].size >= 0)
  }

  /** The step from n - 1 loaded layers to n: the sizes are allocatable and the weight count grows. */
  lemma WeightCountStep(units: seq<NNUnit>, n: nat)
    requires 0 < n < |units| && Allocatable(units, n)
    ensures Allocatable(units, n - 1)
    ensures units[n - 1].size * units[n].size >= 0
    ensures WeightCount(units, n) == WeightCount(units, n - 1) + units[n - 1].size * units[n].size
  {
  }

  /** A load of n - 1 layers followed by a read of layer n - 1 is a load of n layers. */
  lemma LoadExtend(ts: seq<string>, units: seq<NNUnit>, n: nat, parse: string -> Option<real>, eof: Error,
                   done: seq<seq<seq<real>>>, mid: seq<string>, m: seq<seq<real>>, rest: seq<string>)
    requires 0 < n < |units| && LoadLayers(ts, units, n - 1, parse, eof) == Ok((done, mid))
    requires ReadMatrix(mid, units[n - 1].size, units[n].size, parse, eof) == Ok((m, rest))
    ensures LoadLayers(ts, units, n, parse, eof) == Ok((done + [m], rest))
  {
  }

  /** A successful load of n layers is a successful load of n - 1, then readVec of layer n - 1. */
  lemma LoadStep(ts: seq<string>, units: seq<NNUnit>, n: nat, parse: string -> Option<real>, eof: Error)
    requires 0 < n < |units| && LoadLayers(ts, units, n, parse, eof).Ok?
    ensures LoadLayers(ts, units, n - 1, parse, eof).Ok?
    ensures units[n - 1].size >= 0 && (units[n - 1].size == 0 || units[n].size >= 0)
    ensures var prev := LoadLayers(ts, units, n - 1, parse, eof).value;
      var m := ReadRows(prev.1, units[n - 1].size, units[n].size, parse, eof);
      m.Ok? && LoadLayers(ts, units, n, parse, eof).value == (prev.0 + [m.value.0], m.value.1)
  {
  }

  /** A matrix of a rows of b values. */
  ghost predicate MatrixShaped(m: seq<seq<real>>, a: int, b: int) {
    |m| == a && forall j :: 0 <= j < |m| ==> |m[j]| == b
  }

  /** Layer i of w has units[i].size rows of units[i + 1].size values. */
  ghost predicate Shaped(w: seq<seq<seq<real>>>, units: seq<NNUnit>) {
    |w| < |units| && forall i :: 0 <= i < |w| ==> MatrixShaped(w[i], units[i].size, units[i + 1].size)
  }

  lemma ShapedAppend(w: seq<seq<seq<real>>>, m: seq<seq<real>>, units: seq<NNUnit>)
    requires Shaped(w, units) && |w| + 1 < |units| && MatrixShaped(m, units[|w|].size, units[|w| + 1].size)
    ensures Shaped(w + [m], units)
  {
    var w' := w + [m];
    forall i | 0 <= i < |w'|
      ensures MatrixShaped(w'[i], units[i].size, units[i + 1].size)
    {
      if i < |w| {
        assert w'[i] == w[i];
      }
    }
  }

  /** Layer i of w holds, row-major, the parses of the tokens that follow the weights of the layers before it. */
  ghost predicate LaidOut(w: seq<seq<seq<real>>>, ts: seq<string>, units: seq<NNUnit>, parse: string -> Option<real>) {
    |w| < |units| && forall i :: 0 <= i < |w| ==> (0 <= WeightCount(units, i) <= |ts| &&
      RowMajor(w[i], ts[WeightCount(units, i)..], units[i + 1].size, parse))
  }

  lemma LaidOutAppend(w: seq<seq<seq<real>>>, m: seq<seq<real>>, ts: seq<string>, units: seq<NNUnit>, parse: string -> Option<real>)
    requires LaidOut(w, ts, units, parse) && |w| + 1 < |units|
    requires 0 <= WeightCount(units, |w|) <= |ts| && RowMajor(m, ts[WeightCount(units, |w|)..], units[|w| + 1].size, parse)
    ensures LaidOut(w + [m], ts, units, parse)
  {
    var w' := w + [m];
    forall i | 0 <= i < |w'|
      ensures 0 <= WeightCount(units, i) <= |ts| && RowMajor(w'[i], ts[WeightCount(units, i)..], units[i + 1].size, parse)
    {
      if i < |w| {
        assert w'[i] == w[i];
      }
    }
  }

  /**
   * A successful load has only allocatable sizes, and its layer i has units[i].size rows of
   * units[i + 1].size values.
   */
  lemma {:induction false} LoadLayersShape(ts: seq<string>, units: seq<NNUnit>, n: nat, parse: string -> Option<real>, eof: Error)
    requires n < |units| && LoadLayers(ts, units, n, parse, eof).Ok?
    ensures Allocatable(units, n)
    ensures var w := LoadLayers(ts, units, n, parse, eof).value.0;
      |w| == n && Shaped(w, units)
  {
    if n > 0 {
      LoadStep(ts, units, n, parse, eof);
      LoadLayersShape(ts, units, n - 1, parse, eof);
      var prev := LoadLayers(ts, units, n - 1, parse, eof).value;
      ReadRowsShape(prev.1, units[n - 1].size, units[n].size, parse, eof);
      var m := ReadRows(prev.1, units[n - 1].size, units[n].size, parse, eof).value.0;
      ShapedAppend(prev.0, m, units);
    }
  }

  /** A successful load of n layers consumes exactly the first WeightCount(units, n) tokens. */
  lemma {:induction false} LoadLayersConsumes(ts: seq<string>, units: seq<NNUnit>, n: nat, parse: string -> Option<real>, eof: Error)
    requires n < |units| && LoadLayers(ts, units, n, parse, eof).Ok?
    ensures 0 <= WeightCount(units, n) <= |ts|
    ensures LoadLayers(ts, units, n, parse, eof).value.1 == ts[WeightCount(units, n)..]
  {
    if n > 0 {
      LoadStep(ts, units, n, parse, eof);
      LoadLayersConsumes(ts, units, n - 1, parse, eof);
      var prev := LoadLayers(ts, units, n - 1, parse, eof).value;
      var a, b := units[n - 1].size, units[n].size;
      ReadRowsRowMajor(prev.1, a, b, parse, eof);
      assert ts[WeightCount(units, n - 1)..][a * b..] == ts[WeightCount(units, n)..];
    }
  }

  /**
   * Layer i of a successful load holds, row by row, the parses of the tokens that follow
   * the weights of the layers before it.
   */
  lemma {:induction false} LoadLayersRowMajor(ts: seq<string>, units: seq<NNUnit>, n: nat, parse: string -> Option<real>, eof: Error)
    requires n < |units| && LoadLayers(ts, units, n, parse, eof).Ok?
    ensures var w := LoadLayers(ts, units, n, parse, eof).value.0;
      |w| == n && LaidOut(w, ts, units, parse)
  {
    if n > 0 {
      LoadStep(ts, units, n, parse, eof);
      LoadLayersRowMajor(ts, units, n - 1, parse, eof);
      LoadLayersConsumes(ts, units, n - 1, parse, eof);
      var prev := LoadLayers(ts, units, n - 1, parse, eof).value;
      ReadRowsRowMajor(prev.1, units[n - 1].size, units[n].size, parse, eof);
      var m := ReadRows(prev.1, units[n - 1].size, units[n].size, parse, eof).value.0;
      LaidOutAppend(prev.0, m, ts, units, parse);
    }
  }

  /**
   * The load succeeds exactly when the sizes are allocatable and the token stream holds at
   * least WeightCount tokens, each of which parses.
   */
  lemma {:induction false} LoadLayersSucceeds(ts: seq<string>, units: seq<NNUnit>, n: nat, parse: string -> Option<real>, eof: Error)
    requires n < |units|
    ensures LoadLayers(ts, units, n, parse, eof).Ok? <==>
      Allocatable(units, n) && WeightCount(units, n) <= |ts| &&
      forall k :: 0 <= k < WeightCount(units, n) ==> parse(ts[k]).Some?
  {
    if n > 0 {
      LoadLayersSucceeds(ts, units, n - 1, parse, eof);
      var prev := LoadLayers(ts, units, n - 1, parse, eof);
      var a, b := units[n - 1].size, units[n].size;
      if Allocatable(units, n) {
        WeightCountStep(units, n);
        var base := WeightCount(units, n - 1);
        if prev.Ok? {
          LoadLayersConsumes(ts, units, n - 1, parse, eof);
          ReadRowsSucceeds(prev.value.1, a, b, parse, eof);
          if base + a * b <= |ts| {
            ParsesSplit(ts, base, a * b, parse);
          }
        } else if base + a * b <= |ts| {
          ParsesSplit(ts, base, a * b, parse);
        }
      } else if LoadLayers(ts, units, n, parse, eof).Ok? {
        LoadLayersShape(ts, units, n, parse, eof);
      }
    }
  }

  /** Once a layer fails to load, loading more layers fails with the same error. */
  lemma {:induction false} LoadLayersFailureSticks(ts: seq<string>, units: seq<NNUnit>, m: nat, n: nat, parse: string -> Option<real>, eof: Error)
    requires m <= n < |units| && LoadLayers(ts, units, m, parse, eof).Fail?
    ensures LoadLayers(ts, units, n, parse, eof) == LoadLayers(ts, units, m, parse, eof)
    decreases n
  {
    if m < n {
      LoadLayersFailureSticks(ts, units, m, n - 1, parse, eof);
    }
  }

  /** The readVec calls of a load of the first k layers, in order. */
  function ReadVecCalls(units: seq<NNUnit>, k: nat): seq<Event>
    requires k < |units|
  {
    seq(k, i requires 0 <= i < k => ReadVecCall(units[i].size, units[i + 1].size))
  }

  /** How many readVec calls a load of n layers makes: up to and including the first that fails. */
  function Attempts(ts: seq<string>, units: seq<NNUnit>, n: nat, parse: string -> Option<real>, eof: Error): (r: nat)
    requires n < |units|
    ensures r <= n
  {
    if n == 0 then 0
    else if LoadLayers(ts, units, n - 1, parse, eof).Fail? then Attempts(ts, units, n - 1, parse, eof)
    else n
  }

  /** When layer m - 1 is the first that fails, a load of n >= m layers makes exactly m readVec calls. */
  lemma {:induction false} AttemptsAfterFailure(ts: seq<string>, units: seq<NNUnit>, m: nat, n: nat, parse: string -> Option<real>, eof: Error)
    requires 0 < m <= n < |units|
    requires LoadLayers(ts, units, m - 1, parse, eof).Ok? && LoadLayers(ts, units, m, parse, eof).Fail?
    ensures Attempts(ts, units, n, parse, eof) == m
    decreases n
  {
    if m < n {
      LoadLayersFailureSticks(ts, units, m, n - 1, parse, eof);
      AttemptsAfterFailure(ts, units, m, n - 1, parse, eof);
    }
  }

  /** When layer k is the first that fails, the whole load fails as it does, after k + 1 readVec calls. */
  lemma LoadFailure(ts: seq<string>, units: seq<NNUnit>, k: nat, parse: string -> Option<real>, eof: Error, e: Error)
    requires k + 1 < |units| && LoadLayers(ts, units, k, parse, eof).Ok? && LoadLayers(ts, units, k + 1, parse, eof) == Fail(e)
    ensures LoadLayers(ts, units, |units| - 1, parse, eof) == Fail(e)
    ensures Attempts(ts, units, |units| - 1, parse, eof) == k + 1
  {
    LoadLayersFailureSticks(ts, units, k + 1, |units| - 1, parse, eof);
    AttemptsAfterFailure(ts, units, k + 1, |units| - 1, parse, eof);
  }

  /** A load of n layers that succeeds makes n readVec calls. */
  lemma AttemptsOnSuccess(ts: seq<string>, units: seq<NNUnit>, n: nat, parse: string -> Option<real>, eof: Error)
    requires n < |units| && LoadLayers(ts, units, n, parse, eof).Ok?
    ensures Attempts(ts, units, n, parse, eof) == n
  {
    if n > 0 {
      LoadStep(ts, units, n, parse, eof);
    }
  }

  /** A readVec call that returns holds the rows it read: the matrix is its value. */
  lemma MatrixOfHoldsRows(a: array<array<real>>, m: seq<seq<real>>)
    requires HoldsRows(a[..], m)
    ensures MatrixOf(a) == m
  {
  }

  /** A weight store holding what a load read has one layer per pair of adjacent unit layers, of the right row count. */
  lemma LoadedStorePassesShapeCheck(w: array<array<array<real>>>, ts: seq<string>, units: seq<NNUnit>,
                                    parse: string -> Option<real>, eof: Error)
    requires |units| >= 1 && LoadLayers(ts, units, |units| - 1, parse, eof).Ok?
    requires StoreOf(w) == LoadLayers(ts, units, |units| - 1, parse, eof).value.0
    ensures ShapeError(units, RowCounts(w)).None?
  {
    LoadLayersShape(ts, units, |units| - 1, parse, eof);
    var counts := RowCounts(w);
    forall i | 0 <= i < |counts|
      ensures units[i].size == counts[i]
    {
      assert MatrixShaped(StoreOf(w)[i], units[i].size, units[i + 1].size);
    }
    ShapeErrorMeaning(units, counts);
  }

  class NN {
    /** The layers of units, input layer first. */
    const units: seq<NNUnit>
    /** layers[i][j][k]: the weight from unit j of layer i to unit k of layer i + 1. */
    const layers: array<array<array<real>>>

    /** The state every constructed network is in: a valid topology and a weight store of the right shape. */
    ghost predicate Valid()
      reads layers
    {
      TopologyError(units).None? && ShapeError(units, RowCounts(layers)).None?
    }

    /** The private constructor NN(units, initialData): takes both as they are. */
    constructor (units: seq<NNUnit>, initialData: array<array<array<real>>>)
      ensures this.units == units && this.layers == initialData
    {
      this.units := units;
      this.layers := initialData;
    }

    /** One pass of the constructor's read loop: readVec for layer |done|. */
    static method ReadNextLayer(units: seq<NNUnit>, reader: TextFileInputReader, parse: string -> Option<real>,
                                ghost ts: seq<string>, ghost eof: Error, ghost loaded: (seq<seq<seq<real>>>, seq<string>),
                                done: seq<array<array<real>>>, ghost before: seq<Event>)
      returns (r: Outcome<array<array<real>>>, ghost next: (seq<seq<seq<real>>>, seq<string>))
      requires reader.Valid() && reader.Exhausted() == eof && |done| + 1 < |units|
      requires reader.trace == before + ReadVecCalls(units, |done|)
      requires LoadLayers(ts, units, |done|, parse, eof) == Ok(loaded)
      requires reader.Remaining() == loaded.1 && MatricesOf(done) == loaded.0
      modifies reader`pos, reader`line, reader`index, reader`trace
      ensures reader.Valid() && reader.Exhausted() == eof
      ensures reader.trace == before + ReadVecCalls(units, |done| + 1)
      ensures r.Fail? ==> (LoadLayers(ts, units, |units| - 1, parse, eof) == Fail(r.error) &&
        Attempts(ts, units, |units| - 1, parse, eof) == |done| + 1)
      ensures r.Ok? ==> (fresh(r.value) && LoadLayers(ts, units, |done| + 1, parse, eof) == Ok(next) &&
        next == (MatricesOf(done + [r.value]), reader.Remaining()))
    {
      var k := |done|;
      r := reader.ReadVec(units[k].size, units[k + 1].size, parse);
      assert before + ReadVecCalls(units, k) + [ReadVecCall(units[k].size, units[k + 1].size)] ==
        before + ReadVecCalls(units, k + 1);
      if r.Ok? {
        var m := ReadMatrix(loaded.1, units[k].size, units[k + 1].size, parse, eof).value;
        MatrixOfHoldsRows(r.value, m.0);
        MatricesOfAppend(done, r.value);
        next := (MatricesOf(done + [r.value]), reader.Remaining());
      } else {
        next := loaded;
        LoadFailure(ts, units, k, parse, eof, r.error);
      }
    }

    /**
     * The read loop of the constructor: readVec(units[i].size, units[i + 1].size) for each
     * layer, stopping at the first exception.
     */
    static method ReadLayers(units: seq<NNUnit>, reader: TextFileInputReader, parse: string -> Option<real>)
      returns (r: Outcome<seq<array<array<real>>>>)
      requires reader.Valid() && |units| >= 1
      modifies reader`pos, reader`line, reader`index, reader`trace
      ensures reader.Valid()
      ensures var ts, eof := old(reader.Remaining()), old(reader.Exhausted());
        var spec := LoadLayers(ts, units, |units| - 1, parse, eof);
        reader.trace == old(reader.trace) + ReadVecCalls(units, Attempts(ts, units, |units| - 1, parse, eof)) &&
        (spec.Fail? ==> r == Fail(spec.error)) &&
        (spec.Ok? ==> (r.Ok? && |r.value| == |units| - 1 && (forall x | x in r.value :: fresh(x)) &&
          MatricesOf(r.value) == spec.value.0))
    {
      ghost var ts := reader.Remaining();
      ghost var eof := reader.Exhausted();
      assert ts == old(reader.Remaining()) && eof == old(reader.Exhausted());
      ghost var loaded: (seq<seq<seq<real>>>, seq<string>) := ([], ts);
      var done: seq<array<array<real>>> := [];
      assert MatricesOf(done) == [];
      while |done| < |units| - 1
        invariant reader.Valid() && reader.Exhausted() == eof && |done| < |units|
        invariant LoadLayers(ts, units, |done|, parse, eof) == Ok(loaded)
        invariant reader.Remaining() == loaded.1 && MatricesOf(done) == loaded.0
        invariant forall x | x in done :: fresh(x)
        invariant reader.trace == old(reader.trace) + ReadVecCalls(units, |done|)
      {
        var m, next := ReadNextLayer(units, reader, parse, ts, eof, loaded, done, old(reader.trace));
        if m.Fail? {
          return Fail(m.error);
        }
        loaded, done := next, done + [m.value];
      }
      AttemptsOnSuccess(ts, units, |done|, parse, eof);
      assert |done| == |units| - 1;
      r := Ok(done);
    }
  
    /**
     * The source branch of the constructor: the read loop, then close() in the finally block.
     * Any exception from the loop is rethrown wrapped in a RuntimeException; close() cannot
     * throw while the source exists. A store that loads always passes the shape check.
     */
    static method LoadFrom(units: seq<NNUnit>, reader: TextFileInputReader, parse: string -> Option<real>)
      returns (r: Outcome<array<array<array<real>>>>)
      requires reader.Valid() && reader.sourceExists && |units| >= 1
      modifies reader`pos, reader`line, reader`index, reader`trace, reader`closed
      ensures reader.Valid() && reader.closed
      ensures var ts, eof := old(reader.Remaining()), old(reader.Exhausted());
        var spec := LoadLayers(ts, units, |units| - 1, parse, eof);
        reader.trace == old(reader.trace) + ReadVecCalls(units, Attempts(ts, units, |units| - 1, parse, eof)) + [CloseCall] &&
        (spec.Fail? ==> r == Fail(Wrapped(spec.error))) &&
        (spec.Ok? ==> (r.Ok? && fresh(r.value) && StoreOf(r.value) == spec.value.0 &&
          ShapeError(units, RowCounts(r.value)).None?))
    {
      ghost var ts, eof := reader.Remaining(), reader.Exhausted();
      var loaded := ReadLayers(units, reader, parse);
      var closed := reader.Close();
      if loaded.Fail? {
        return Fail(Wrapped(loaded.error));
      }
      var layers := StoreFrom(loaded.value);
      LoadedStorePassesShapeCheck(layers, ts, units, parse, eof);
      r := Ok(layers);
    }

    /** The last step of the constructor: the shape check, then the private constructor. */
    static method Build(units: seq<NNUnit>, layers: array<array<array<real>>>) returns (r: Outcome<NN>)
      requires TopologyError(units).None?
      ensures var e := ShapeError(units, RowCounts(layers));
        (e.Some? ==> r == Fail(e.value)) &&
        (e.None? ==> r.Ok? && fresh(r.value) && r.value.units == units && r.value.layers == layers && r.value.Valid())
    {
      var e := ValidateShape(units, layers);
      if e.Some? {
        return Fail(e.value);
      }
      var nn := new NN(units, layers);
      r := Ok(nn);
    }

    /** The constructor with a valid topology and an existing source: load, close, then build. */
    static method Load(units: seq<NNUnit>, reader: TextFileInputReader, parse: string -> Option<real>)
      returns (r: Outcome<NN>)
      requires reader.Valid() && reader.sourceExists && TopologyError(units).None?
      modifies reader`pos, reader`line, reader`index, reader`trace, reader`closed
      ensures reader.Valid() && reader.closed
      ensures var ts, eof := old(reader.Remaining()), old(reader.Exhausted());
        var spec := LoadLayers(ts, units, |units| - 1, parse, eof);
        reader.trace == old(reader.trace) + ReadVecCalls(units, Attempts(ts, units, |units| - 1, parse, eof)) + [CloseCall] &&
        (spec.Fail? ==> r == Fail(Wrapped(spec.error))) &&
        (spec.Ok? ==> (r.Ok? && fresh(r.value) && r.value.units == units && fresh(r.value.layers) &&
          StoreOf(r.value.layers) == spec.value.0 && r.value.Valid()))
    {
      var loaded := LoadFrom(units, reader, parse);
      if loaded.Fail? {
        return Fail(loaded.error);
      }
      r := Build(units, loaded.value);
    }

    /**
     * public NN(units, reader, initialDataCreator): validates the topology, then loads the
     * weights through the reader when its source exists or takes the initial data otherwise,
     * and finally validates the shape of the weights. `initial` is what
     * initialDataCreator.create() returns; it is used only without a source.
     */
    static method Create(units: seq<NNUnit>, reader: TextFileInputReader, initial: array<array<array<real>>>,
                         parse: string -> Option<real>)
      returns (r: Outcome<NN>)
      requires reader.Valid()
      modifies reader`pos, reader`line, reader`index, reader`trace, reader`closed
      ensures reader.Valid()
      ensures TopologyError(units).Some? ==> r == Fail(TopologyError(units).value) && unchanged(reader)
      ensures TopologyError(units).None? && !reader.sourceExists ==> (unchanged(reader) &&
        var e := ShapeError(units, RowCounts(initial));
        (e.Some? ==> r == Fail(e.value)) &&
        (e.None? ==> r.Ok? && fresh(r.value) && r.value.units == units && r.value.layers == initial))
      ensures TopologyError(units).None? && reader.sourceExists ==> (
        var ts, eof := old(reader.Remaining()), old(reader.Exhausted());
        var spec := LoadLayers(ts, units, |units| - 1, parse, eof);
        reader.closed &&
        reader.trace == old(reader.trace) + ReadVecCalls(units, Attempts(ts, units, |units| - 1, parse, eof)) + [CloseCall] &&
        (spec.Fail? ==> r == Fail(Wrapped(spec.error))) &&
        (spec.Ok? ==> (r.Ok? && fresh(r.value) && r.value.units == units && fresh(r.value.layers) &&
          StoreOf(r.value.layers) == spec.value.0)))
      ensures r.Ok? ==> r.value.Valid()
    {
      if |units| < 3 {
        return Fail(TooFewLayers);
      } else if units[0].f != FIdentity {
        return Fail(InputLayerNotIdentity);
      }
      if reader.sourceExists {
        r := Load(units, reader, parse);
      } else {
        r := Build(units, initial);
      }
    }

    /**
     * The guard at the top of apply: the input holds one value fewer than the input layer
     * has units (unit 0 is the bias). A network without layers fails on units[0] instead.
     */
    function InputError(input: seq<int>): Option<Error> {
      if |units| == 0 then Some(IndexOutOfBounds(0, 0))
      else if |input| != units[0].size - 1 then Some(InvalidInputLength)
      else None
    }

    /**
     * On a constructed network the guard lets through exactly the inputs that have one value
     * fewer than the first weight layer has rows: row 0 for the bias, row i + 1 for input[i].
     */
    lemma InputMatchesFirstLayer(input: seq<int>)
      requires Valid()
      ensures layers.Length >= 2
      ensures InputError(input).None? <==> |input| + 1 == layers[0].Length
      ensures InputError(input).Some? ==> InputError(input) == Some(InvalidInputLength)
    {
      ShapeErrorMeaning(units, RowCounts(layers));
    }

    /**
     * getClonedLayers(): a new double[][][] of new rows, as written: each row gets a new
     * double[row.length], but the copy loop runs to this.layers.length (the number of weight
     * layers) rather than to the row's length.
     */
    method GetClonedLayers() returns (r: Outcome<array<array<array<real>>>>)
      ensures var spec := StoreCopy(StoreOf(layers), Some(layers.Length));
        (spec.Fail? ==> r == Fail(spec.error)) &&
        (spec.Ok? ==> (r.Ok? && fresh(r.value) &&
          (forall x | x in r.value[..] :: fresh(x) && forall y | y in x[..] :: fresh(y)) &&
          StoreOf(r.value) == spec.value))
    {
      r := CopyStore(layers, Some(layers.Length));
    }

    /**
     * The deep copy getClonedLayers is meant to make: every row copied through its own
     * length. It always succeeds and holds exactly the weights of the network.
     */
    method CloneLayers() returns (c: array<array<array<real>>>)
      ensures fresh(c) && (forall x | x in c[..] :: fresh(x) && forall y | y in x[..] :: fresh(y))
      ensures StoreOf(c) == StoreOf(layers)
    {
      StoreCopyExact(StoreOf(layers));
      var r := CopyStore(layers, None);
      c := r.value;
    }
  }

  // ---------------------------------------------------------------------------------------
  // getClonedLayers as written
  // ---------------------------------------------------------------------------------------

  /** The weights of a network loaded for the layers sizes, all set to v: rows[i] rows of cols[i] values. */
  function Filled(sizes: seq<nat>, v: real): (w: seq<seq<seq<real>>>)
    requires |sizes| >= 1
    ensures |w| == |sizes| - 1
    ensures forall i :: 0 <= i < |w| ==> MatrixShaped(w[i], sizes[i], sizes[i + 1])
  {
    seq(|sizes| - 1, i requires 0 <= i < |sizes| - 1 =>
      seq(sizes[i], j requires 0 <= j < sizes[i] => seq(sizes[i + 1], k requires 0 <= k < sizes[i + 1] => v)))
  }

  /**
   * A network of unit sizes 3, 2, 1 (two weight layers): the rows of the last layer hold one
   * weight, the copy loop reads two, and getClonedLayers throws where a copy was due.
   */
  lemma ClonedLayersThrowsOnNarrowLayer()
    ensures var w := Filled([3, 2, 1], 0.5);
      StoreCopy(w, Some(|w|)) == Fail(IndexOutOfBounds(1, 1)) && StoreCopy(w, None) == Ok(w)
  {
    var w := Filled([3, 2, 1], 0.5);
    StoreCopyExact(w);
    StoreCopyFailure(w, 2);
  }

  /**
   * A network of unit sizes 3, 4, 2: the rows of the first layer hold four weights, the copy
   * loop copies two, and the copy getClonedLayers returns has zeros in place of the others.
   */
  lemma ClonedLayersDropsWeights()
    ensures var w := Filled([3, 4, 2], 0.5);
      StoreCopy(w, Some(|w|)).Ok? && StoreCopy(w, Some(|w|)) != Ok(w)
  {
    var w := Filled([3, 4, 2], 0.5);
    StoreCopySucceeds(w, 2);
    StoreCopyIdentity(w, Some(2));
    assert !PaddedRow(w[0][0], 2) by {
      assert w[0][0][2] == 0.5;
    }
  }
}
