/** A hypernetwork unit (`HypernetworkModule`): a residual block that widens a
    `dim`-wide input to `2 * dim` and narrows it back to `dim`. Only the shape
    bookkeeping is modelled; the tensor arithmetic is supplied from outside. */
module Units {
  import opened Results

  /** A tensor: its shape, and its elements, which the model never inspects. */
  datatype Tensor = Tensor(shape: seq<nat>, data: seq<real>)

  /** A module's parameters by name, as saved in a weight file. */
  type StateDict = map<string, Tensor>

  /** A fully connected layer: weight of shape [out, in], bias of shape [out]. */
  datatype Linear = Linear(inFeatures: nat, outFeatures: nat, weight: Tensor, bias: Tensor)

  /** One transformation unit: `linear1` is dim -> 2 * dim, `linear2` is
      2 * dim -> dim. */
  datatype Unit = Unit(dim: nat, linear1: Linear, linear2: Linear)

  /** Why constructing a unit raises. */
  datatype UnitError =
    | NegativeDimension(size: int)  // a layer of negative width cannot be allocated
    | StateDictMismatch             // strict loading: missing or unexpected keys, or a wrong shape

  /** The parameter names and shapes a unit of width `dim` has. */
  function ParameterShapes(dim: nat): map<string, seq<nat>>
  {
    map["linear1.weight" := [dim * 2, dim], "linear1.bias" := [dim * 2],
        "linear2.weight" := [dim, dim * 2], "linear2.bias" := [dim]]
  }

  /** A strict load accepts `sd` for width `dim`: the same names as the
      unit's parameters, and every tensor of the parameter's shape. */
  predicate Matches(dim: nat, sd: StateDict)
  {
    && sd.Keys == ParameterShapes(dim).Keys
    && forall key :: key in sd ==> sd[key].shape == ParameterShapes(dim)[key]
  }

  predicate LinearShaped(l: Linear)
  {
    l.weight.shape == [l.outFeatures, l.inFeatures] && l.bias.shape == [l.outFeatures]
  }

  /** A unit's layers chain dim -> 2 * dim -> dim and hold tensors of the
      matching shapes. */
  predicate ValidUnit(u: Unit)
  {
    && u.linear1.inFeatures == u.dim && u.linear1.outFeatures == 2 * u.dim
    && u.linear2.inFeatures == 2 * u.dim && u.linear2.outFeatures == u.dim
    && LinearShaped(u.linear1) && LinearShaped(u.linear2)
  }

  /** The unit's parameters by name (what saving its state would write). */
  function Parameters(u: Unit): StateDict
  {
    map["linear1.weight" := u.linear1.weight, "linear1.bias" := u.linear1.bias,
        "linear2.weight" := u.linear2.weight, "linear2.bias" := u.linear2.bias]
  }

  /** Builds the unit of width `size` and loads `sd` into it strictly. It
      succeeds exactly when the width is not negative and `sd` matches the
      unit's parameters; the unit then holds exactly the tensors of `sd`. */
  function NewUnit(size: int, sd: StateDict): (r: Result<Unit, UnitError>)
    ensures r.Ok? <==> size >= 0 && Matches(size, sd)
    ensures r.Ok? ==> r.value.dim == size && ValidUnit(r.value) && Parameters(r.value) == sd
    ensures size < 0 ==> r == Err(NegativeDimension(size))
  {
    if size < 0 then Err(NegativeDimension(size))
    else if !Matches(size, sd) then Err(StateDictMismatch)
    else
      var u := Unit(size,
                    Linear(size, size * 2, sd["linear1.weight"], sd["linear1.bias"]),
                    Linear(size * 2, size, sd["linear2.weight"], sd["linear2.bias"]));
      assert Parameters(u).Keys == sd.Keys;
      Ok(u)
  }

  /** The tensor primitives a unit's forward pass is made of, supplied by the
      tensor library: applying a linear layer, and element-wise addition. */
  datatype Numerics = Numerics(linear: (Linear, Tensor) -> Tensor, add: (Tensor, Tensor) -> Tensor)

  function WithLastDim(shape: seq<nat>, d: nat): seq<nat>
    requires |shape| > 0
  {
    shape[..|shape| - 1] + [d]
  }

  /** The shape behaviour of the primitives: a linear layer replaces the
      last dimension `in` by `out`, and addition keeps the common shape. */
  ghost predicate ShapeLawful(num: Numerics)
  {
    && (forall l: Linear, x: Tensor ::
          |x.shape| > 0 && x.shape[|x.shape| - 1] == l.inFeatures ==>
          num.linear(l, x).shape == WithLastDim(x.shape, l.outFeatures))
    && (forall x: Tensor, y: Tensor ::
          x.shape == y.shape ==> num.add(x, y).shape == x.shape)
  }

  /** The widened intermediate `linear1(x)`. */
  function Hidden(num: Numerics, u: Unit, x: Tensor): Tensor
  {
    num.linear(u.linear1, x)
  }

  /** The residual forward pass `x + linear2(linear1(x))`. */
  function Forward(num: Numerics, u: Unit, x: Tensor): (y: Tensor)
    ensures ShapeLawful(num) && ValidUnit(u) && |x.shape| > 0 && x.shape[|x.shape| - 1] == u.dim ==>
      y.shape == x.shape
  {
    num.add(x, num.linear(u.linear2, Hidden(num, u, x)))
  }

  /** On an input whose last dimension is the unit's width, the intermediate
      is twice as wide and the output has the input's shape. */
  lemma ForwardShape(num: Numerics, u: Unit, x: Tensor)
    requires ShapeLawful(num) && ValidUnit(u)
    requires |x.shape| > 0 && x.shape[|x.shape| - 1] == u.dim
    ensures Hidden(num, u, x).shape == WithLastDim(x.shape, 2 * u.dim)
    ensures Forward(num, u, x).shape == x.shape
  {
    var h := Hidden(num, u, x);
    assert h.shape[|h.shape| - 1] == u.linear2.inFeatures;
    var y := num.linear(u.linear2, h);
    assert y.shape == WithLastDim(h.shape, u.dim);
    assert y.shape == x.shape;
  }
}
