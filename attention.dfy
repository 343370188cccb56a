/** The hook into cross-attention: the context that feeds the key and value
    projections is first passed through the active hypernetwork's units for
    the context's feature width. */
module Attention {
  import opened Results
  import opened Units
  import opened Hypernetworks
  import opened Loader

  /** The feature width of an attention context (batch, tokens, width): its
      dimension at index 2. */
  function FeatureDim(context: Tensor): nat
    requires |context.shape| >= 3
  {
    context.shape[2]
  }

  /** The inputs of the key and value projections. Without an active
      hypernetwork, or when it has no units for the context's width, both are
      the context itself; otherwise the key unit and the value unit of that
      width are applied to it. */
  function ApplyHypernetwork(hypernetwork: Option<Hypernetwork>, num: Numerics, context: Tensor)
    : (r: (Tensor, Tensor))
    requires |context.shape| >= 3
    ensures hypernetwork.None? || FeatureDim(context) !in hypernetwork.value.layers ==>
      r == (context, context)
    ensures hypernetwork.Some? && FeatureDim(context) in hypernetwork.value.layers ==>
      var units := hypernetwork.value.layers[FeatureDim(context)];
      r == (Forward(num, units.0, context), Forward(num, units.1, context))
  {
    var layers := if hypernetwork.Some? then hypernetwork.value.layers else map[];
    var d := FeatureDim(context);
    if d !in layers then (context, context)
    else
      var units := layers[d];
      (Forward(num, units.0, context), Forward(num, units.1, context))
  }

  /** On a (batch, tokens, width) context and a well-formed hypernetwork,
      the key and value inputs keep the context's shape, so the projections
      that follow receive tensors of the width they expect. */
  lemma ApplyKeepsShape(hypernetwork: Option<Hypernetwork>, num: Numerics, context: Tensor)
    requires |context.shape| == 3
    requires hypernetwork.Some? ==> WellFormed(hypernetwork.value)
    requires ShapeLawful(num)
    ensures ApplyHypernetwork(hypernetwork, num, context).0.shape == context.shape
    ensures ApplyHypernetwork(hypernetwork, num, context).1.shape == context.shape
  {
    var d := FeatureDim(context);
    if hypernetwork.Some? && d in hypernetwork.value.layers {
      var units := hypernetwork.value.layers[d];
      ForwardShape(num, units.0, context);
      ForwardShape(num, units.1, context);
    }
  }

  /** Loading a catalogued file that builds, then running attention on a
      context of a width the file holds, feeds the key projection with the
      key unit of that width and the value projection with its value unit,
      each built from the file's saved state for that width. */
  lemma {:induction false} LoadThenApply(slot: Option<Hypernetwork>, catalog: map<string, string>,
                                         load: string -> LoadOutcome, name: string,
                                         num: Numerics, context: Tensor)
    requires name in catalog && load(catalog[name]).Deserialized?
    requires Buildable(load(catalog[name]).stateDict)
    requires |context.shape| >= 3 && FeatureDim(context) in load(catalog[name]).stateDict
    ensures var sd := load(catalog[name]).stateDict[FeatureDim(context)];
      && |sd| >= 2 && NewUnit(FeatureDim(context), sd[0]).Ok? && NewUnit(FeatureDim(context), sd[1]).Ok?
      && ApplyHypernetwork(Step(slot, catalog, load, name), num, context)
         == (Forward(num, NewUnit(FeatureDim(context), sd[0]).value, context),
             Forward(num, NewUnit(FeatureDim(context), sd[1]).value, context))
  {
    var stateDict := load(catalog[name]).stateDict;
    var d := FeatureDim(context);
    assert Buildable(stateDict);
    assert NewPair(d, stateDict[d]).Ok?;
    var h := Step(slot, catalog, load, name);
    assert h == Construct(catalog[name], load);
    assert h.value.layers == LayersOf(stateDict);
    assert h.value.layers[d] == NewPair(d, stateDict[d]).value;
  }

  /** Loading a name that is not catalogued, then running attention, passes
      the context through unchanged to both projections. */
  lemma UnloadThenApply(slot: Option<Hypernetwork>, catalog: map<string, string>,
                        load: string -> LoadOutcome, name: string,
                        num: Numerics, context: Tensor)
    requires name !in catalog
    requires |context.shape| >= 3
    ensures ApplyHypernetwork(Step(slot, catalog, load, name), num, context) == (context, context)
  {
  }
}
