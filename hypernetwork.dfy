/** A hypernetwork: a name, the file it was loaded from, and for each feature
    width found in that file a pair of units, one for keys and one for
    values. It is never changed after it is built. */
module Hypernetworks {
  import opened Results
  import opened Paths
  import opened Units

  datatype Hypernetwork = Hypernetwork(filename: string, name: string, layers: map<int, (Unit, Unit)>)

  /** What deserialising a weight file gives: a mapping from feature width
      to the saved states of its units, or nothing usable (an unreadable or
      corrupt file, or an object that is not such a mapping). */
  datatype LoadOutcome = Deserialized(stateDict: map<int, seq<StateDict>>) | Undecodable

  /** Why building a hypernetwork raises. */
  datatype BuildError =
    | Unreadable                            // deserialisation failed
    | MissingUnitState(size: int)           // fewer than two unit states at a width
    | BadUnit(size: int, error: UnitError)  // a unit of that width could not be built

  /** The unit pair of width `size`: the key unit from `sd[0]`, then the
      value unit from `sd[1]`, in that order. */
  function NewPair(size: int, sd: seq<StateDict>): (r: Result<(Unit, Unit), BuildError>)
    ensures r.Ok? <==> |sd| >= 2 && NewUnit(size, sd[0]).Ok? && NewUnit(size, sd[1]).Ok?
    ensures r.Ok? ==> r.value.0.dim == size && r.value.1.dim == size
    ensures r.Ok? ==> Parameters(r.value.0) == sd[0] && Parameters(r.value.1) == sd[1]
  {
    if |sd| < 1 then Err(MissingUnitState(size))
    else match NewUnit(size, sd[0])
      case Err(e) => Err(BadUnit(size, e))
      case Ok(k) =>
        if |sd| < 2 then Err(MissingUnitState(size))
        else match NewUnit(size, sd[1])
          case Err(e) => Err(BadUnit(size, e))
          case Ok(v) => Ok((k, v))
  }

  /** `build` succeeds on every entry of `m`. */
  predicate AllBuild<K, V, T, E>(m: map<K, V>, build: (K, V) -> Result<T, E>)
  {
    forall k :: k in m ==> build(k, m[k]).Ok?
  }

  /** The table of what `build` makes of each entry of `m`. */
  function BuiltTable<K, V, T, E>(m: map<K, V>, build: (K, V) -> Result<T, E>): map<K, T>
    requires AllBuild(m, build)
  {
    map k | k in m :: build(k, m[k]).value
  }

  /** Every width of the file yields a unit pair. */
  predicate Buildable(stateDict: map<int, seq<StateDict>>)
  {
    AllBuild(stateDict, NewPair)
  }

  /** The layers table of a buildable file: the same widths, each with the
      pair built from that width's unit states. */
  function LayersOf(stateDict: map<int, seq<StateDict>>): map<int, (Unit, Unit)>
    requires Buildable(stateDict)
  {
    BuiltTable(stateDict, NewPair)
  }

  /** Each width maps to two well-shaped units of that very width. */
  predicate ValidLayers(layers: map<int, (Unit, Unit)>)
  {
    forall size :: size in layers ==>
      && layers[size].0.dim == size && ValidUnit(layers[size].0)
      && layers[size].1.dim == size && ValidUnit(layers[size].1)
  }

  /** A hypernetwork is named after its file, and its layers are valid. */
  predicate WellFormed(h: Hypernetwork)
  {
    h.name == Stem(h.filename) && ValidLayers(h.layers)
  }

  /** The hypernetwork that loading `filename` produces, or None when loading
      raises; `load` stands for deserialising the file. */
  function Construct(filename: string, load: string -> LoadOutcome): (h: Option<Hypernetwork>)
    ensures h.Some? <==> load(filename).Deserialized? && Buildable(load(filename).stateDict)
    ensures h.Some? ==> WellFormed(h.value) && h.value.filename == filename
    ensures h.Some? ==> h.value.layers.Keys == load(filename).stateDict.Keys
    ensures h.Some? ==> forall size :: size in h.value.layers ==>
      NewPair(size, load(filename).stateDict[size]) == Ok(h.value.layers[size])
  {
    match load(filename)
    case Undecodable => None
    case Deserialized(sd) =>
      if Buildable(sd) then Some(Hypernetwork(filename, Stem(filename), LayersOf(sd)))
      else None
  }

  /** Builds the hypernetwork stored in `filename`: derives its name, loads
      the file and fills its layers table, raising when the file cannot be
      deserialised or a width's units cannot be built. */
  method NewHypernetwork(filename: string, load: string -> LoadOutcome)
    returns (r: Result<Hypernetwork, BuildError>)
    ensures r.Ok? <==> Construct(filename, load).Some?
    ensures r.Ok? ==> r.value == Construct(filename, load).value
    ensures r.Err? && load(filename).Undecodable? ==> r.error == Unreadable
  {
    var name := Stem(filename);
    var outcome := load(filename);
    if outcome.Undecodable? {
      return Err(Unreadable);
    }
    var layers := BuildEach(outcome.stateDict, NewPair);
    if layers.Err? {
      return Err(layers.error);
    }
    r := Ok(Hypernetwork(filename, name, layers.value));
  }

  /** The loop that fills a hypernetwork's layers table, for any builder:
      applies `build` to each entry in turn, in whatever order the file
      lists them, and stops at the first failure. */
  method BuildEach<K, V, T, E>(m: map<K, V>, build: (K, V) -> Result<T, E>)
    returns (r: Result<map<K, T>, E>)
    ensures r.Ok? <==> AllBuild(m, build)
    ensures r.Ok? ==> r.value == BuiltTable(m, build)
    ensures r.Err? ==> exists k :: k in m && build(k, m[k]) == Err(r.error)
  {
    var table: map<K, T> := map[];
    var todo := m.Keys;
    while todo != {}
      invariant todo <= m.Keys
      invariant table.Keys == m.Keys - todo
      invariant forall k :: k in table ==> build(k, m[k]) == Ok(table[k])
      decreases |todo|
    {
      var k :| k in todo;
      var item := build(k, m[k]);
      if item.Err? {
        return Err(item.error);
      }
      table := table[k := item.value];
      todo := todo - {k};
    }
    assert table == BuiltTable(m, build);
    r := Ok(table);
  }
}
