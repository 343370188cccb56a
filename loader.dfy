/** Loading and unloading the active hypernetwork: one process-wide slot,
    either empty or holding the hypernetwork last loaded successfully. */
module Loader {
  import opened Results
  import opened Paths
  import opened Hypernetworks

  /** A line the loader writes to the log. */
  datatype Message =
    | Loading(name: string)    // on standard output, before loading a catalogued name
    | LoadError(path: string)  // on standard error, with the traceback, when loading raised
    | Unloading                // on standard output, when a loaded hypernetwork is dropped

  /** A load fails when the name is catalogued but building from its file
      raises. */
  predicate Fails(catalog: map<string, string>, load: string -> LoadOutcome, name: string)
  {
    name in catalog && Construct(catalog[name], load).None?
  }

  /** The slot after loading `name`: an unknown name empties it, a name
      whose file builds puts that hypernetwork in it, and a name whose file
      fails to build leaves it as it was. */
  function Step(slot: Option<Hypernetwork>, catalog: map<string, string>,
                load: string -> LoadOutcome, name: string): (next: Option<Hypernetwork>)
    ensures name !in catalog ==> next == None
    ensures name in catalog && !Fails(catalog, load, name) ==>
      && next.Some? && next.value.filename == catalog[name] && next.value.name == Stem(catalog[name])
      && next.value.layers.Keys == load(catalog[name]).stateDict.Keys
    ensures Fails(catalog, load, name) ==> next == slot
    ensures (slot.Some? ==> WellFormed(slot.value)) ==> (next.Some? ==> WellFormed(next.value))
  {
    if name in catalog then
      var built := Construct(catalog[name], load);
      if built.Some? then built else slot
    else
      None
  }

  /** The slot after loading each of `names` in turn, starting from `slot`. */
  function Run(slot: Option<Hypernetwork>, catalog: map<string, string>,
               load: string -> LoadOutcome, names: seq<string>): Option<Hypernetwork>
    decreases |names|
  {
    if names == [] then slot
    else Step(Run(slot, catalog, load, names[..|names| - 1]), catalog, load, names[|names| - 1])
  }

  /** The loads among `names` that do not fail, in order. */
  function Decisive(catalog: map<string, string>, load: string -> LoadOutcome,
                    names: seq<string>): (d: seq<string>)
    ensures |d| <= |names|
    ensures forall n :: n in d ==> n in names && !Fails(catalog, load, n)
    ensures forall i :: 0 <= i < |names| && !Fails(catalog, load, names[i]) ==> names[i] in d
    ensures d == [] <==> forall n :: n in names ==> Fails(catalog, load, n)
    decreases |names|
  {
    if names == [] then []
    else
      var init := names[..|names| - 1];
      var kept := Decisive(catalog, load, init);
      var last := names[|names| - 1];
      assert forall i :: 0 <= i < |init| ==> init[i] == names[i];
      assert forall n :: n in names ==> n in init || n == last;
      if Fails(catalog, load, last) then kept else kept + [last]
  }

  /** A failed load leaves no trace: loading `names` ends in the same slot
      as loading only those of them that do not fail. */
  lemma {:induction false} FailedLoadsAreInvisible(slot: Option<Hypernetwork>, catalog: map<string, string>,
                                                   load: string -> LoadOutcome, names: seq<string>)
    ensures Run(slot, catalog, load, names) == Run(slot, catalog, load, Decisive(catalog, load, names))
    decreases |names|
  {
    if names != [] {
      var init := names[..|names| - 1];
      var last := names[|names| - 1];
      FailedLoadsAreInvisible(slot, catalog, load, init);
      var d := Decisive(catalog, load, init);
      if !Fails(catalog, load, last) {
        assert (d + [last])[..|d|] == d;
      }
    }
  }

  /** Once a load that does not fail has happened, the slot no longer
      depends on what it held before. */
  lemma {:induction false} DecisiveLoadForgetsHistory(s1: Option<Hypernetwork>, s2: Option<Hypernetwork>,
                                                      catalog: map<string, string>,
                                                      load: string -> LoadOutcome, names: seq<string>)
    requires Decisive(catalog, load, names) != []
    ensures Run(s1, catalog, load, names) == Run(s2, catalog, load, names)
    decreases |names|
  {
    var init := names[..|names| - 1];
    if Fails(catalog, load, names[|names| - 1]) {
      DecisiveLoadForgetsHistory(s1, s2, catalog, load, init);
    }
  }

  /** The process-wide state the loader works on. */
  class Shared {
    /** The catalog of hypernetwork files, name to path. */
    var hypernetworks: map<string, string>
    /** The active hypernetwork, if any. */
    var loadedHypernetwork: Option<Hypernetwork>

    ghost predicate Valid()
      reads this
    {
      loadedHypernetwork.Some? ==> WellFormed(loadedHypernetwork.value)
    }

    constructor (catalog: map<string, string>)
      ensures Valid()
      ensures hypernetworks == catalog && loadedHypernetwork == None
    {
      hypernetworks := catalog;
      loadedHypernetwork := None;
    }

    /** Loads the catalogued hypernetwork `filename` into the slot, or
        empties the slot when the name is not catalogued. A load that raises
        is logged and otherwise ignored; nothing propagates to the caller. */
    method LoadHypernetwork(filename: string, load: string -> LoadOutcome) returns (log: seq<Message>)
      requires Valid()
      modifies this`loadedHypernetwork
      ensures Valid()
      ensures loadedHypernetwork == Step(old(loadedHypernetwork), hypernetworks, load, filename)
      ensures filename in hypernetworks ==>
        log == [Loading(filename)] + (if Fails(hypernetworks, load, filename) then [LoadError(hypernetworks[filename])] else [])
      ensures filename !in hypernetworks ==>
        log == (if old(loadedHypernetwork).Some? then [Unloading] else [])
    {
      var path := if filename in hypernetworks then Some(hypernetworks[filename]) else None;
      if path.Some? {
        log := [Loading(filename)];
        var built := NewHypernetwork(path.value, load);
        match built
        case Ok(h) =>
          loadedHypernetwork := Some(h);
        case Err(_) =>
          log := log + [LoadError(path.value)];
      } else {
        log := if loadedHypernetwork.Some? then [Unloading] else [];
        loadedHypernetwork := None;
      }
    }
  }
}
