/** The hypernetwork catalog: every weight file found under the hypernetwork
    directory, keyed by its name (basename without extension). */
module Catalog {
  import opened Paths

  /** The table that storing each of `paths` in order under `nameOf` of it
      builds: a later path overwrites an earlier one of the same name. */
  function IndexBy(paths: seq<string>, nameOf: string -> string): map<string, string>
    decreases |paths|
  {
    if paths == [] then map[]
    else
      var last := paths[|paths| - 1];
      IndexBy(paths[..|paths| - 1], nameOf)[nameOf(last) := last]
  }

  /** The catalog that scanning `paths` in order builds: each path is stored
      under its hypernetwork name. */
  function CatalogOf(paths: seq<string>): map<string, string>
  {
    IndexBy(paths, Stem)
  }

  /** Builds the catalog from the files the directory scan yielded, in the
      order it yielded them. */
  method ListHypernetworks(paths: seq<string>) returns (res: map<string, string>)
    ensures res == CatalogOf(paths)
    ensures forall name :: name in res ==> res[name] in paths && Stem(res[name]) == name
    ensures forall p :: p in paths ==> Stem(p) in res
    ensures |res| <= |paths|
  {
    res := map[];
    var i := 0;
    while i < |paths|
      invariant 0 <= i <= |paths|
      invariant res == IndexBy(paths[..i], Stem)
    {
      var filename := paths[i];
      var name := Stem(filename);
      assert paths[..i + 1][..i] == paths[..i];
      res := res[name := filename];
      i := i + 1;
    }
    assert paths[..i] == paths;
    IndexSound(paths, Stem);
    IndexKeys(paths, Stem);
    IndexSize(paths, Stem);
  }

  /** Every entry maps a name to a stored path of that name. */
  lemma {:induction false} IndexSound(paths: seq<string>, nameOf: string -> string)
    ensures forall name :: name in IndexBy(paths, nameOf) ==>
      IndexBy(paths, nameOf)[name] in paths && nameOf(IndexBy(paths, nameOf)[name]) == name
  {
    if paths != [] {
      var init := paths[..|paths| - 1];
      IndexSound(init, nameOf);
      assert forall p :: p in init ==> p in paths;
    }
  }

  /** The keys are exactly the names of the stored paths. */
  lemma {:induction false} IndexKeys(paths: seq<string>, nameOf: string -> string)
    ensures IndexBy(paths, nameOf).Keys == set p | p in paths :: nameOf(p)
  {
    if paths != [] {
      var init := paths[..|paths| - 1];
      IndexKeys(init, nameOf);
      assert paths == init + [paths[|paths| - 1]];
    }
  }

  /** There are no more entries than paths. */
  lemma {:induction false} IndexSize(paths: seq<string>, nameOf: string -> string)
    ensures |IndexBy(paths, nameOf)| <= |paths|
  {
    if paths != [] {
      IndexSize(paths[..|paths| - 1], nameOf);
    }
  }

  /** Last wins: a name is mapped to the last stored path that has that
      name, whatever came before it. */
  lemma {:induction false} IndexLastWins(paths: seq<string>, nameOf: string -> string, j: nat)
    requires j < |paths|
    requires forall k :: j < k < |paths| ==> nameOf(paths[k]) != nameOf(paths[j])
    ensures nameOf(paths[j]) in IndexBy(paths, nameOf)
    ensures IndexBy(paths, nameOf)[nameOf(paths[j])] == paths[j]
  {
    if j < |paths| - 1 {
      var init := paths[..|paths| - 1];
      assert init[j] == paths[j];
      assert forall k :: j < k < |init| ==> init[k] == paths[k];
      IndexLastWins(init, nameOf, j);
    }
  }

  /** The catalog keeps, for each name, the last scanned path of that name. */
  lemma CatalogLastWins(paths: seq<string>, j: nat)
    requires j < |paths|
    requires forall k :: j < k < |paths| ==> Stem(paths[k]) != Stem(paths[j])
    ensures Stem(paths[j]) in CatalogOf(paths)
    ensures CatalogOf(paths)[Stem(paths[j])] == paths[j]
  {
    IndexLastWins(paths, Stem, j);
  }

  /** The scan of `a.pt` and `sub/b.pt` under the hypernetwork directory
      lists both, keyed by base name without extension, whatever the depth. */
  lemma NestedFilesAreListed(root: string)
    ensures CatalogOf([root + "/a.pt", root + "/sub/b.pt"])
      == map["a" := root + "/a.pt", "b" := root + "/sub/b.pt"]
  {
    var a, b := root + "/a.pt", root + "/sub/b.pt";
    IndexTwo(a, b, Stem);
    ExampleNames(root);
  }

  /** Storing two paths in turn. */
  lemma IndexTwo(a: string, b: string, nameOf: string -> string)
    ensures IndexBy([a, b], nameOf) == map[nameOf(a) := a][nameOf(b) := b]
  {
    assert [a, b][..1] == [a];
    assert [a][..0] == [];
    assert IndexBy([a], nameOf) == map[nameOf(a) := a];
    assert IndexBy([a, b], nameOf) == IndexBy([a], nameOf)[nameOf(b) := b];
  }

  /** The names of the two files of `NestedFilesAreListed`. */
  lemma ExampleNames(root: string)
    ensures Stem(root + "/a.pt") == "a" && Stem(root + "/sub/b.pt") == "b"
  {
    var a, b := root + "/a.pt", root + "/sub/b.pt";
    assert a == root + "/" + "a.pt";
    BasenameOfJoin(root, "a.pt");
    assert b == (root + "/sub") + "/" + "b.pt";
    BasenameOfJoin(root + "/sub", "b.pt");
    assert "a" + ".pt" == "a.pt" && "b" + ".pt" == "b.pt";
    StemOfPtFile(a, "a");
    StemOfPtFile(b, "b");
  }
}
