# Hypernetwork loading and attention hook, modelled in Dafny

This project models the bookkeeping of `modules/hypernetwork.py` in the
stable-diffusion web UI. That file discovers hypernetwork weight files, loads one
of them into a single process-wide slot, and hooks the active hypernetwork into
cross-attention. Tensors are opaque values. The model keeps only their shapes, and
the tensor arithmetic is a parameter.

- `Paths` (paths.dfy): POSIX `basename` and `splitext`, and the name of a
  weight file (`Stem`): its basename without its final extension. The
  hidden-file rule of `splitext` is included: `.pt` has no extension.
- `Catalog` (catalog.dfy): `list_hypernetworks` as a loop method over the
  paths the directory scan yielded. It is proved against `CatalogOf`, the fold
  that stores each path under its name. The lemmas about that fold (`IndexBy`)
  hold for any naming function; they give soundness, completeness, size and
  last-wins.
- `Units` (units.dfy): `HypernetworkModule`. Building a unit of width `dim`
  loads a state dict strictly. It succeeds exactly when the width is not
  negative and the dict has the four parameters of shapes `[2·dim, dim]`,
  `[2·dim]`, `[dim, 2·dim]` and `[dim]`. The forward pass is the residual
  `x + linear2(linear1(x))`. The linear layer and the addition come from a
  `Numerics` record, and `ShapeLawful` states their shape behaviour.
- `Hypernetworks` (hypernetwork.dfy): `Hypernetwork.__init__`. A hypernetwork
  is a value (file name, name, layers table), because nothing changes it after
  construction. Deserialising the file (`torch.load`) is a parameter
  `load: string -> LoadOutcome`. `NewHypernetwork` fills the table in a loop
  (`BuildEach`) and raises on the first width whose units cannot be built.
- `Loader` (loader.dfy): `load_hypernetwork`. The process-wide state is the
  class `Shared`: the catalog and the slot `loadedHypernetwork`. The method
  returns the log lines it would print. `Step` is the pure transition and `Run`
  folds it over a sequence of loads.
- `Attention` (attention.dfy): `apply_hypernetwork`, plus lemmas that connect
  a load with the next attention pass.

Two behaviours of the code are easy to misread, and the model follows the
code in both:

- A failed load does not discard the previous hypernetwork. The code assigns
  the slot only when construction succeeds (modules/hypernetwork.py:56). The
  `except` branch does not touch the slot, so the previous hypernetwork stays
  active (`Step`, `FailedLoadsAreInvisible`).
- The unit pair is chosen by `context.shape[2]`, not by the context's last
  dimension. The two agree only for the three-dimensional (batch, tokens,
  width) contexts that attention passes in. The model uses index 2
  (`FeatureDim`).

## Model

| member | source | states |
|---|---|---|
| Paths.Basename | modules/hypernetwork.py:46 | the basename has no '/', is a suffix of the path, and is preceded by '/' when it is shorter than the path |
| Paths.SplitExt | modules/hypernetwork.py:46 | root + ext is the input; ext is empty or one dot followed by no dot and no '/'; a non-empty ext leaves a root component that is not all dots; an empty ext means no dot follows a non-dot in the last component |
| Paths.Stem | modules/hypernetwork.py:35 | a hypernetwork's name has no '/' and is a prefix of the file's basename; a shorter name is cut at the basename's last dot and is not all dots; the whole basename is kept only when no dot follows a non-dot in it |
| Paths.StemOfPtFile | modules/hypernetwork.py:45-46 | a file `n.pt` found by the scan (n not starting with a dot) is named `n` |
| Paths.CutAtPt | modules/hypernetwork.py:35 | the only name that the naming rule allows for the basename `n.pt` is `n` |
| Paths.BasenameOfJoin | modules/hypernetwork.py:45-46 | a file in any sub-directory of the scanned root is named by its last path component |
| Catalog.ListHypernetworks | modules/hypernetwork.py:43-48 | the loop builds `CatalogOf(paths)`; every entry maps a name to a scanned path of that name, every scanned path's name is a key, and there are no more entries than paths |
| Catalog.IndexSound | modules/hypernetwork.py:45-47 | every entry of the table filled by the loop maps a name to a scanned path that has that name |
| Catalog.IndexKeys | modules/hypernetwork.py:44-48 | the table's keys are exactly the names of the scanned paths |
| Catalog.IndexSize | modules/hypernetwork.py:44-48 | the table has at most as many entries as paths were scanned |
| Catalog.IndexLastWins | modules/hypernetwork.py:45-47 | a name maps to the last scanned path with that name, whatever came earlier |
| Catalog.CatalogLastWins | modules/hypernetwork.py:45-47 | the same last-wins rule for the catalog keyed by basename without extension |
| Catalog.NestedFilesAreListed | modules/hypernetwork.py:45-47 | scanning `a.pt` and `sub/b.pt` lists both, under `a` and `b` |
| Units.NewUnit | modules/hypernetwork.py:16-23 | a unit is built exactly when the width is not negative and the state dict has exactly the unit's parameters with shapes dim -> 2·dim -> dim; the unit then holds exactly those tensors |
| Units.Forward | modules/hypernetwork.py:25-26 | the residual forward pass keeps the input's shape when the primitives obey their shape laws, the unit is well formed and the input's last dimension is the unit's width |
| Units.ForwardShape | modules/hypernetwork.py:19-26 | on a width-dim input, the intermediate is 2·dim wide and the residual output has the input's shape |
| Hypernetworks.NewPair | modules/hypernetwork.py:40 | a width's pair exists exactly when there are two unit states and both units build; the key unit comes from `sd[0]` and the value unit from `sd[1]`, both of that width |
| Hypernetworks.Construct | modules/hypernetwork.py:33-40 | construction succeeds exactly when the file deserialises and every width builds; the result is named after its file, has the file's widths as layer keys, and has well-formed layers; each width's pair is the one built from that width's `sd[0]` and `sd[1]` |
| Hypernetworks.NewHypernetwork | modules/hypernetwork.py:33-40 | the constructor succeeds exactly when `Construct` does and then returns the same hypernetwork; an undecodable file raises `Unreadable` |
| Hypernetworks.BuildEach | modules/hypernetwork.py:39-40 | the layers loop succeeds exactly when every entry builds, then yields the table of built entries; a failure is the error of some entry |
| Loader.Step | modules/hypernetwork.py:51-64 | an uncatalogued name empties the slot; a catalogued name that builds puts a hypernetwork from that catalog path in the slot; a failing one leaves the slot unchanged; well-formedness of the slot is preserved |
| Loader.Decisive | modules/hypernetwork.py:55-59 | it keeps exactly the requested loads that do not fail, and no more loads than were requested; it is empty exactly when every requested load fails |
| Loader.FailedLoadsAreInvisible | modules/hypernetwork.py:55-59 | a sequence of loads ends in the same slot as the same sequence without its failing loads |
| Loader.DecisiveLoadForgetsHistory | modules/hypernetwork.py:51-64 | after any load that does not fail, the slot no longer depends on its earlier contents |
| Loader.Shared.LoadHypernetwork | modules/hypernetwork.py:51-64 | the slot becomes `Step` of the old slot and the catalog is unchanged; the log is "Loading" followed by an error line exactly when building fails, or "Unloading" only when something was loaded before |
| Attention.ApplyHypernetwork | modules/hypernetwork.py:67-75 | with no hypernetwork or no units for the context's width, both outputs are the context; otherwise the key and value units of that width are applied |
| Attention.ApplyKeepsShape | modules/hypernetwork.py:67-75 | for a (batch, tokens, width) context and a well-formed hypernetwork, both outputs keep the context's shape |
| Attention.LoadThenApply | modules/hypernetwork.py:51-75 | after a successful load, attention on a width held by the file applies the units built from `sd[0]` and `sd[1]` of that width |
| Attention.UnloadThenApply | modules/hypernetwork.py:60-75 | after loading an uncatalogued name, attention passes the context through unchanged |

## Left out

- `attention_CrossAttention_forward` (modules/hypernetwork.py:78-103): it is floating-point tensor arithmetic in the framework (einsum, softmax, masking, rearrange). Only its call to `apply_hypernetwork` is modelled.
- Tensor numerics of `HypernetworkModule`: the linear layers and the addition are the `Numerics` parameter. Only their shape behaviour (`ShapeLawful`) is assumed. Device placement (`.to(device)`) is not modelled.
- Units.NewUnit: torch's strict loading reports which keys are missing or unexpected and which shapes mismatch. The model collapses all of these into one `StateDictMismatch` error, and it does not model dtype conversion.
- The recursive directory scan: its result is the input sequence of paths, in the order the scan yields them. The scan's own order is not specified.
- Deserialisation (`torch.load`): it is the parameter `load`. A file that is unreadable, corrupt, or not a mapping from integer width to unit states is `Undecodable`.
- Hypernetworks.BuildEach: Python visits widths in the file's insertion order. The model visits them in any order, so which width's error is reported on failure is not pinned down. Success and the resulting table do not depend on the order.
- Logging: printed lines are returned as `Message` values. The traceback text is left out.
- Exceptions that `except Exception` does not catch, such as a keyboard interrupt during loading, are not modelled.
- Filling the catalog (`shared.hypernetworks`) and the initial empty slot live in the shared module, which is not part of this model. `Shared`'s constructor takes the catalog as given.
- Attention.ApplyKeepsShape: it is stated only for three-dimensional contexts. For a context of more dimensions whose index-2 width matches but whose last width does not, the framework would raise inside the unit, and the model does not capture that.
- Running a unit twice on one input gives the same output: `Forward` is a mathematical function, so this holds by construction and has no lemma of its own.
- Attention.ApplyHypernetwork: requires a context of at least three dimensions. For a context of lower rank the code raises `IndexError` at modules/hypernetwork.py:68, even when no hypernetwork is loaded, and the model does not capture that error.
- Name derivation follows POSIX paths only. On Windows, `os.path` also splits at a backslash and after a drive letter such as `C:`, which `Paths` does not model.
- Concurrency: loads and attention passes are taken to be serialised by the host application. No interleaving is modelled.
