# ControlNet model registry — a Dafny model

This project models the model registry of the sd-webui-controlnet
extension (`scripts/global_state.py`):

- `traverse_all_files` walks a directory tree. It collects every entry
  whose `os.path.splitext` extension is `.pt`, `.pth`, `.ckpt` or
  `.safetensors`, and descends only into directories without such an
  extension. A name that is only periods before the extension, such as
  `.pt`, has no extension.
- `get_all_models` lists one root:
  - it filters by a case-insensitive substring of the base name;
  - it sorts by name, by date or by path;
  - it keys each file as `stem [hash]`.
- `update_cn_models` rebuilds the registry from every root:
  - the primary directory comes first, then the legacy directory, then the
    configured extra directories;
  - a `"None"` sentinel goes in front;
  - a lower-cased name index is rebuilt.
- The preprocessor display table `module_names` maps each preprocessor
  label to the name the interface shows.

Modules follow the program's layers:

- `Paths`: POSIX `os.path.join`, `basename` and `splitext`.
- `Text`: string order, `lower`, `in` and `strip(" ")`.
- `OrderedMaps`: Python's insertion-ordered dicts, as sequences of pairs.
- `Sorting`: Python's stable `sorted`.
- `Scanner`: the traversal.
- `Indexer`: `get_all_models`.
- `ModelRegistry`: `update_cn_models`.
- `ModuleNames`: the display table.

The file system is an immutable tree of `Entry` values. The content hash
(`sd_models.model_hash`) is a function parameter, and so are the sort and
filter settings that `update_cn_models` reads from `shared.opts`.

On a key collision the earliest root wins.
`cn_models.update({**found, **cn_models})` does this:

- keys already in the registry keep their value and position;
- only keys not yet seen are appended;
- the primary directory is merged first, then the legacy directory, then
  the extra roots in their configured order.

Two files share a key only when both their stem and their content hash
agree, so `a.ckpt` in one root and `a.safetensors` in another are listed
side by side unless their hashes are equal.

## Model

| member | source | states |
|---|---|---|
| Scanner.TraverseIsWalk | scripts/global_state.py:115-124 | Accumulator traversal = the accumulator followed by a reference walk in entry order. Model-named entries (directory or not) are emitted; other directories are entered; other files are dropped. |
| Scanner.WalkFindsExactly | scripts/global_state.py:115-124 | A file is emitted exactly when it is reached: an entry with a model extension, or inside a chain of directories whose names have none. Sound and complete. |
| Scanner.WalkOnlyModels | scripts/global_state.py:115-124 | Every emitted path, and its base name, has one of the four extensions, matched case-sensitively. |
| Paths.ExtJoin | scripts/global_state.py:116-120 | The extension test on the joined path equals the test on the entry name, including names that are only leading periods. |
| Paths.BasenameJoin | scripts/global_state.py:116 | The base name of a joined path is the entry name. |
| Paths.SplitExtParts | scripts/global_state.py:143 | `splitext` root and extension concatenate back to the path. The extension is empty, or a period followed by no period and no separator. It is non-empty exactly when the last component has a period after some other character. |
| Text.StripSpaces | scripts/global_state.py:130 | The result is the input with only spaces removed at both ends. It neither starts nor ends with a space, and it is empty exactly when the filter is all spaces. |
| Text.Contains | scripts/global_state.py:132-133 | `needle in hay` holds exactly when the needle occurs at some position. |
| Text.LowerPointwise | scripts/global_state.py:132-133 | Lower-casing maps each character on its own and leaves no upper-case letter. |
| Text.StrLeIsLexicographic | scripts/global_state.py:135 | The string order used by `sorted` is the lexicographic order on code points: a prefix, or a smaller character at the first difference. |
| Indexer.ApplyFilter | scripts/global_state.py:130-133 | An all-space filter keeps every file unchanged. Otherwise a file is kept exactly when the stripped filter occurs in its base name, case-insensitively. |
| Indexer.KeepMatchingConcat | scripts/global_state.py:132-133 | Filtering distributes over concatenation, so kept files stay in traversal order. |
| Indexer.SortFilesOrders | scripts/global_state.py:134-139 | "name" orders by base name, "date" newest first, "path name" by path. Each is a permutation, and files with equal keys keep their traversal order. Any other setting leaves the order unchanged. |
| Sorting.SortStable | scripts/global_state.py:135-139 | Sorting keeps the relative order of elements with equal keys. |
| Sorting.SortSorted | scripts/global_state.py:135-139 | Under a total preorder, sorting yields a sequence ordered pairwise. |
| Indexer.KeyedPaths | scripts/global_state.py:141-146 | Every assignment maps `stem [hash]` of its path to that path, and no path has stem `None`. |
| Indexer.KeyedPathsHas | scripts/global_state.py:141-146 | Every file whose stem is not `None` gets its assignment. |
| Indexer.KeyedPathsFrom | scripts/global_state.py:141-146 | Every assignment is for one of the files. |
| Indexer.GetAllModels | scripts/global_state.py:127-148 | The listing has distinct keys, each `stem [hash]` of its path, and no stem is `None`. |
| Indexer.GetAllModelsLists | scripts/global_state.py:127-148 | Every file that is walked, passes the filter and is not named `None` has its key in the listing. Every entry maps to such a file. |
| Indexer.KeyedPathsConcat | scripts/global_state.py:141-146 | The assignments for two runs of files are those of the first run followed by those of the second, so keying keeps the sorted file order. |
| Indexer.GetAllModelsOrder | scripts/global_state.py:128-148 | The listing's keys come in the order of their first file in sorted order, each key holds the path of its last file, and without repeated keys the listing is exactly the keyed files in sorted order. |
| OrderedMaps.GetUpdate | scripts/global_state.py:146 | After repeated `d[k] = v`, a key holds the value of its last assignment, or its old value if never assigned. |
| OrderedMaps.FromPairsOrder | scripts/global_state.py:146 | A dict built by assigning pairs in order has each key once, exactly the keys assigned, and a repeated key stays at the position of its first assignment. |
| OrderedMaps.FromPairsValues | scripts/global_state.py:146 | In that dict every key holds the value of its last assignment. |
| OrderedMaps.MergeKeepsExisting | scripts/global_state.py:163 | `d.update({**found, **d})` = `d` followed by `found`'s entries for new keys, in `found`'s order. |
| ModelRegistry.Present | scripts/global_state.py:153-155 | The extra roots used are exactly the configured, existing ones. |
| ModelRegistry.PresentConcat | scripts/global_state.py:153-156 | Selecting the extra roots keeps their configured order: it distributes over concatenation. |
| ModelRegistry.PresentSingle | scripts/global_state.py:154-155 | One setting contributes its root when set and existing, and nothing otherwise. |
| ModelRegistry.RefreshRoots | scripts/global_state.py:153-162 | The roots are merged in the order primary, legacy, then the present extra roots in configured order, each listed by `get_all_models`. |
| ModelRegistry.MergeLoopIsMerged | scripts/global_state.py:158-163 | Merging root by root = appending each root's unseen keys, and keys stay distinct. |
| ModelRegistry.MergedKeys | scripts/global_state.py:158-163 | The merged keys are exactly the keys of the starting registry and of the roots. |
| ModelRegistry.EarliestRootWins | scripts/global_state.py:163 | An entry of root `i` whose key no earlier root lists is in the merged registry unchanged. |
| ModelRegistry.EarliestRootDecides | scripts/global_state.py:163 | No other merged entry carries that key, so the earliest root decides its value. |
| ModelRegistry.ModelKeyIsNotNone | scripts/global_state.py:146 | A display key always contains a space, so it never equals the sentinel key `None`. |
| ModelRegistry.SentinelFirst | scripts/global_state.py:165-168 | Re-inserting through the sentinel yields `("None", None)` followed by the merged entries, with order and values kept. |
| ModelRegistry.FoundsWellFormed | scripts/global_state.py:158-162 | Every root's listing has distinct, well-formed keys. |
| ModelRegistry.RebuildShape | scripts/global_state.py:151-168 | The sentinel is first and is the only entry without a path. The rest is the merged listing in order, each entry keyed `stem [hash]` of its path. Keys are distinct. |
| ModelRegistry.IndexByDomain | scripts/global_state.py:170-175 | A name is indexed exactly when some entry with a path carries it. |
| ModelRegistry.IndexByLastWins | scripts/global_state.py:170-175 | An indexed name maps to the key of the last entry that carries it. |
| ModelRegistry.RebuildNames | scripts/global_state.py:170-175 | Each name is the lower-cased stem of an entry with a path. It maps to the key of the last such entry, never to the sentinel, and every such stem is indexed. |
| ModelRegistry.RefreshShape | scripts/global_state.py:151-168 | After `update_cn_models()` the registry is the sentinel followed by the roots' merged listings in order, with distinct keys each `stem [hash]` of its path. |
| ModelRegistry.RefreshNames | scripts/global_state.py:170-175 | After `update_cn_models()` each indexed name is the lower-cased stem of an entry with a path and maps to the key of the last such entry; every such stem is indexed. |
| ModuleNames.DisplayTable | scripts/global_state.py:98-101 | The table exists exactly when `none` is a label or a renamed key. Otherwise `del` raises. |
| ModuleNames.DisplayTableShape | scripts/global_state.py:101-103 | The table starts with `('none', 'none')`, and no other entry is keyed `none`. The rest is a stable permutation of the renamed table without `none`, sorted by display name. |
| ModuleNames.DisplayTableEntries | scripts/global_state.py:78-99 | A key other than `none` is listed exactly when it is a label or a renamed key. It maps to its last rename, or else to itself, so a renamed key that is not a label is listed too, as `module_names[k] = v` adds it. |
| ModuleNames.ModuleNamesBuilt | scripts/global_state.py:15-103 | For the actual labels and renames, the table is built and starts with `('none', 'none')`. |

## Left out

- File-system I/O is left out. `os.scandir`, `entry.stat()` and
  `os.path.exists` are replaced by an immutable tree of entries, and
  `os.makedirs` is not modelled.
- Only the modification time is kept from `stat`, as an integer. Python's
  float `st_mtime` is not modelled.
- Symbolic links, and errors raised while listing, are not modelled.
- The primary and legacy roots are always listed. In the source a missing
  primary or legacy directory makes `os.scandir` raise. Only the extra
  roots are filtered for existence.
- `sd_models.model_hash` is an arbitrary function parameter. Hashing file
  contents is outside the model.
- `shared.opts` and `shared.cmd_opts` are not read. The sort and filter
  settings and the extra roots are parameters.
- `Text.Lower`: lower-casing covers ASCII letters only, not Python's
  Unicode `str.lower`.
- `Indexer.SortFilesOrders`: "path name" compares paths only. Python
  compares `(path, stat)` tuples. In a real directory sibling names are
  distinct, so the paths of one traversal are too and the `stat` part is
  never consulted. The entry tree does not require distinct sibling names;
  for a tree that repeats a path, equal paths keep their traversal order
  here, where Python would order them by their `stat` values.
- Paths use `/` as the only separator. Windows paths are not modelled.
- The preprocessor functions and `cn_preprocessor_unloadable` map
  callables, which are not modelled. Only the table's labels are.
- The constants `default_conf`, `default_conf_adapter`,
  `cn_detectedmap_dir` and `script_dir` are not modelled. They are fixed
  path strings with no behaviour.
- `cn_models` and `cn_models_names` are module-level mutable state in the
  source. The model returns a fresh `Registry` value from `Refresh`.
  Nothing of the previous registry survives a refresh, so the result
  depends only on the roots.
