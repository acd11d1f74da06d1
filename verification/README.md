# gitinclude in Dafny

`gitinclude.py` turns a dictionary `{relative_path: [extension, ...]}` into the
lines of a `.gitignore` that ignores everything except the listed directories
and, inside them, the listed extensions. Its work is done in two steps:

- `path_dict_to_ordered_dict` normalises each path. It inserts every
  separator-terminated ancestor of the path into an `OrderedDict` as a
  placeholder `None`, unless that ancestor is already there. Then it assigns
  `path + sep` its extension list.
- `generate` writes `*`. Then, for each entry in table order, it writes
  `!/path` and `/path*`, followed by `!/path<ext>` for each of the entry's
  extensions.

The model has three modules:

- `Paths` (`paths.dfy`): the separator, the segments of a path, the normal
  form `os.path.normpath` leaves a relative directory path in, and
  separator-terminated prefixes.
- `OrderedDicts` (`ordered_dict.dfy`): the part of `collections.OrderedDict`
  the script uses. It is an insertion order of distinct keys plus a lookup.
  `d[k] = v` appends a new key and replaces the value of an existing key in
  place.
- `GitInclude` (`gitinclude.dfy`):
  - both functions, as methods with the script's loops;
  - the specifications they are proved against;
  - lemmas about those specifications;
  - the script's own example.

**The table.** `PathDictToOrderedDict` is proved equal to `TableAfter`, the
table after all assignments, and to meet `IsTableOf`:

- its keys are exactly the separator-terminated prefixes of the assigned keys;
- each key holds the list of the last item assigned under it, or `None`;
- keys are listed in the order they are first needed. For one item this is
  shortest first, so ancestors come first.

`TableDetermined` shows that these properties fix the table.

**The lines.** `Generate` is proved to meet `IsGitignoreOf`: line 0 is `*`,
and each entry has its block of lines at the position `BlockStart` gives.
`OutputDetermined` shows that this fixes the lines. `Demo` proves what the script's own example run produces, line by line.

Keys are relative paths such as `test/`. `generate` always puts the separator
in front of the key and has no special case for a root path. Each entry's
extension lines come right after its own `!/path` and `/path*` lines.

## Model

| member | source | states |
|---|---|---|
| Paths.Segments | gitinclude.py:21 | `q.split(sep)` has at least one piece. The last piece is empty exactly when `q` is empty or ends with the separator. |
| Paths.SegmentsHaveNoSep | gitinclude.py:21 | No piece of a split path contains the separator. |
| Paths.SegmentsAfterSep | gitinclude.py:21 | Splitting `q + sep + s`, where `s` has no separator, gives the pieces of `q` followed by `s`. |
| Paths.NormPath | gitinclude.py:21 | On a path that is normal up to one trailing separator, `normpath` gives a normal path that does not end with the separator. The input is that path, or that path plus one separator. |
| Paths.SepPrefixes | gitinclude.py:24-26 | The prefixes `relative_path[:i+1]` taken at separator positions are exactly the separator-terminated prefixes of the path. |
| OrderedDicts.OrderedDict.Assign | gitinclude.py:28-30 | `d[k] = v` sets the value of `k` to `v` and leaves the other values alone. An existing key keeps its place; a new key goes to the end. |
| OrderedDicts.AssignValid | gitinclude.py:28-30 | Assigning keeps every key once in the order, and keeps the order in step with the lookup. |
| GitInclude.DirKey | gitinclude.py:21-30 | The key `normpath(path) + sep` ends with the separator. On an accepted path it is the path itself when that already ends with the separator, and otherwise the path with one separator appended. |
| GitInclude.Assignments | gitinclude.py:19-30 | There is one assignment per input item, in input order, and every key ends with the separator (`KeysEndWithSep`). The key of an item is its path when that ends with the separator, and otherwise the path plus one separator. Its value is the item's extensions. |
| GitInclude.PathDictToOrderedDict | gitinclude.py:7-33 | The result is the table `TableAfter` of all assignments and meets `IsTableOf`. Every key ends with the separator. Every separator-terminated proper prefix of a key is a key listed before it. |
| GitInclude.TableAfterStep | gitinclude.py:19-30 | One pass of the outer loop runs the inner loop over `normpath(path)`, then assigns `normpath(path) + sep`. |
| GitInclude.AddAncestors | gitinclude.py:24-28 | The inner loop adds exactly the separator-terminated prefixes of the path that were missing, each as `None`. It changes no existing value. The keys already present keep their places, and the added ones follow them in the order of `SepPrefixes`, shortest first. |
| GitInclude.AncestorKeyOrder | gitinclude.py:24-28 | After scanning `i` characters, the key order is the old order followed by the missing separator-terminated prefixes of those characters, shortest first. |
| GitInclude.Missing | gitinclude.py:27 | The prefixes the loop appends are exactly the listed ones that are not yet keys, kept in their order. |
| GitInclude.AncestorsSamePrefix | gitinclude.py:24-26 | The inner loop depends only on the characters it has scanned, so scanning `relative_path` and scanning `relative_path + sep` agree up to its length. |
| GitInclude.AncestorKeys | gitinclude.py:24-28 | After scanning `i` characters, a key is present exactly when it was present before or is a separator-terminated prefix of length at most `i`. |
| GitInclude.AncestorValues | gitinclude.py:27-28 | Placeholder insertion never overwrites: a key already present keeps its value, and every added key holds `None`. |
| GitInclude.AncestorOrder | gitinclude.py:24-28 | The keys the inner loop appends are first needed by the current item and come shortest first. The demand order is preserved. |
| GitInclude.TableValid | gitinclude.py:18-30 | The table after any number of items has distinct keys, and its order lists exactly its lookup keys. |
| GitInclude.TableKeys | gitinclude.py:19-30 | After `n` items the keys are exactly the separator-terminated prefixes of their keys. Nothing else is inserted. |
| GitInclude.TableValues | gitinclude.py:27-30 | After `n` items each key holds the list last assigned to it, or `None` if it was only ever an ancestor. |
| GitInclude.TableOrder | gitinclude.py:19-30 | After `n` items the keys are listed in the order in which the items first need them. |
| GitInclude.TableShape | gitinclude.py:26-30 | In the final table every key ends with the separator and comes after its separator-terminated proper prefixes. |
| GitInclude.TableAfterIsTable | gitinclude.py:18-33 | The table built from all items meets `IsTableOf`. |
| GitInclude.AncestorsPrecede | gitinclude.py:24-30 | In any table meeting `IsTableOf`, each separator-terminated proper prefix of a key is a key listed before it. |
| GitInclude.DemandOrderUnique | gitinclude.py:19-30 | Two key orders with the same keys, both in demand order, are equal. |
| GitInclude.TableDetermined | gitinclude.py:7-33 | Any two tables meeting `IsTableOf` for the same items are equal. |
| GitInclude.ValueIffDeclared | gitinclude.py:27-30 | A key holds an extension list exactly when some item is assigned under it. Keys that arise only as ancestors hold `None`. |
| GitInclude.LastAssignmentWins | gitinclude.py:30 | A key holds the list of the last item assigned under it, even when it was first inserted as a placeholder. |
| GitInclude.Generate | gitinclude.py:36-54 | The result is `*` followed by one block per entry, in table order, and nothing else. Its length is 1 plus the sum over entries of 2 plus their extension count. |
| GitInclude.AppendBlock | gitinclude.py:49-52 | The loop body appends `!/path` and `/path*`, then `!/path<ext>` for each extension in order, and keeps the lines before. |
| GitInclude.BlocksAppend | gitinclude.py:48-52 | Appending an entry's block after the blocks of the entries before it gives the blocks of one more entry. |
| GitInclude.LineCount | gitinclude.py:47-52 | The blocks of the first `n` entries end at line 1 + 2n + their extension count. `None` counts as zero extensions. |
| GitInclude.BlocksInOrder | gitinclude.py:48-52 | Blocks do not overlap and follow table order. |
| GitInclude.BlockOf | gitinclude.py:47-52 | Every line after `*` lies in the block of some entry. |
| GitInclude.OutputDetermined | gitinclude.py:36-54 | Any two line lists meeting `IsGitignoreOf` for the same table are equal, so running `generate` twice gives the same output. |
| GitInclude.AncestorsUnignoredFirst | gitinclude.py:19-52 | For each input item, the output un-ignores every ancestor directory of the item's key before it un-ignores the key itself. |
| GitInclude.AncestorLineFirst | gitinclude.py:19-52 | For one item and one ancestor of its key, the line `!/ancestor` comes before the line `!/key`. |
| GitInclude.Demo | gitinclude.py:57-61 | The example `{"test/test1/test2/": ["*.txt", "*.cpp"], "test/": ["*.txt"]}` gives this table: `test/` holds `["*.txt"]`, `test/test1/` holds `None`, and `test/test1/test2/` holds `["*.txt", "*.cpp"]`, in that order. It then gives the ten lines `*`, `!/test/`, `/test/*`, `!/test/*.txt`, `!/test/test1/`, `/test/test1/*`, `!/test/test1/test2/`, `/test/test1/test2/*`, `!/test/test1/test2/*.txt`, `!/test/test1/test2/*.cpp`. |
| GitInclude.DemoTable | gitinclude.py:58-60 | The example's table, in the order `test/`, `test/test1/`, `test/test1/test2/`, with `test/` holding the list assigned after its placeholder. |
| GitInclude.DemoLines | gitinclude.py:60-61 | The example's ten lines are `generate` of the example's table. |

## Left out

- `os.path.normpath` (gitinclude.py:21) is modelled only on relative paths that are already normal, up to one trailing separator. That means no empty, `.` or `..` segment, no doubled separator and no leading separator. On those, `normpath` just drops the trailing separator.
  - The precondition `PathsWellFormed` excludes every other path. Some of these `normpath` would rewrite, such as `""` (to `.`), `"a//b"`, `"a/./b"` and `"a/../b"`.
  - Absolute paths such as `"/"` or `"/test/"` are excluded too, although `normpath` leaves them unchanged apart from dropping a trailing separator. `IsNormal` forbids the empty first segment a leading separator gives. For `"/test/"` the script would insert the key `"/"` as a placeholder, because the inner loop finds a separator at index 0 (gitinclude.py:24-28). It would then assign `"/test/"` (gitinclude.py:30), and `generate` would write `!//` and `//*` for the key `"/"` (gitinclude.py:49-50). The model does not cover this.
  - The Windows separator `\` is also out. The separator is fixed to `/`.
- The input dictionary is a sequence of (path, extensions) items in its iteration order, which is insertion order for Python 3.7 and later dictionaries. The sequence may contain two items whose paths normalise to the same key, as `"a"` and `"a/"` do. The model covers that case: the later item's list wins.
- The table and the output list are values that each loop step reassigns, not objects updated in place. Neither is aliased in the script, so nothing observable is lost. What is lost is object identity: the script stores the input's own list objects as values, and a later mutation of an input list would show through them.
- The inner loops of both functions are separate methods, `AddAncestors` and `AppendBlock`. This keeps each proof small; their statements are the same as in the script.
- `extensions or []` (gitinclude.py:51) is modelled for the two values the table holds, `None` and a list. An empty list and `None` both give no extension lines. Other falsy values cannot occur in the model's types.
- The `__main__` block's `print("\n".join(...))` (gitinclude.py:61) is output only. `Demo` returns the table and the lines instead of printing them.
- The script reads no rules file, writes no file and has no command line, so none of these is modelled.
