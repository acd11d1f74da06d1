/** gitinclude.py: from a dictionary `{relative_path: [extension, ...]}` build
    an ordered table that also lists every ancestor directory
    (`path_dict_to_ordered_dict`), then turn that table into the lines of a
    `.gitignore` that ignores everything except those directories and
    extensions (`generate`). */
module GitInclude {
  import opened Paths
  import opened OrderedDicts

  /** One item of a dictionary `{path: [extension, ...]}`, in iteration order. */
  datatype PathEntry = PathEntry(path: string, extensions: seq<string>)

  /** Every input path is one whose normalisation the model covers. */
  ghost predicate PathsWellFormed(pathDict: seq<PathEntry>)
  {
    forall i :: 0 <= i < |pathDict| ==> WellFormedPath(pathDict[i].path)
  }

  /** The key `normpath(path) + sep` under which an input path is assigned. */
  function DirKey(path: string): (k: string)
    requires WellFormedPath(path)
    ensures EndsWithSep(k)
    ensures k == if EndsWithSep(path) then path else path + [SEP]
  {
    NormPath(path) + [SEP]
  }

  /** The assignments `ordered_dict[relative_path + sep] = extensions` that
      `path_dict_to_ordered_dict` makes, one per input item, in input order. */
  function Assignments(pathDict: seq<PathEntry>): (r: seq<PathEntry>)
    requires PathsWellFormed(pathDict)
    ensures |r| == |pathDict| && KeysEndWithSep(r)
    ensures forall i :: 0 <= i < |r| ==>
              && r[i].path == (if EndsWithSep(pathDict[i].path) then pathDict[i].path else pathDict[i].path + [SEP])
              && r[i].extensions == pathDict[i].extensions
  {
    seq(|pathDict|, i requires 0 <= i < |pathDict| => PathEntry(DirKey(pathDict[i].path), pathDict[i].extensions))
  }

  /** Every assigned key ends with the separator, as `relative_path + sep`
      does. */
  ghost predicate KeysEndWithSep(assignments: seq<PathEntry>)
  {
    forall i :: 0 <= i < |assignments| ==> EndsWithSep(assignments[i].path)
  }

  // ---------------------------------------------------------------------
  // What the table built from the first n assignments holds. Below,
  // `assignments` is always a sequence of (key, extensions) pairs whose keys
  // already end with the separator.
  // ---------------------------------------------------------------------

  /** Entry `i` needs `k` in the table: `k` is its key or an ancestor of it
      ending in the separator. */
  predicate NeedsKey(assignments: seq<PathEntry>, i: nat, k: string)
    requires i < |assignments|
  {
    IsSepPrefix(k, assignments[i].path)
  }

  /** Some entry among the first `n` needs `k`. */
  ghost predicate Demands(assignments: seq<PathEntry>, n: nat, k: string)
    requires n <= |assignments|
    decreases n
  {
    n > 0 && (Demands(assignments, n - 1, k) || NeedsKey(assignments, n - 1, k))
  }

  /** A key some entry among the first `n` needs is demanded by them. */
  lemma {:induction false} DemandedBy(assignments: seq<PathEntry>, n: nat, i: nat, k: string)
    requires i < n <= |assignments| && NeedsKey(assignments, i, k)
    ensures Demands(assignments, n, k)
    decreases n
  {
    if i < n - 1 {
      DemandedBy(assignments, n - 1, i, k);
    }
  }

  /** A demanded key is needed by one of the first `n` entries. */
  lemma {:induction false} DemandWitness(assignments: seq<PathEntry>, n: nat, k: string) returns (i: nat)
    requires n <= |assignments| && Demands(assignments, n, k)
    ensures i < n && NeedsKey(assignments, i, k)
    decreases n
  {
    if NeedsKey(assignments, n - 1, k) {
      i := n - 1;
    } else {
      i := DemandWitness(assignments, n - 1, k);
    }
  }

  /** Some entry among the first `n` is assigned under `k` itself. */
  ghost predicate Declares(assignments: seq<PathEntry>, n: nat, k: string)
    requires n <= |assignments|
  {
    exists i :: 0 <= i < n && assignments[i].path == k
  }

  /** The value `k` holds after the first `n` assignments: the extension list of
      the last of them assigned under `k`, or the placeholder `None`. */
  function LastExtensions(assignments: seq<PathEntry>, n: nat, k: string): Option<seq<string>>
    requires n <= |assignments|
    decreases n
  {
    if n == 0 then None
    else if assignments[n - 1].path == k then Some(assignments[n - 1].extensions)
    else LastExtensions(assignments, n - 1, k)
  }

  /** The first entry at or after `i` that needs `k` (`|assignments|` if none). */
  function FirstDemandFrom(assignments: seq<PathEntry>, k: string, i: nat): (r: nat)
    requires i <= |assignments|
    ensures i <= r <= |assignments|
    decreases |assignments| - i
  {
    if i == |assignments| then i
    else if NeedsKey(assignments, i, k) then i
    else FirstDemandFrom(assignments, k, i + 1)
  }

  /** The entry `FirstDemandFrom` finds does need the key. */
  lemma {:induction false} FirstDemandNeeds(assignments: seq<PathEntry>, k: string, i: nat)
    requires i <= |assignments| && FirstDemandFrom(assignments, k, i) < |assignments|
    ensures NeedsKey(assignments, FirstDemandFrom(assignments, k, i), k)
    decreases |assignments| - i
  {
    if i < |assignments| && !NeedsKey(assignments, i, k) {
      FirstDemandNeeds(assignments, k, i + 1);
    }
  }

  /** The first entry that needs `k`. */
  function FirstDemand(assignments: seq<PathEntry>, k: string): nat
  {
    FirstDemandFrom(assignments, k, 0)
  }

  /** Key `a` is inserted before key `b`: an earlier entry first needs it, or
      the same entry does and `a` is the shorter (an ancestor of `b`). */
  predicate DueBefore(assignments: seq<PathEntry>, a: string, b: string)
  {
    || FirstDemand(assignments, a) < FirstDemand(assignments, b)
    || (FirstDemand(assignments, a) == FirstDemand(assignments, b) && |a| < |b|)
  }

  /** The keys are listed in the order in which they are first needed: each
      is due before the next one. */
  ghost predicate InDemandOrder(assignments: seq<PathEntry>, keys: seq<string>)
  {
    forall a :: 0 < a < |keys| ==> DueBefore(assignments, keys[a - 1], keys[a])
  }

  /** In demand order every key is due before every later one. */
  lemma {:induction false} DueBeforeLater(assignments: seq<PathEntry>, keys: seq<string>)
    requires InDemandOrder(assignments, keys)
    ensures forall a, b :: 0 <= a < b < |keys| ==> DueBefore(assignments, keys[a], keys[b])
    decreases |keys|
  {
    if |keys| > 1 {
      var init := keys[..|keys| - 1];
      assert InDemandOrder(assignments, init) by {
        forall a | 0 < a < |init|
          ensures DueBefore(assignments, init[a - 1], init[a])
        {
          assert init[a - 1] == keys[a - 1] && init[a] == keys[a];
        }
      }
      DueBeforeLater(assignments, init);
      forall a, b | 0 <= a < b < |keys|
        ensures DueBefore(assignments, keys[a], keys[b])
      {
        if b < |keys| - 1 {
          assert init[a] == keys[a] && init[b] == keys[b];
        } else if a < b - 1 {
          assert init[a] == keys[a] && init[b - 1] == keys[b - 1];
          assert DueBefore(assignments, keys[a], keys[b - 1]);
          assert DueBefore(assignments, keys[b - 1], keys[b]);
        }
      }
    }
  }

  /** `d` is the table `path_dict_to_ordered_dict(assignments)`: its keys are
      exactly the needed ones, in the order they are first needed, and each
      holds the extension list last assigned to it or the placeholder. */
  ghost predicate IsTableOf(assignments: seq<PathEntry>, d: OrderedDict)
  {
    && d.Valid()
    && (forall k :: k in d.vals <==> Demands(assignments, |assignments|, k))
    && (forall k :: k in d.vals ==> d.vals[k] == LastExtensions(assignments, |assignments|, k))
    && InDemandOrder(assignments, d.keys)
  }

  // ---------------------------------------------------------------------
  // path_dict_to_ordered_dict
  // ---------------------------------------------------------------------

  /** The table after the inner loop of `path_dict_to_ordered_dict` has looked
      at the first `i` characters of `key`: each separator-terminated prefix
      ending there that is not yet a key is appended as a placeholder. */
  function WithAncestors(key: string, i: nat, d: OrderedDict): (r: OrderedDict)
    requires i <= |key|
    decreases i
  {
    if i == 0 then d
    else
      var r := WithAncestors(key, i - 1, d);
      if key[i - 1] == SEP && key[..i] !in r.vals then r.Assign(key[..i], None) else r
  }

  /** The table after one more item: the missing ancestors of its key, then
      the key itself with its extension list. */
  function WithEntry(entry: PathEntry, d: OrderedDict): (r: OrderedDict)
    requires |entry.path| > 0
  {
    WithAncestors(entry.path, |entry.path| - 1, d).Assign(entry.path, Some(entry.extensions))
  }

  /** The table built from the first `n` assignments. */
  function TableAfter(assignments: seq<PathEntry>, n: nat): (r: OrderedDict)
    requires n <= |assignments| && KeysEndWithSep(assignments)
    decreases n
  {
    if n == 0 then EMPTY
    else WithEntry(assignments[n - 1], TableAfter(assignments, n - 1))
  }

  /** `path_dict_to_ordered_dict(path_dict)`. */
  method PathDictToOrderedDict(pathDict: seq<PathEntry>) returns (d: OrderedDict)
    requires PathsWellFormed(pathDict)
    ensures d == TableAfter(Assignments(pathDict), |pathDict|)
    ensures IsTableOf(Assignments(pathDict), d)
    ensures forall k :: k in d.keys ==> |k| > 0 && k[|k| - 1] == SEP
    ensures forall j, n :: 0 <= j < |d.keys| && 0 < n < |d.keys[j]| && d.keys[j][n - 1] == SEP ==>
              d.keys[j][..n] in d.keys[..j]
  {
    d := EMPTY;
    var e := 0;
    while e < |pathDict|
      invariant 0 <= e <= |pathDict|
      invariant d == TableAfter(Assignments(pathDict), e)
    {
      var relativePath := NormPath(pathDict[e].path);
      TableAfterStep(pathDict, e);
      d := AddAncestors(relativePath, d);
      d := d.Assign(relativePath + [SEP], Some(pathDict[e].extensions));
      e := e + 1;
    }
    TableAfterIsTable(Assignments(pathDict));
    TableShape(Assignments(pathDict));
  }

  /** One pass of the outer loop: the inner loop over `normpath(path)`, then
      the assignment of the item's extensions to `normpath(path) + sep`. */
  lemma {:induction false} TableAfterStep(pathDict: seq<PathEntry>, e: nat)
    requires PathsWellFormed(pathDict) && e < |pathDict|
    ensures var relativePath := NormPath(pathDict[e].path);
            TableAfter(Assignments(pathDict), e + 1) ==
              WithAncestors(relativePath, |relativePath|, TableAfter(Assignments(pathDict), e))
                .Assign(relativePath + [SEP], Some(pathDict[e].extensions))
  {
    TableAfterNext(Assignments(pathDict), e, NormPath(pathDict[e].path), pathDict[e].extensions);
  }

  /** Assigning `relativePath + sep` first adds the ancestors found by
      scanning `relativePath` itself. */
  lemma {:induction false} TableAfterNext(assignments: seq<PathEntry>, e: nat, relativePath: string, extensions: seq<string>)
    requires KeysEndWithSep(assignments) && e < |assignments|
    requires assignments[e] == PathEntry(relativePath + [SEP], extensions)
    ensures TableAfter(assignments, e + 1) ==
              WithAncestors(relativePath, |relativePath|, TableAfter(assignments, e))
                .Assign(relativePath + [SEP], Some(extensions))
  {
    var key := relativePath + [SEP];
    assert relativePath[..|relativePath|] == key[..|relativePath|];
    AncestorsSamePrefix(relativePath, key, |relativePath|, TableAfter(assignments, e));
  }

  /** The inner loop of `path_dict_to_ordered_dict`: every
      separator-terminated prefix of `relativePath` that is not yet a key is
      appended as a placeholder; nothing else changes. */
  method AddAncestors(relativePath: string, d: OrderedDict) returns (r: OrderedDict)
    ensures r == WithAncestors(relativePath, |relativePath|, d)
    ensures forall k :: k in r.vals <==> k in d.vals || IsSepPrefix(k, relativePath)
    ensures forall k :: k in r.vals ==> r.vals[k] == if k in d.vals then d.vals[k] else None
    ensures r.keys == d.keys + Missing(SepPrefixes(relativePath), d.vals)
  {
    r := d;
    var i := 0;
    while i < |relativePath|
      invariant 0 <= i <= |relativePath|
      invariant r == WithAncestors(relativePath, i, d)
    {
      if relativePath[i] == SEP {
        var subpath := relativePath[..i + 1];
        if subpath !in r.vals {
          r := r.Assign(subpath, None);
        }
      }
      i := i + 1;
    }
    AncestorKeys(relativePath, |relativePath|, d);
    AncestorValues(relativePath, |relativePath|, d);
    AncestorKeyOrder(relativePath, |relativePath|, d);
    assert relativePath[..|relativePath|] == relativePath;
  }

  /** The members of `ks` that are not keys of `vals`, in their order. */
  function Missing(ks: seq<string>, vals: map<string, Option<seq<string>>>): (r: seq<string>)
    ensures forall k :: k in r <==> k in ks && k !in vals
    decreases |ks|
  {
    if ks == [] then []
    else
      var init := Missing(ks[..|ks| - 1], vals);
      var last := ks[|ks| - 1];
      assert ks == ks[..|ks| - 1] + [last];
      if last in vals then init else init + [last]
  }

  /** The inner loop keeps the keys already present in their places and
      appends the missing separator-terminated prefixes of what it has
      scanned, shortest first. */
  lemma {:induction false} AncestorKeyOrder(key: string, i: nat, d: OrderedDict)
    requires i <= |key|
    ensures WithAncestors(key, i, d).keys == d.keys + Missing(SepPrefixes(key[..i]), d.vals)
    decreases i
  {
    if i == 0 {
      assert key[..0] == [];
    } else {
      AncestorKeyOrder(key, i - 1, d);
      var sub := key[..i];
      var r := WithAncestors(key, i - 1, d);
      SepPrefixesStep(key, i);
      if key[i - 1] == SEP {
        AncestorKey(key, i - 1, d, sub);
        assert WithAncestors(key, i, d) == if sub !in r.vals then r.Assign(sub, None) else r;
        KeyOrderStep(r, WithAncestors(key, i, d), d.keys, SepPrefixes(key[..i - 1]), sub, d.vals);
      } else {
        assert WithAncestors(key, i, d) == r;
        assert SepPrefixes(key[..i]) == SepPrefixes(key[..i - 1]) + [];
        assert SepPrefixes(key[..i]) == SepPrefixes(key[..i - 1]);
      }
    }
  }

  /** One separator more: the table gains `sub` at the end exactly when it is
      missing. */
  lemma {:induction false} KeyOrderStep(r: OrderedDict, w: OrderedDict, base: seq<string>, ps: seq<string>, sub: string,
                                        vals: map<string, Option<seq<string>>>)
    requires r.keys == base + Missing(ps, vals) && (sub in r.vals <==> sub in vals)
    requires w == if sub !in r.vals then r.Assign(sub, None) else r
    ensures w.keys == base + Missing(ps + [sub], vals)
  {
    MissingStep(ps, sub, vals);
    if sub !in vals {
      assert base + Missing(ps, vals) + [sub] == base + (Missing(ps, vals) + [sub]);
    }
  }

  /** Scanning one more character adds the prefix it ends, if it is the
      separator. */
  lemma {:induction false} SepPrefixesStep(key: string, i: nat)
    requires 0 < i <= |key|
    ensures SepPrefixes(key[..i]) ==
              SepPrefixes(key[..i - 1]) + if key[i - 1] == SEP then [key[..i]] else []
  {
    assert key[..i][..i - 1] == key[..i - 1];
  }

  /** The missing members of a list with one more element at the end. */
  lemma {:induction false} MissingStep(ps: seq<string>, k: string, vals: map<string, Option<seq<string>>>)
    ensures Missing(ps + [k], vals) == Missing(ps, vals) + if k in vals then [] else [k]
  {
    assert (ps + [k])[..|ps|] == ps;
  }

  /** The inner loop looks only at the first `i` characters. */
  lemma {:induction false} AncestorsSamePrefix(p: string, q: string, i: nat, d: OrderedDict)
    requires i <= |p| && i <= |q| && p[..i] == q[..i]
    ensures WithAncestors(p, i, d) == WithAncestors(q, i, d)
    decreases i
  {
    if i > 0 {
      assert p[..i - 1] == p[..i][..i - 1] && q[..i - 1] == q[..i][..i - 1];
      assert p[i - 1] == p[..i][i - 1] && q[i - 1] == q[..i][i - 1];
      AncestorsSamePrefix(p, q, i - 1, d);
    }
  }

  /** Characters other than the separator leave the table as it is. */
  lemma {:induction false} AncestorsSkip(key: string, i: nat, j: nat, d: OrderedDict)
    requires i <= j <= |key|
    requires forall x :: i <= x < j ==> key[x] != SEP
    ensures WithAncestors(key, j, d) == WithAncestors(key, i, d)
    decreases j
  {
    if i < j {
      AncestorsSkip(key, i, j - 1, d);
    }
  }

  /** The inner loop adds exactly the separator-terminated prefixes of `key`
      no longer than `i`. */
  lemma {:induction false} AncestorKeys(key: string, i: nat, d: OrderedDict)
    requires i <= |key|
    ensures forall k :: k in WithAncestors(key, i, d).vals <==>
              k in d.vals || (IsSepPrefix(k, key) && |k| <= i)
  {
    forall k
      ensures k in WithAncestors(key, i, d).vals <==> k in d.vals || (IsSepPrefix(k, key) && |k| <= i)
    {
      AncestorKey(key, i, d, k);
    }
  }

  /** One key at a time: `k` is present after the inner loop has looked at
      `i` characters exactly when it was present before or is a
      separator-terminated prefix of `key` no longer than `i`. */
  lemma {:induction false} AncestorKey(key: string, i: nat, d: OrderedDict, k: string)
    requires i <= |key|
    ensures k in WithAncestors(key, i, d).vals <==> k in d.vals || (IsSepPrefix(k, key) && |k| <= i)
    decreases i
  {
    if i > 0 {
      AncestorKey(key, i - 1, d, k);
      if IsSepPrefix(k, key) && |k| == i {
        assert k == key[..i] && key[i - 1] == SEP;
      }
    }
  }

  /** A key missing after the inner loop was missing before it. */
  lemma {:induction false} AncestorsKeepKeys(key: string, i: nat, d: OrderedDict, k: string)
    requires i <= |key|
    ensures k !in WithAncestors(key, i, d).vals ==> k !in d.vals
    decreases i
  {
    if i > 0 {
      AncestorsKeepKeys(key, i - 1, d, k);
    }
  }

  /** The inner loop never overwrites a value and gives every key it adds the
      placeholder. */
  lemma {:induction false} AncestorValues(key: string, i: nat, d: OrderedDict)
    requires i <= |key|
    ensures forall k :: k in WithAncestors(key, i, d).vals ==>
              WithAncestors(key, i, d).vals[k] == if k in d.vals then d.vals[k] else None
    decreases i
  {
    if i > 0 {
      AncestorValues(key, i - 1, d);
      AncestorsKeepKeys(key, i - 1, d, key[..i]);
    }
  }

  /** While entry `m` is processed, every key the inner loop appends is first
      needed by that entry and longer than those appended before it. */
  lemma {:induction false} AncestorOrder(assignments: seq<PathEntry>, m: nat, i: nat, d: OrderedDict)
    requires m < |assignments| && i <= |assignments[m].path|
    requires forall k :: k in d.vals <==> Demands(assignments, m, k)
    requires InDemandOrder(assignments, d.keys)
    requires forall x :: 0 <= x < |d.keys| ==> FirstDemand(assignments, d.keys[x]) < m
    ensures var w := WithAncestors(assignments[m].path, i, d);
            InDemandOrder(assignments, w.keys) && DemandedUpTo(assignments, w.keys, m, i)
    decreases i
  {
    if i > 0 {
      var key := assignments[m].path;
      AncestorOrder(assignments, m, i - 1, d);
      var w := WithAncestors(key, i - 1, d);
      if key[i - 1] == SEP && key[..i] !in w.vals {
        var sub := key[..i];
        AncestorsKeepKeys(key, i - 1, d, sub);
        assert IsSepPrefix(sub, key);
        assert !Demands(assignments, m, sub);
        AppendAncestor(assignments, m, i, w.keys, sub);
      } else {
        DemandedUpToLonger(assignments, w.keys, m, i - 1, i);
      }
    }
  }

  /** Appending an ancestor of entry `m` that no earlier entry needs keeps the
      demand order. */
  lemma {:induction false} AppendAncestor(assignments: seq<PathEntry>, m: nat, i: nat, keys: seq<string>, sub: string)
    requires m < |assignments| && 0 < i
    requires InDemandOrder(assignments, keys) && DemandedUpTo(assignments, keys, m, i - 1)
    requires IsSepPrefix(sub, assignments[m].path) && |sub| == i && !Demands(assignments, m, sub)
    ensures InDemandOrder(assignments, keys + [sub]) && DemandedUpTo(assignments, keys + [sub], m, i)
  {
    FirstDemandIs(assignments, m, sub);
    OrderAfterAppend(assignments, m, i - 1, keys, sub);
  }

  /** A bound on the length of the newest keys can be relaxed. */
  lemma {:induction false} DemandedUpToLonger(assignments: seq<PathEntry>, keys: seq<string>, m: nat, i: nat, j: nat)
    requires i <= j && DemandedUpTo(assignments, keys, m, i)
    ensures DemandedUpTo(assignments, keys, m, j)
  {
  }

  /** The inner loop keeps the table well formed. */
  lemma {:induction false} AncestorsValid(key: string, i: nat, d: OrderedDict)
    requires i <= |key| && d.Valid()
    ensures WithAncestors(key, i, d).Valid()
    decreases i
  {
    if i > 0 {
      AncestorsValid(key, i - 1, d);
      var r := WithAncestors(key, i - 1, d);
      if key[i - 1] == SEP && key[..i] !in r.vals {
        AssignValid(r, key[..i], None);
      }
    }
  }

  /** The table after `n` assignments is well formed. */
  lemma {:induction false} TableValid(assignments: seq<PathEntry>, n: nat)
    requires n <= |assignments| && KeysEndWithSep(assignments)
    ensures TableAfter(assignments, n).Valid()
    decreases n
  {
    if n > 0 {
      TableValid(assignments, n - 1);
      var entry := assignments[n - 1];
      AncestorsValid(entry.path, |entry.path| - 1, TableAfter(assignments, n - 1));
      AssignValid(WithAncestors(entry.path, |entry.path| - 1, TableAfter(assignments, n - 1)), entry.path, Some(entry.extensions));
    }
  }

  /** The table after `n` assignments has exactly the keys they need. */
  lemma {:induction false} TableKeys(assignments: seq<PathEntry>, n: nat)
    requires n <= |assignments| && KeysEndWithSep(assignments)
    ensures forall k :: k in TableAfter(assignments, n).vals <==> Demands(assignments, n, k)
    decreases n
  {
    if n > 0 {
      TableKeys(assignments, n - 1);
      var d := TableAfter(assignments, n - 1);
      assert EndsWithSep(assignments[n - 1].path);
      forall k
        ensures k in WithEntry(assignments[n - 1], d).vals <==> Demands(assignments, n, k)
      {
        EntryKey(assignments, n - 1, d, k);
      }
    }
  }

  /** Entry `m` adds to the table exactly the keys it needs. */
  lemma {:induction false} EntryKey(assignments: seq<PathEntry>, m: nat, d: OrderedDict, k: string)
    requires m < |assignments| && EndsWithSep(assignments[m].path)
    requires k in d.vals <==> Demands(assignments, m, k)
    ensures k in WithEntry(assignments[m], d).vals <==> Demands(assignments, m + 1, k)
  {
    var key := assignments[m].path;
    var w := WithAncestors(key, |key| - 1, d);
    AncestorKey(key, |key| - 1, d, k);
    assert WithEntry(assignments[m], d).vals == w.vals[key := Some(assignments[m].extensions)];
    SelfPrefix(key);
    assert Demands(assignments, m + 1, k) <==> Demands(assignments, m, k) || IsSepPrefix(k, key);
    if IsSepPrefix(k, key) && |k| == |key| {
      assert k == key;
    }
  }

  /** The table after `n` assignments gives each key the list last assigned
      to it, or the placeholder. */
  lemma {:induction false} TableValues(assignments: seq<PathEntry>, n: nat)
    requires n <= |assignments| && KeysEndWithSep(assignments)
    ensures forall k :: k in TableAfter(assignments, n).vals ==>
              TableAfter(assignments, n).vals[k] == LastExtensions(assignments, n, k)
    decreases n
  {
    if n > 0 {
      TableValues(assignments, n - 1);
      TableKeys(assignments, n - 1);
      var key := assignments[n - 1].path;
      var d := TableAfter(assignments, n - 1);
      AncestorValues(key, |key| - 1, d);
      forall k | k !in d.vals
        ensures LastExtensions(assignments, n - 1, k) == None
      {
        NoValueWithoutDemand(assignments, n - 1, k);
      }
    }
  }

  /** The table after `n` assignments lists its keys in demand order, each
      first needed by one of those assignments. */
  lemma {:induction false} TableOrder(assignments: seq<PathEntry>, n: nat)
    requires n <= |assignments| && KeysEndWithSep(assignments)
    ensures InDemandOrder(assignments, TableAfter(assignments, n).keys)
    ensures forall x :: 0 <= x < |TableAfter(assignments, n).keys| ==>
              FirstDemand(assignments, TableAfter(assignments, n).keys[x]) < n
    decreases n
  {
    if n > 0 {
      TableOrder(assignments, n - 1);
      TableKeys(assignments, n - 1);
      EntryOrder(assignments, n - 1, TableAfter(assignments, n - 1));
    }
  }

  /** Processing entry `m` keeps the demand order, and every key it appends
      is first needed by that entry. */
  lemma {:induction false} EntryOrder(assignments: seq<PathEntry>, m: nat, d: OrderedDict)
    requires m < |assignments| && KeysEndWithSep(assignments)
    requires forall k :: k in d.vals <==> Demands(assignments, m, k)
    requires InDemandOrder(assignments, d.keys)
    requires forall x :: 0 <= x < |d.keys| ==> FirstDemand(assignments, d.keys[x]) < m
    ensures var r := WithEntry(assignments[m], d);
            && InDemandOrder(assignments, r.keys)
            && forall x :: 0 <= x < |r.keys| ==> FirstDemand(assignments, r.keys[x]) < m + 1
  {
    var key := assignments[m].path;
    assert EndsWithSep(key);
    AncestorOrder(assignments, m, |key| - 1, d);
    var w := WithAncestors(key, |key| - 1, d);
    var appended := key !in w.vals;
    AncestorsKeepKeys(key, |key| - 1, d, key);
    assert WithEntry(assignments[m], d) == w.Assign(key, Some(assignments[m].extensions));
    EntryOrderAfter(assignments, m, w, appended);
  }

  /** The assignment of entry `m`'s own key after its ancestors. */
  lemma {:induction false} EntryOrderAfter(assignments: seq<PathEntry>, m: nat, w: OrderedDict, appended: bool)
    requires m < |assignments| && EndsWithSep(assignments[m].path)
    requires InDemandOrder(assignments, w.keys)
    requires DemandedUpTo(assignments, w.keys, m, |assignments[m].path| - 1)
    requires appended <==> assignments[m].path !in w.vals
    requires appended ==> !Demands(assignments, m, assignments[m].path)
    ensures var r := w.Assign(assignments[m].path, Some(assignments[m].extensions));
            && InDemandOrder(assignments, r.keys)
            && forall x :: 0 <= x < |r.keys| ==> FirstDemand(assignments, r.keys[x]) < m + 1
  {
    var key := assignments[m].path;
    var r := w.Assign(key, Some(assignments[m].extensions));
    if appended {
      SelfPrefix(key);
      AppendAncestor(assignments, m, |key|, w.keys, key);
    }
    DemandedBefore(assignments, r.keys, m, |key|);
  }

  /** Keys first needed by entry `m` at the latest are first needed before
      entry `m + 1`. */
  lemma {:induction false} DemandedBefore(assignments: seq<PathEntry>, keys: seq<string>, m: nat, len: nat)
    requires DemandedUpTo(assignments, keys, m, len)
    ensures forall x :: 0 <= x < |keys| ==> FirstDemand(assignments, keys[x]) < m + 1
  {
  }

  /** Every key of the table built from all assignments ends with the
      separator and comes after its separator-terminated prefixes. */
  lemma {:induction false} TableShape(assignments: seq<PathEntry>)
    requires KeysEndWithSep(assignments)
    ensures var d := TableAfter(assignments, |assignments|);
            && (forall k :: k in d.keys ==> |k| > 0 && k[|k| - 1] == SEP)
            && (forall j, n :: 0 <= j < |d.keys| && 0 < n < |d.keys[j]| && d.keys[j][n - 1] == SEP ==>
                  d.keys[j][..n] in d.keys[..j])
  {
    var d := TableAfter(assignments, |assignments|);
    TableAfterIsTable(assignments);
    forall k | k in d.keys
      ensures |k| > 0 && k[|k| - 1] == SEP
    {
      var i := DemandWitness(assignments, |assignments|, k);
    }
    AncestorsPrecede(assignments, d);
  }

  /** The table built from all assignments meets the table specification. */
  lemma {:induction false} TableAfterIsTable(assignments: seq<PathEntry>)
    requires KeysEndWithSep(assignments)
    ensures IsTableOf(assignments, TableAfter(assignments, |assignments|))
  {
    TableValid(assignments, |assignments|);
    TableKeys(assignments, |assignments|);
    TableValues(assignments, |assignments|);
    TableOrder(assignments, |assignments|);
  }

  /** Every key in `keys` is first needed before entry `n`, or by entry `n`
      and is at most `len` long. */
  ghost predicate DemandedUpTo(assignments: seq<PathEntry>, keys: seq<string>, n: nat, len: nat)
  {
    forall a :: 0 <= a < |keys| ==>
      FirstDemand(assignments, keys[a]) < n ||
      (FirstDemand(assignments, keys[a]) == n && |keys[a]| <= len)
  }

  /** Appending a key first needed by entry `n` and longer than every key
      entry `n` already inserted keeps the demand order. */
  lemma {:induction false} OrderAfterAppend(assignments: seq<PathEntry>, n: nat, i: nat, keys: seq<string>, k: string)
    requires InDemandOrder(assignments, keys) && DemandedUpTo(assignments, keys, n, i)
    requires FirstDemand(assignments, k) == n && |k| > i
    ensures InDemandOrder(assignments, keys + [k]) && DemandedUpTo(assignments, keys + [k], n, |k|)
  {
    var keys' := keys + [k];
    forall a | 0 < a < |keys'|
      ensures DueBefore(assignments, keys'[a - 1], keys'[a])
    {
      if a < |keys| {
        assert keys'[a - 1] == keys[a - 1] && keys'[a] == keys[a];
      }
    }
  }

  /** A key first needed by entry `n` has `n` as its first demand. */
  lemma {:induction false} FirstDemandIs(assignments: seq<PathEntry>, n: nat, k: string)
    requires n < |assignments|
    requires NeedsKey(assignments, n, k) && !Demands(assignments, n, k)
    ensures FirstDemand(assignments, k) == n
  {
    FirstDemandMinimal(assignments, k, 0, n);
    FirstDemandNeeds(assignments, k, 0);
    var f := FirstDemand(assignments, k);
    if f < n {
      DemandedBy(assignments, n, f, k);
    }
  }

  /** No entry before the first demand needs the key. */
  lemma {:induction false} FirstDemandMinimal(assignments: seq<PathEntry>, k: string, i: nat, j: nat)
    requires i <= j < |assignments| && NeedsKey(assignments, j, k)
    ensures FirstDemandFrom(assignments, k, i) <= j
    decreases j - i
  {
    if i < j && !NeedsKey(assignments, i, k) {
      FirstDemandMinimal(assignments, k, i + 1, j);
    }
  }

  /** A key no entry needs yet still holds nothing: an entry's own key is one
      it needs. */
  lemma {:induction false} NoValueWithoutDemand(assignments: seq<PathEntry>, n: nat, k: string)
    requires n <= |assignments| && KeysEndWithSep(assignments)
    requires !Demands(assignments, n, k)
    ensures LastExtensions(assignments, n, k) == None
    decreases n
  {
    if n > 0 {
      SelfPrefix(assignments[n - 1].path);
      NoValueWithoutDemand(assignments, n - 1, k);
    }
  }

  /** The key a needed key is first needed by is below the entry count. */
  lemma {:induction false} FirstDemandOfNeeded(assignments: seq<PathEntry>, k: string)
    requires Demands(assignments, |assignments|, k)
    ensures FirstDemand(assignments, k) < |assignments|
  {
    var i := DemandWitness(assignments, |assignments|, k);
    FirstDemandMinimal(assignments, k, 0, i);
  }

  /** In the table every separator-terminated proper prefix of a key is a key
      listed before it. */
  lemma {:induction false} AncestorsPrecede(assignments: seq<PathEntry>, d: OrderedDict)
    requires IsTableOf(assignments, d)
    ensures forall j, n :: 0 <= j < |d.keys| && 0 < n < |d.keys[j]| && d.keys[j][n - 1] == SEP ==>
              d.keys[j][..n] in d.keys[..j]
  {
    DueBeforeLater(assignments, d.keys);
    forall j, n | 0 <= j < |d.keys| && 0 < n < |d.keys[j]| && d.keys[j][n - 1] == SEP
      ensures d.keys[j][..n] in d.keys[..j]
    {
      var k := d.keys[j];
      var p := k[..n];
      assert k in d.vals;
      FirstDemandOfNeeded(assignments, k);
      var f := FirstDemand(assignments, k);
      FirstDemandNeeds(assignments, k, 0);
      var s := assignments[f].path;
      assert p == s[..n];
      assert NeedsKey(assignments, f, p);
      FirstDemandMinimal(assignments, p, 0, f);
      DemandedBy(assignments, |assignments|, f, p);
      assert p in d.vals;
      var a :| 0 <= a < |d.keys| && d.keys[a] == p;
      assert DueBefore(assignments, p, k);
      if a >= j {
        assert false;
      }
      assert d.keys[..j][a] == p;
    }
  }

  // ---------------------------------------------------------------------
  // The specification fixes the table
  // ---------------------------------------------------------------------

  /** Two sequences with the same elements are both empty or both not. */
  lemma {:induction false} SameElementsEmpty(s: seq<string>, t: seq<string>)
    requires forall k :: k in s <==> k in t
    ensures s == [] <==> t == []
  {
    if s != [] {
      assert s[0] in t;
    }
    if t != [] {
      assert t[0] in s;
    }
  }

  /** Two key orders with the same keys that both follow the demand order
      are equal. */
  lemma {:induction false} DemandOrderUnique(assignments: seq<PathEntry>, s: seq<string>, t: seq<string>)
    requires InDemandOrder(assignments, s) && InDemandOrder(assignments, t)
    requires forall k :: k in s <==> k in t
    ensures s == t
    decreases |s|
  {
    DueBeforeLater(assignments, s);
    DueBeforeLater(assignments, t);
    SameElementsEmpty(s, t);
    if s != [] {
      var s0, t0 := s[0], t[0];
      assert s0 in s && t0 in t;
      var a :| 0 <= a < |s| && s[a] == t0;
      var b :| 0 <= b < |t| && t[b] == s0;
      assert a == 0 || DueBefore(assignments, s0, t0);
      assert b == 0 || DueBefore(assignments, t0, s0);
      assert !(DueBefore(assignments, s0, t0) && DueBefore(assignments, t0, s0));
      assert s0 == t0;
      forall k
        ensures k in s[1..] <==> k in t[1..]
      {
        if k in s[1..] {
          var a :| 0 <= a < |s[1..]| && s[1..][a] == k;
          assert s[a + 1] == k && k in t;
          var b :| 0 <= b < |t| && t[b] == k;
          assert b != 0 by {
            assert DueBefore(assignments, s[0], s[a + 1]);
          }
          assert t[1..][b - 1] == k;
        }
        if k in t[1..] {
          var b :| 0 <= b < |t[1..]| && t[1..][b] == k;
          assert t[b + 1] == k && k in s;
          var a :| 0 <= a < |s| && s[a] == k;
          assert a != 0 by {
            assert DueBefore(assignments, t[0], t[b + 1]);
          }
          assert s[1..][a - 1] == k;
        }
      }
      assert InDemandOrder(assignments, s[1..]) by {
        forall a | 0 < a < |s[1..]|
          ensures DueBefore(assignments, s[1..][a - 1], s[1..][a])
        {
          assert s[1..][a - 1] == s[a] && s[1..][a] == s[a + 1];
        }
      }
      assert InDemandOrder(assignments, t[1..]) by {
        forall a | 0 < a < |t[1..]|
          ensures DueBefore(assignments, t[1..][a - 1], t[1..][a])
        {
          assert t[1..][a - 1] == t[a] && t[1..][a] == t[a + 1];
        }
      }
      DemandOrderUnique(assignments, s[1..], t[1..]);
      assert s == [s[0]] + s[1..] && t == [t[0]] + t[1..];
    }
  }

  /** The properties proved of `PathDictToOrderedDict` determine its result. */
  lemma {:induction false} TableDetermined(assignments: seq<PathEntry>, d1: OrderedDict, d2: OrderedDict)
    requires IsTableOf(assignments, d1) && IsTableOf(assignments, d2)
    ensures d1 == d2
  {
    DemandOrderUnique(assignments, d1.keys, d2.keys);
    assert d1.vals == d2.vals;
  }

  // ---------------------------------------------------------------------
  // Which value a key ends up with
  // ---------------------------------------------------------------------

  /** A key holds a list exactly when some entry is assigned under it, so the
      keys present only as ancestors hold the placeholder. */
  lemma {:induction false} ValueIffDeclared(assignments: seq<PathEntry>, n: nat, k: string)
    requires n <= |assignments|
    ensures LastExtensions(assignments, n, k).Some? <==> Declares(assignments, n, k)
    decreases n
  {
    if n > 0 {
      ValueIffDeclared(assignments, n - 1, k);
      if assignments[n - 1].path != k && Declares(assignments, n, k) {
        var i :| 0 <= i < n && assignments[i].path == k;
        assert i < n - 1;
      }
    }
  }

  /** The list a key holds is that of the last entry assigned under it, even
      when the key was first inserted as a placeholder. */
  lemma {:induction false} LastAssignmentWins(assignments: seq<PathEntry>, n: nat, i: nat)
    requires i < n <= |assignments|
    requires forall j :: i < j < n ==> assignments[j].path != assignments[i].path
    ensures LastExtensions(assignments, n, assignments[i].path) == Some(assignments[i].extensions)
    decreases n
  {
    if n - 1 != i {
      LastAssignmentWins(assignments, n - 1, i);
    }
  }

  // ---------------------------------------------------------------------
  // generate
  // ---------------------------------------------------------------------

  /** `extensions or []`. */
  function ExtensionList(v: Option<seq<string>>): seq<string>
  {
    match v
    case None => []
    case Some(xs) => xs
  }

  /** The number of lines the `j`-th entry contributes. */
  function BlockLength(d: OrderedDict, j: nat): nat
    requires d.Listed() && j < |d.keys|
  {
    assert d.keys[j] in d.keys;
    2 + |ExtensionList(d.vals[d.keys[j]])|
  }

  /** The line at which the `j`-th entry's lines start: `*`, then the lines of
      the assignments before it. */
  function BlockStart(d: OrderedDict, j: nat): (r: nat)
    requires d.Listed() && j <= |d.keys|
    ensures r >= 1 + 2 * j
    decreases j
  {
    if j == 0 then 1 else BlockStart(d, j - 1) + BlockLength(d, j - 1)
  }

  /** The `j`-th entry's lines are at their place: `!/path`, `/path*`, then
      `!/path<ext>` for each extension in order. */
  ghost predicate BlockAt(d: OrderedDict, j: nat, lines: seq<string>)
    requires d.Listed() && j < |d.keys|
  {
    var s := BlockStart(d, j);
    var k := d.keys[j];
    assert k in d.keys;
    var xs := ExtensionList(d.vals[k]);
    && s + 2 + |xs| <= |lines|
    && lines[s] == "!" + [SEP] + k
    && lines[s + 1] == [SEP] + k + "*"
    && (forall x :: 0 <= x < |xs| ==> lines[s + 2 + x] == "!" + [SEP] + k + xs[x])
  }

  /** `lines` is `generate(d)`: `*`, then one block per entry in table order,
      and nothing else. */
  ghost predicate IsGitignoreOf(d: OrderedDict, lines: seq<string>)
    requires d.Listed()
  {
    && |lines| == BlockStart(d, |d.keys|)
    && lines[0] == "*"
    && (forall j :: 0 <= j < |d.keys| ==> BlockAt(d, j, lines))
  }

  /** `generate(ordered_path_dict)`. */
  method Generate(orderedPathDict: OrderedDict) returns (result: seq<string>)
    requires orderedPathDict.Listed()
    ensures IsGitignoreOf(orderedPathDict, result)
    ensures |result| == 1 + 2 * |orderedPathDict.keys| + ExtensionCount(orderedPathDict, |orderedPathDict.keys|)
  {
    var d := orderedPathDict;
    result := ["*"];
    var j := 0;
    while j < |d.keys|
      invariant 0 <= j <= |d.keys|
      invariant |result| == BlockStart(d, j)
      invariant result[0] == "*"
      invariant forall m :: 0 <= m < j ==> BlockAt(d, m, result)
    {
      var path := d.keys[j];
      assert path in d.keys;
      var extensions := ExtensionList(d.vals[path]);
      ghost var before := result;
      result := AppendBlock(result, path, extensions);
      BlocksAppend(d, j, before, result);
      j := j + 1;
    }
    LineCount(d, |d.keys|);
  }

  /** One pass of the loop of `generate`: `!/path`, `/path*`, then
      `!/path<ext>` for each extension, appended to `lines`. */
  method AppendBlock(lines: seq<string>, path: string, extensions: seq<string>) returns (result: seq<string>)
    ensures |result| == |lines| + 2 + |extensions|
    ensures result[..|lines|] == lines
    ensures result[|lines|] == "!" + [SEP] + path
    ensures result[|lines| + 1] == [SEP] + path + "*"
    ensures forall y :: 0 <= y < |extensions| ==> result[|lines| + 2 + y] == "!" + [SEP] + path + extensions[y]
  {
    result := lines + ["!" + [SEP] + path];
    result := result + [[SEP] + path + "*"];
    var x := 0;
    while x < |extensions|
      invariant 0 <= x <= |extensions|
      invariant |result| == |lines| + 2 + x
      invariant result[..|lines|] == lines
      invariant result[|lines|] == "!" + [SEP] + path
      invariant result[|lines| + 1] == [SEP] + path + "*"
      invariant forall y :: 0 <= y < x ==> result[|lines| + 2 + y] == "!" + [SEP] + path + extensions[y]
    {
      result := result + ["!" + [SEP] + path + extensions[x]];
      x := x + 1;
    }
  }

  /** Appending the block of entry `j` after the blocks of the entries
      before it gives the blocks of the first `j + 1` entries. */
  lemma {:induction false} BlocksAppend(d: OrderedDict, j: nat, before: seq<string>, after: seq<string>)
    requires d.Listed() && j < |d.keys| && d.keys[j] in d.vals
    requires |before| == BlockStart(d, j) && before[0] == "*"
    requires forall m :: 0 <= m < j ==> BlockAt(d, m, before)
    requires var k := d.keys[j];
             var xs := ExtensionList(d.vals[k]);
             && |after| == |before| + 2 + |xs|
             && after[..|before|] == before
             && after[|before|] == "!" + [SEP] + k
             && after[|before| + 1] == [SEP] + k + "*"
             && forall y :: 0 <= y < |xs| ==> after[|before| + 2 + y] == "!" + [SEP] + k + xs[y]
    ensures |after| == BlockStart(d, j + 1) && after[0] == "*"
    ensures forall m :: 0 <= m < j + 1 ==> BlockAt(d, m, after)
  {
    BlocksExtend(d, j, before, after);
    assert after[0] == after[..|before|][0];
    assert BlockAt(d, j, after);
  }

  /** Appending lines keeps the blocks already in place. */
  lemma {:induction false} BlocksExtend(d: OrderedDict, j: nat, before: seq<string>, after: seq<string>)
    requires d.Listed() && j <= |d.keys|
    requires |before| <= |after| && after[..|before|] == before
    requires forall m :: 0 <= m < j ==> BlockAt(d, m, before)
    ensures forall m :: 0 <= m < j ==> BlockAt(d, m, after)
  {
    forall m | 0 <= m < j
      ensures BlockAt(d, m, after)
    {
      var s := BlockStart(d, m);
      var k := d.keys[m];
      assert k in d.keys;
      var xs := ExtensionList(d.vals[k]);
      assert BlockAt(d, m, before);
      forall p | 0 <= p < |before|
        ensures after[p] == before[p]
      {
        assert after[..|before|][p] == after[p];
      }
    }
  }

  /** The number of extension lines of the first `n` assignments. */
  function ExtensionCount(d: OrderedDict, n: nat): nat
    requires d.Listed() && n <= |d.keys|
  {
    if n == 0 then 0
    else
      assert d.keys[n - 1] in d.keys;
      ExtensionCount(d, n - 1) + |ExtensionList(d.vals[d.keys[n - 1]])|
  }

  /** `generate` emits 1 + the sum over assignments of 2 + their extension count. */
  lemma {:induction false} LineCount(d: OrderedDict, n: nat)
    requires d.Listed() && n <= |d.keys|
    ensures BlockStart(d, n) == 1 + 2 * n + ExtensionCount(d, n)
    decreases n
  {
    if n > 0 {
      LineCount(d, n - 1);
    }
  }

  /** Blocks do not overlap and come in table order. */
  lemma {:induction false} BlocksInOrder(d: OrderedDict, a: nat, b: nat)
    requires d.Listed() && a < b <= |d.keys|
    ensures BlockStart(d, a) + BlockLength(d, a) <= BlockStart(d, b)
    decreases b
  {
    if a < b - 1 {
      BlocksInOrder(d, a, b - 1);
    }
  }

  /** Every line after the first lies in the block of some entry. */
  lemma {:induction false} BlockOf(d: OrderedDict, n: nat, p: nat) returns (j: nat)
    requires d.Listed() && n <= |d.keys|
    requires 1 <= p < BlockStart(d, n)
    ensures j < n && BlockStart(d, j) <= p < BlockStart(d, j) + BlockLength(d, j)
    decreases n
  {
    if p >= BlockStart(d, n - 1) {
      j := n - 1;
    } else {
      j := BlockOf(d, n - 1, p);
    }
  }

  /** The properties proved of `Generate` determine its result, so running it
      twice on one table gives the same lines. */
  lemma {:induction false} OutputDetermined(d: OrderedDict, lines1: seq<string>, lines2: seq<string>)
    requires d.Listed()
    requires IsGitignoreOf(d, lines1) && IsGitignoreOf(d, lines2)
    ensures lines1 == lines2
  {
    forall p | 0 <= p < |lines1|
      ensures lines1[p] == lines2[p]
    {
      if p > 0 {
        var j := BlockOf(d, |d.keys|, p);
        assert BlockAt(d, j, lines1) && BlockAt(d, j, lines2);
        var s := BlockStart(d, j);
        var k := d.keys[j];
        assert k in d.keys;
        var xs := ExtensionList(d.vals[k]);
        if p >= s + 2 {
          var x := p - s - 2;
          assert x < |xs|;
          assert lines1[s + 2 + x] == "!" + [SEP] + k + xs[x] == lines2[s + 2 + x];
        }
      }
    }
  }

  // ---------------------------------------------------------------------
  // Both together
  // ---------------------------------------------------------------------

  /** Some line un-ignores directory `ancestor` and a later one un-ignores
      directory `key`. */
  ghost predicate UnignoredBefore(lines: seq<string>, ancestor: string, key: string)
  {
    exists a, b :: 0 <= a < b < |lines| && lines[a] == "!" + [SEP] + ancestor && lines[b] == "!" + [SEP] + key
  }

  /** For every input path, the lines un-ignore each of its ancestors before
      they un-ignore the path itself, as nested `!` patterns need. */
  lemma {:induction false} AncestorsUnignoredFirst(assignments: seq<PathEntry>, d: OrderedDict, lines: seq<string>)
    requires KeysEndWithSep(assignments)
    requires IsTableOf(assignments, d) && IsGitignoreOf(d, lines)
    ensures forall i, n :: 0 <= i < |assignments| && 0 < n < |assignments[i].path| &&
                           assignments[i].path[n - 1] == SEP ==>
              UnignoredBefore(lines, assignments[i].path[..n], assignments[i].path)
  {
    forall i, n | 0 <= i < |assignments| && 0 < n < |assignments[i].path| && assignments[i].path[n - 1] == SEP
      ensures UnignoredBefore(lines, assignments[i].path[..n], assignments[i].path)
    {
      var a, b := AncestorLineFirst(assignments, d, lines, i, n);
    }
  }

  /** The line un-ignoring one ancestor of an input path, and a later one
      un-ignoring the path. */
  lemma {:induction false} AncestorLineFirst(assignments: seq<PathEntry>, d: OrderedDict, lines: seq<string>, i: nat, n: nat)
      returns (a: nat, b: nat)
    requires KeysEndWithSep(assignments)
    requires IsTableOf(assignments, d) && IsGitignoreOf(d, lines)
    requires i < |assignments| && 0 < n < |assignments[i].path| && assignments[i].path[n - 1] == SEP
    ensures a < b < |lines|
    ensures lines[a] == "!" + [SEP] + assignments[i].path[..n]
    ensures lines[b] == "!" + [SEP] + assignments[i].path
  {
    AncestorsPrecede(assignments, d);
    var k := assignments[i].path;
    SelfPrefix(k);
    DemandedBy(assignments, |assignments|, i, k);
    assert k in d.vals;
    var j :| 0 <= j < |d.keys| && d.keys[j] == k;
    assert k[..n] in d.keys[..j];
    var m :| 0 <= m < j && d.keys[..j][m] == k[..n];
    BlocksInOrder(d, m, j);
    assert BlockAt(d, m, lines) && BlockAt(d, j, lines);
    a, b := BlockStart(d, m), BlockStart(d, j);
  }

  // ---------------------------------------------------------------------
  // The example run by the script
  // ---------------------------------------------------------------------

  /** `{"test/test1/test2/": ["*.txt", "*.cpp"], "test/": ["*.txt"]}`, in
      insertion order. */
  const DEMO_INPUT: seq<PathEntry> :=
    [PathEntry("test/test1/test2/", ["*.txt", "*.cpp"]), PathEntry("test/", ["*.txt"])]

  /** The table the script builds from its example: the ancestors come first
      and `test/` keeps its place when the second item assigns it. */
  const DEMO_TABLE: OrderedDict :=
    OrderedDict(["test/", "test/test1/", "test/test1/test2/"],
                map["test/" := Some(["*.txt"]), "test/test1/" := None,
                    "test/test1/test2/" := Some(["*.txt", "*.cpp"])])

  /** What the script prints for its example, line by line. */
  const DEMO_LINES: seq<string> :=
    ["*",
     "!/test/", "/test/*", "!/test/*.txt",
     "!/test/test1/", "/test/test1/*",
     "!/test/test1/test2/", "/test/test1/test2/*", "!/test/test1/test2/*.txt", "!/test/test1/test2/*.cpp"]

  /** The script's own run: `generate(path_dict_to_ordered_dict(d))`. */
  method Demo() returns (table: OrderedDict, lines: seq<string>)
    ensures table == DEMO_TABLE
    ensures lines == DEMO_LINES
  {
    DemoWellFormed();
    table := PathDictToOrderedDict(DEMO_INPUT);
    DemoTable();
    lines := Generate(table);
    DemoLines();
    OutputDetermined(table, lines, DEMO_LINES);
  }

  /** Both example paths are normal, up to the trailing separator. */
  lemma {:induction false} DemoWellFormed()
    ensures PathsWellFormed(DEMO_INPUT)
  {
    DemoPathsWellFormed();
    var p0, p1 := DEMO_INPUT[0].path, DEMO_INPUT[1].path;
    assert p0 == "test/test1/test2/" && p1 == "test/";
    forall i | 0 <= i < |DEMO_INPUT|
      ensures WellFormedPath(DEMO_INPUT[i].path)
    {
      assert DEMO_INPUT[i].path == if i == 0 then p0 else p1;
    }
  }

  lemma {:induction false} DemoPathsWellFormed()
    ensures WellFormedPath("test/test1/test2/") && WellFormedPath("test/")
  {
    DemoSegments();
    DemoSegmentsKept();
    var p0, p1 := "test/test1/test2/", "test/";
    assert p0[..|p0| - 1] == "test/test1/test2";
    assert p1[..|p1| - 1] == "test";
  }

  lemma {:induction false} DemoSegments()
    ensures Segments("test/test1/test2") == ["test", "test1", "test2"]
    ensures Segments("test") == ["test"]
  {
    assert "test/test1/test2" == "test" + [SEP] + "test1" + [SEP] + "test2";
    ThreeSegments("test", "test1", "test2");
  }

  lemma {:induction false} ThreeSegments(t0: string, t1: string, t2: string)
    requires SEP !in t0 && SEP !in t1 && SEP !in t2
    ensures Segments(t0) == [t0]
    ensures Segments(t0 + [SEP] + t1 + [SEP] + t2) == [t0, t1, t2]
  {
    SegmentsOfPlain(t0);
    SegmentsAfterSep(t0, t1);
    SegmentsAfterSep(t0 + [SEP] + t1, t2);
  }

  lemma {:induction false} DemoSegmentsKept()
    ensures AllKept(["test", "test1", "test2"]) && AllKept(["test"])
  {
    var segs := ["test", "test1", "test2"];
    assert IsKeptSegment(segs[0]) && IsKeptSegment(segs[1]) && IsKeptSegment(segs[2]);
    assert segs[1..][1..][1..] == [];
    assert AllKept(segs[1..][1..]);
  }

  lemma {:induction false} DemoTable()
    requires PathsWellFormed(DEMO_INPUT)
    ensures TableAfter(Assignments(DEMO_INPUT), 2) == DEMO_TABLE
  {
    DemoAssignments();
    DemoKeyLayout();
    var key := "test/test1/test2/";
    ThreeLevelAncestors(key, 4, 10, EMPTY);
    TwoItemTable("test/", "test/test1/", key, ["*.txt", "*.cpp"], ["*.txt"]);
  }

  lemma {:induction false} DemoAssignments()
    requires PathsWellFormed(DEMO_INPUT)
    ensures Assignments(DEMO_INPUT) ==
              [PathEntry("test/test1/test2/", ["*.txt", "*.cpp"]), PathEntry("test/", ["*.txt"])]
  {
    assert "test/test1/test2/"[..16] == "test/test1/test2";
    assert "test/"[..4] == "test";
  }

  /** Where the separators of the example's deepest path are. */
  lemma {:induction false} DemoKeyLayout()
    ensures var key := "test/test1/test2/";
            && key[4] == SEP && key[10] == SEP
            && (forall x :: 0 <= x < |key| - 1 && x != 4 && x != 10 ==> key[x] != SEP)
            && key[..5] == "test/" && key[..11] == "test/test1/"
  {
    var t0, t1, t2 := "test", "test1", "test2";
    assert "test/test1/test2/" == t0 + [SEP] + t1 + [SEP] + t2 + [SEP];
    assert "test/test1/" == t0 + [SEP] + t1 + [SEP];
    assert "test/" == t0 + [SEP];
    ThreeLevelLayout(t0, t1, t2);
  }

  /** The separators of `t0/t1/t2/` are the three after the pieces. */
  lemma {:induction false} ThreeLevelLayout(t0: string, t1: string, t2: string)
    requires SEP !in t0 && SEP !in t1 && SEP !in t2
    ensures var key := t0 + [SEP] + t1 + [SEP] + t2 + [SEP];
            var n0, n1 := |t0|, |t0| + 1 + |t1|;
            && key[n0] == SEP && key[n1] == SEP
            && (forall x :: 0 <= x < |key| - 1 && x != n0 && x != n1 ==> key[x] != SEP)
            && key[..n0 + 1] == t0 + [SEP] && key[..n1 + 1] == t0 + [SEP] + t1 + [SEP]
  {
    var key := t0 + [SEP] + t1 + [SEP] + t2 + [SEP];
    var n0, n1 := |t0|, |t0| + 1 + |t1|;
    forall x | 0 <= x < |key| - 1 && x != n0 && x != n1
      ensures key[x] != SEP
    {
      if x < n0 {
        assert key[x] == t0[x];
      } else if x < n1 {
        assert key[x] == t1[x - n0 - 1];
      } else {
        assert key[x] == t2[x - n1 - 1];
      }
    }
    assert key[..n0 + 1] == t0 + [SEP];
    assert key[..n1 + 1] == t0 + [SEP] + t1 + [SEP];
  }

  /** The table for the shape of the example: a path whose inner loop adds
      `top` and `mid`, then `top` itself. */
  lemma {:induction false} TwoItemTable(top: string, mid: string, key: string, x1: seq<string>, x2: seq<string>)
    requires EndsWithSep(top) && EndsWithSep(key) && |top| < |mid| < |key|
    requires forall x :: 0 <= x < |top| - 1 ==> top[x] != SEP
    requires WithAncestors(key, |key| - 1, EMPTY) == EMPTY.Assign(top, None).Assign(mid, None)
    ensures var a := [PathEntry(key, x1), PathEntry(top, x2)];
            KeysEndWithSep(a) &&
            TableAfter(a, 2) == OrderedDict([top, mid, key], map[top := Some(x2), mid := None, key := Some(x1)])
  {
    TwoItems(PathEntry(key, x1), PathEntry(top, x2));
    var w := EMPTY.Assign(top, None).Assign(mid, None);
    FirstEntry(key, x1, w);
    TopLevelEntry(top, x2, w.Assign(key, Some(x1)));
    ThreeKeys(top, mid, key, x1, x2);
  }

  /** The table of two items. */
  lemma {:induction false} TwoItems(e0: PathEntry, e1: PathEntry)
    requires EndsWithSep(e0.path) && EndsWithSep(e1.path)
    ensures KeysEndWithSep([e0, e1])
    ensures TableAfter([e0, e1], 2) == WithEntry(e1, WithEntry(e0, EMPTY))
  {
    var a := [e0, e1];
    assert a[0] == e0 && a[1] == e1;
  }

  /** The first item goes into an empty table after its ancestors. */
  lemma {:induction false} FirstEntry(key: string, extensions: seq<string>, w: OrderedDict)
    requires EndsWithSep(key) && WithAncestors(key, |key| - 1, EMPTY) == w
    ensures WithEntry(PathEntry(key, extensions), EMPTY) == w.Assign(key, Some(extensions))
  {
  }

  /** A directory at the top level has no ancestors to add. */
  lemma {:induction false} TopLevelEntry(top: string, extensions: seq<string>, d: OrderedDict)
    requires EndsWithSep(top)
    requires forall x :: 0 <= x < |top| - 1 ==> top[x] != SEP
    ensures WithEntry(PathEntry(top, extensions), d) == d.Assign(top, Some(extensions))
  {
    AncestorsSkip(top, 0, |top| - 1, d);
  }

  /** The three keys of the example table, with `top` reassigned last. */
  lemma {:induction false} ThreeKeys(top: string, mid: string, key: string, x1: seq<string>, x2: seq<string>)
    requires |top| < |mid| < |key|
    ensures EMPTY.Assign(top, None).Assign(mid, None).Assign(key, Some(x1)).Assign(top, Some(x2)) ==
              OrderedDict([top, mid, key], map[top := Some(x2), mid := None, key := Some(x1)])
  {
    var d2 := EMPTY.Assign(top, None).Assign(mid, None).Assign(key, Some(x1)).Assign(top, Some(x2));
    assert d2.keys == [top, mid, key];
    ThreeValues(top, mid, key, x1, x2);
  }

  /** Reassigning `top` replaces its placeholder and keeps the other values. */
  lemma {:induction false} ThreeValues(top: string, mid: string, key: string, x1: seq<string>, x2: seq<string>)
    requires |top| < |mid| < |key|
    ensures map[top := None][mid := None][key := Some(x1)][top := Some(x2)] ==
              map[top := Some(x2), mid := None, key := Some(x1)]
  {
    var m := map[top := None][mid := None][key := Some(x1)][top := Some(x2)];
    var expected := map[top := Some(x2), mid := None, key := Some(x1)];
    forall k
      ensures (k in m <==> k in expected) && (k in m ==> m[k] == expected[k])
    {
      if k != top && k != mid && k != key {
        assert k !in m && k !in expected;
      }
    }
  }

  /** The inner loop on a path with separators at `n0` and `n1` before its
      last one, on a table holding neither prefix they end. */
  lemma {:induction false} ThreeLevelAncestors(key: string, n0: nat, n1: nat, d: OrderedDict)
    requires n0 < n1 < |key| - 1
    requires key[n0] == SEP && key[n1] == SEP
    requires forall x :: 0 <= x < |key| - 1 && x != n0 && x != n1 ==> key[x] != SEP
    requires key[..n0 + 1] !in d.vals && key[..n1 + 1] !in d.vals
    ensures WithAncestors(key, |key| - 1, d) == d.Assign(key[..n0 + 1], None).Assign(key[..n1 + 1], None)
  {
    var w1 := d.Assign(key[..n0 + 1], None);
    AncestorStep(key, 0, n0 + 1, d, d);
    assert |key[..n1 + 1]| != |key[..n0 + 1]|;
    AncestorStep(key, n0 + 1, n1 + 1, d, w1);
    AncestorsSkip(key, n1 + 1, |key| - 1, d);
  }

  /** From `i` to the next separator, at `j - 1`, the inner loop adds the
      prefix that separator ends, when it is new. */
  lemma {:induction false} AncestorStep(key: string, i: nat, j: nat, d: OrderedDict, w: OrderedDict)
    requires i < j <= |key| && key[j - 1] == SEP
    requires forall x :: i <= x < j - 1 ==> key[x] != SEP
    requires WithAncestors(key, i, d) == w && key[..j] !in w.vals
    ensures WithAncestors(key, j, d) == w.Assign(key[..j], None)
  {
    AncestorsSkip(key, i, j - 1, d);
  }

  lemma {:induction false} DemoLines()
    ensures DEMO_TABLE.Valid() && IsGitignoreOf(DEMO_TABLE, DEMO_LINES)
  {
    var top, mid, key, y, z := "test/", "test/test1/", "test/test1/test2/", "*.txt", "*.cpp";
    DemoLineText();
    ThreeBlocks(DEMO_TABLE, DEMO_LINES, top, mid, key, y, z);
  }

  /** The lines `generate` writes for a table shaped like the example's:
      `top` with extension `y`, `mid` with none, `key` with `y` and `z`. */
  ghost predicate ExampleLines(lines: seq<string>, top: string, mid: string, key: string, y: string, z: string)
  {
    && |lines| == 10 && lines[0] == "*"
    && lines[1] == "!" + [SEP] + top && lines[2] == [SEP] + top + "*" && lines[3] == "!" + [SEP] + top + y
    && lines[4] == "!" + [SEP] + mid && lines[5] == [SEP] + mid + "*"
    && lines[6] == "!" + [SEP] + key && lines[7] == [SEP] + key + "*"
    && lines[8] == "!" + [SEP] + key + y && lines[9] == "!" + [SEP] + key + z
  }

  /** The example's lines, spelled as `generate` puts them together. */
  lemma {:induction false} DemoLineText()
    ensures ExampleLines(DEMO_LINES, "test/", "test/test1/", "test/test1/test2/", "*.txt", "*.cpp")
  {
    DemoShallowLines();
    DemoDeepLines();
  }

  /** The lines of `test/` and `test/test1/`. */
  lemma {:induction false} DemoShallowLines()
    ensures var top, mid, y := "test/", "test/test1/", "*.txt";
            && DEMO_LINES[1] == "!" + [SEP] + top && DEMO_LINES[2] == [SEP] + top + "*"
            && DEMO_LINES[3] == "!" + [SEP] + top + y
            && DEMO_LINES[4] == "!" + [SEP] + mid && DEMO_LINES[5] == [SEP] + mid + "*"
  {
    var top, mid, y := "test/", "test/test1/", "*.txt";
    assert "!" + [SEP] + top == "!/test/" && [SEP] + top + "*" == "/test/*";
    assert "!" + [SEP] + top + y == "!/test/*.txt";
    assert "!" + [SEP] + mid == "!/test/test1/" && [SEP] + mid + "*" == "/test/test1/*";
  }

  /** The lines of `test/test1/test2/`. */
  lemma {:induction false} DemoDeepLines()
    ensures var key, y, z := "test/test1/test2/", "*.txt", "*.cpp";
            && DEMO_LINES[6] == "!" + [SEP] + key && DEMO_LINES[7] == [SEP] + key + "*"
            && DEMO_LINES[8] == "!" + [SEP] + key + y && DEMO_LINES[9] == "!" + [SEP] + key + z
  {
    var key, y, z := "test/test1/test2/", "*.txt", "*.cpp";
    assert "!" + [SEP] + key == "!/test/test1/test2/" && [SEP] + key + "*" == "/test/test1/test2/*";
    assert "!" + [SEP] + key + y == "!/test/test1/test2/*.txt";
    assert "!" + [SEP] + key + z == "!/test/test1/test2/*.cpp";
  }

  /** The lines of a table shaped like the example's. */
  lemma {:induction false} ThreeBlocks(d: OrderedDict, lines: seq<string>, top: string, mid: string, key: string, y: string, z: string)
    requires |top| < |mid| < |key|
    requires d == OrderedDict([top, mid, key], map[top := Some([y]), mid := None, key := Some([y, z])])
    requires ExampleLines(lines, top, mid, key, y, z)
    ensures d.Valid() && IsGitignoreOf(d, lines)
  {
    ThreeBlockStarts(d, top, mid, key, y, z);
    BlockAtFrom(d, 0, lines, 1, top, [y]);
    BlockAtFrom(d, 1, lines, 4, mid, []);
    BlockAtFrom(d, 2, lines, 6, key, [y, z]);
  }

  /** The lines from `s` on are the block of entry `j`. */
  lemma {:induction false} BlockAtFrom(d: OrderedDict, j: nat, lines: seq<string>, s: nat, k: string, xs: seq<string>)
    requires d.Listed() && j < |d.keys| && d.keys[j] == k && k in d.vals && ExtensionList(d.vals[k]) == xs
    requires BlockStart(d, j) == s && s + 2 + |xs| <= |lines|
    requires lines[s] == "!" + [SEP] + k && lines[s + 1] == [SEP] + k + "*"
    requires forall x :: 0 <= x < |xs| ==> lines[s + 2 + x] == "!" + [SEP] + k + xs[x]
    ensures BlockAt(d, j, lines)
  {
  }

  /** Where the blocks of a table shaped like the example's start. */
  lemma {:induction false} ThreeBlockStarts(d: OrderedDict, top: string, mid: string, key: string, y: string, z: string)
    requires |top| < |mid| < |key|
    requires d == OrderedDict([top, mid, key], map[top := Some([y]), mid := None, key := Some([y, z])])
    ensures d.Valid() && d.keys == [top, mid, key]
    ensures d.vals[top] == Some([y]) && d.vals[mid] == None && d.vals[key] == Some([y, z])
    ensures BlockStart(d, 0) == 1 && BlockStart(d, 1) == 4 && BlockStart(d, 2) == 6 && BlockStart(d, 3) == 10
  {
    assert d.keys[0] == top && d.keys[1] == mid && d.keys[2] == key;
    assert d.Valid();
    assert BlockStart(d, 1) == 4;
    assert BlockStart(d, 2) == 6;
  }
}
