/** The checks `load_files` runs on the mapping table before it builds the
    key → target dictionary: `dropna`, `strip`, then duplicate keys (ignoring
    case), then duplicate target names (exactly). */
module Validation {
  import opened Text
  import opened Optional
  import opened Sorting
  import opened Sequences

  /** One cell of the key or target column; `Missing` is what `dropna`
      drops (an empty or NaN cell). */
  datatype Cell = Missing | Value(text: string)

  /** A row that survived `dropna`, with both cells stripped. */
  datatype Entry = Entry(key: string, target: string)

  /** Why loading stops. `DuplicateKeys` carries the distinct offending key
      spellings, sorted; `DuplicateTargets` the offending rows, sorted by
      target name. */
  datatype LoadError =
    | DuplicateKeys(names: seq<string>)
    | DuplicateTargets(rows: seq<Entry>)

  /** `df.dropna(subset=[key, target])`, then `.str.strip()` on both columns. */
  function Surviving(table: seq<(Cell, Cell)>): (rows: seq<Entry>)
    ensures |rows| <= |table|
  {
    if table == [] then []
    else
      var last := table[|table| - 1];
      Surviving(table[..|table| - 1]) +
        (if last.0.Value? && last.1.Value? then [Entry(Strip(last.0.text), Strip(last.1.text))] else [])
  }

  /** `dropna` works row by row and keeps the order: the rows surviving from
      a table are those surviving from its first part followed by those
      surviving from the rest, and a single row survives, stripped, exactly
      when neither of its cells is missing. */
  lemma {:induction false} SurvivingSplit(a: seq<(Cell, Cell)>, b: seq<(Cell, Cell)>)
    ensures Surviving(a + b) == Surviving(a) + Surviving(b)
  {
    if b == [] {
      assert a + b == a;
    } else {
      var n := |b| - 1;
      assert (a + b)[..|a + b| - 1] == a + b[..n];
      assert (a + b)[|a + b| - 1] == b[n];
      SurvivingSplit(a, b[..n]);
    }
  }

  lemma SurvivingRow(row: (Cell, Cell))
    ensures Surviving([row]) ==
      (if row.0.Value? && row.1.Value? then [Entry(Strip(row.0.text), Strip(row.1.text))] else [])
  {
    assert [row][..0] == [];
  }

  /** Only missing cells drop a row: with none missing, every row survives,
      stripped, in its place (a blank cell survives as ""). */
  lemma {:induction false} SurvivingKeepsPresentRows(table: seq<(Cell, Cell)>)
    requires forall i :: 0 <= i < |table| ==> table[i].0.Value? && table[i].1.Value?
    ensures |Surviving(table)| == |table|
    ensures forall i :: 0 <= i < |table| ==>
      Surviving(table)[i] == Entry(Strip(table[i].0.text), Strip(table[i].1.text))
  {
    if table != [] {
      var n := |table| - 1;
      SurvivingKeepsPresentRows(table[..n]);
      var pre := Surviving(table[..n]);
      var last := Entry(Strip(table[n].0.text), Strip(table[n].1.text));
      var all := Surviving(table);
      assert all == pre + [last];
      forall i | 0 <= i < |table|
        ensures all[i] == Entry(Strip(table[i].0.text), Strip(table[i].1.text))
      {
        if i < n {
          assert all[i] == pre[i];
          assert table[..n][i] == table[i];
        }
      }
    }
  }

  /** Row `i` shares its key, ignoring case, with another row
      (`str.lower().duplicated(keep=False)`). */
  predicate KeyClash(rows: seq<Entry>, i: int)
  {
    0 <= i < |rows| &&
    exists j :: 0 <= j < |rows| && j != i && LowerStr(rows[j].key) == LowerStr(rows[i].key)
  }

  /** Row `i` shares its target name exactly with another row
      (`duplicated(keep=False)`). */
  predicate TargetClash(rows: seq<Entry>, i: int)
  {
    0 <= i < |rows| &&
    exists j :: 0 <= j < |rows| && j != i && rows[j].target == rows[i].target
  }

  predicate HasKeyClash(rows: seq<Entry>)
  {
    exists i, j :: 0 <= i < |rows| && 0 <= j < |rows| && i != j &&
      LowerStr(rows[i].key) == LowerStr(rows[j].key)
  }

  predicate HasTargetClash(rows: seq<Entry>)
  {
    exists i, j :: 0 <= i < |rows| && 0 <= j < |rows| && i != j && rows[i].target == rows[j].target
  }

  /** The keys are pairwise different even ignoring case. */
  predicate DistinctKeys(rows: seq<Entry>)
  {
    forall i, j :: 0 <= i < |rows| && 0 <= j < |rows| && i != j ==>
      LowerStr(rows[i].key) != LowerStr(rows[j].key)
  }

  /** The keys of the clashing rows among the first `n`, in row order. */
  function ClashingKeys(rows: seq<Entry>, n: nat): (r: seq<string>)
    requires n <= |rows|
    ensures |r| <= n
  {
    if n == 0 then []
    else ClashingKeys(rows, n - 1) + (if KeyClash(rows, n - 1) then [rows[n - 1].key] else [])
  }

  lemma {:induction false} ClashingKeysMembers(rows: seq<Entry>, n: nat)
    requires n <= |rows|
    ensures forall k :: k in ClashingKeys(rows, n) <==>
      exists i :: 0 <= i < n && KeyClash(rows, i) && rows[i].key == k
  {
    if n > 0 {
      ClashingKeysMembers(rows, n - 1);
      var r, pre := ClashingKeys(rows, n), ClashingKeys(rows, n - 1);
      forall k ensures k in r <==> exists i :: 0 <= i < n && KeyClash(rows, i) && rows[i].key == k {
        if k in r && k !in pre {
          assert KeyClash(rows, n - 1) && rows[n - 1].key == k;
        }
        if exists i :: 0 <= i < n && KeyClash(rows, i) && rows[i].key == k {
          var i :| 0 <= i < n && KeyClash(rows, i) && rows[i].key == k;
          if i < n - 1 {
            assert k in pre;
          }
        }
      }
    }
  }

  /** The indices of the rows among the first `n` whose target clashes, in
      increasing order. */
  function ClashingRows(rows: seq<Entry>, n: nat): (r: seq<nat>)
    requires n <= |rows|
    ensures forall i :: i in r <==> i < n && TargetClash(rows, i)
    ensures forall p, q :: 0 <= p < q < |r| ==> r[p] < r[q]
    ensures forall p :: 0 <= p < |r| ==> r[p] < n
  {
    if n == 0 then []
    else
      var prefix := ClashingRows(rows, n - 1);
      assert forall p :: 0 <= p < |prefix| ==> prefix[p] < n - 1 by {
        forall p | 0 <= p < |prefix| ensures prefix[p] < n - 1 {
          assert prefix[p] in prefix;
        }
      }
      prefix + (if TargetClash(rows, n - 1) then [n - 1] else [])
  }

  /** Python's string order, as a value. */
  function ByName(): (string, string) -> bool
  {
    (a: string, b: string) => StrLess(a, b)
  }

  /** Rows by target name; pandas' default sort is not stable, so equal
      targets may come in any order; row order is the one taken here. */
  function ByTarget(rows: seq<Entry>): (nat, nat) -> bool
  {
    (a: nat, b: nat) => a < |rows| && b < |rows| &&
      (StrLess(rows[a].target, rows[b].target) || (rows[a].target == rows[b].target && a < b))
  }

  lemma ByNameIsStrict(u: seq<string>)
    ensures StrictTotalOn(u, ByName())
  {
    var lt := ByName();
    forall x | x in u ensures !lt(x, x) {
      StrLessIrreflexive(x);
    }
    forall x, y | x in u && y in u && x != y ensures lt(x, y) || lt(y, x) {
      StrLessTotal(x, y);
    }
    forall x, y, z | x in u && y in u && z in u && lt(x, y) && lt(y, z) ensures lt(x, z) {
      StrLessTransitive(x, y, z);
    }
  }

  lemma ByTargetIsStrict(rows: seq<Entry>, u: seq<nat>)
    requires forall i :: i in u ==> i < |rows|
    ensures StrictTotalOn(u, ByTarget(rows))
  {
    var lt := ByTarget(rows);
    forall x | x in u ensures !lt(x, x) {
      StrLessIrreflexive(rows[x].target);
    }
    forall x, y | x in u && y in u && x != y ensures lt(x, y) || lt(y, x) {
      if rows[x].target != rows[y].target {
        StrLessTotal(rows[x].target, rows[y].target);
      }
    }
    forall x, y, z | x in u && y in u && z in u && lt(x, y) && lt(y, z) ensures lt(x, z) {
      var a, b, c := rows[x].target, rows[y].target, rows[z].target;
      if StrLess(a, b) && StrLess(b, c) {
        StrLessTransitive(a, b, c);
      }
    }
  }

  /** The sorted, distinct key spellings of the clashing rows
      (`sorted(name_duplicates[key].unique())`). */
  function DuplicateKeyNames(rows: seq<Entry>): (r: seq<string>)
    ensures forall k :: k in r <==> k in ClashingKeys(rows, |rows|)
    ensures forall p, q :: 0 <= p < q < |r| ==> StrLess(r[p], r[q])
  {
    var names := Dedup(ClashingKeys(rows, |rows|));
    ByNameIsStrict(names);
    var r := SortBy(names, ByName(), names);
    SameMultisetSameMembers(r, names);
    r
  }

  /** The clashing rows sorted by target name
      (`filename_duplicates.sort_values(by=target)`). */
  function DuplicateTargetRows(rows: seq<Entry>): (r: seq<Entry>)
    ensures forall p :: 0 <= p < |r| ==> exists i :: TargetClash(rows, i) && rows[i] == r[p]
    ensures forall i :: TargetClash(rows, i) ==> rows[i] in r
    ensures forall p, q :: 0 <= p < q < |r| ==> !StrLess(r[q].target, r[p].target)
  {
    var idx := ClashingRows(rows, |rows|);
    ByTargetIsStrict(rows, idx);
    var order := SortBy<nat>(idx, ByTarget(rows), idx);
    ClashingOrder(rows, idx, order);
    var r := seq(|order|, p requires 0 <= p < |order| => rows[order[p]]);
    TargetRowsSorted(rows, order, r);
    TargetRowsMembers(rows, order, r);
    r
  }

  /** Any rearrangement of the clashing rows' positions lists exactly those
      positions. */
  lemma ClashingOrder(rows: seq<Entry>, idx: seq<nat>, order: seq<nat>)
    requires forall i :: i in idx <==> i < |rows| && TargetClash(rows, i)
    requires multiset(order) == multiset(idx)
    ensures forall i :: i in order <==> i < |rows| && TargetClash(rows, i)
    ensures forall p :: 0 <= p < |order| ==> order[p] < |rows|
  {
    SameMultisetSameMembers(order, idx);
    forall p | 0 <= p < |order| ensures order[p] < |rows| {
      assert order[p] in order;
    }
  }

  lemma TargetRowsMembers(rows: seq<Entry>, order: seq<nat>, r: seq<Entry>)
    requires forall i :: i in order <==> i < |rows| && TargetClash(rows, i)
    requires |r| == |order| && forall p :: 0 <= p < |order| ==> order[p] < |rows| && r[p] == rows[order[p]]
    ensures forall p :: 0 <= p < |r| ==> exists i :: TargetClash(rows, i) && rows[i] == r[p]
    ensures forall i :: TargetClash(rows, i) ==> rows[i] in r
  {
    forall p | 0 <= p < |r| ensures TargetClash(rows, order[p]) && rows[order[p]] == r[p] {
      assert order[p] in order;
    }
    assert forall p :: 0 <= p < |r| ==> exists i :: TargetClash(rows, i) && rows[i] == r[p];
    forall i | TargetClash(rows, i) ensures rows[i] in r {
      assert i in order;
      var p :| 0 <= p < |order| && order[p] == i;
      assert r[p] == rows[i];
    }
  }

  lemma TargetRowsSorted(rows: seq<Entry>, order: seq<nat>, r: seq<Entry>)
    requires SortedBy(order, ByTarget(rows))
    requires |r| == |order| && forall p :: 0 <= p < |order| ==> order[p] < |rows| && r[p] == rows[order[p]]
    ensures forall p, q :: 0 <= p < q < |r| ==> !StrLess(r[q].target, r[p].target)
  {
    forall p, q | 0 <= p < q < |r| ensures !StrLess(r[q].target, r[p].target) {
      assert ByTarget(rows)(order[p], order[q]);
      var a, b := r[p].target, r[q].target;
      if StrLess(b, a) {
        if StrLess(a, b) {
          StrLessTransitive(a, b, a);
        }
        StrLessIrreflexive(a);
      }
    }
  }

  /** The key check fails exactly when two keys are equal ignoring case. */
  lemma KeyCheckFailsIff(rows: seq<Entry>)
    ensures DuplicateKeyNames(rows) != [] <==> HasKeyClash(rows)
  {
    var ks := ClashingKeys(rows, |rows|);
    ClashingKeysMembers(rows, |rows|);
    if HasKeyClash(rows) {
      var i, j :| 0 <= i < |rows| && 0 <= j < |rows| && i != j &&
        LowerStr(rows[i].key) == LowerStr(rows[j].key);
      assert KeyClash(rows, i);
      assert rows[i].key in DuplicateKeyNames(rows);
    }
    if DuplicateKeyNames(rows) != [] {
      assert DuplicateKeyNames(rows)[0] in ks;
      var i :| 0 <= i < |rows| && KeyClash(rows, i) && rows[i].key == DuplicateKeyNames(rows)[0];
      var j :| 0 <= j < |rows| && j != i && LowerStr(rows[j].key) == LowerStr(rows[i].key);
    }
  }

  /** The target check fails exactly when two targets are equal. */
  lemma TargetCheckFailsIff(rows: seq<Entry>)
    ensures DuplicateTargetRows(rows) != [] <==> HasTargetClash(rows)
  {
    var d := DuplicateTargetRows(rows);
    if HasTargetClash(rows) {
      var i, j :| 0 <= i < |rows| && 0 <= j < |rows| && i != j && rows[i].target == rows[j].target;
      assert TargetClash(rows, i);
      assert rows[i] in d;
    }
    if d != [] {
      var e := d[0];
      assert exists i :: TargetClash(rows, i) && rows[i] == e;
      var i :| TargetClash(rows, i) && rows[i] == e;
      var j :| 0 <= j < |rows| && j != i && rows[j].target == rows[i].target;
    }
  }

  /** The table check of `load_files`: keys first, then targets; only when
      both pass does the table become the key → target dictionary, one entry
      per surviving row, in row order. */
  function Validate(table: seq<(Cell, Cell)>): (r: Result<seq<Entry>, LoadError>)
    ensures var rows := Surviving(table);
      && (r.Err? && r.error.DuplicateKeys? <==> HasKeyClash(rows))
      && (r.Err? && r.error.DuplicateTargets? <==> !HasKeyClash(rows) && HasTargetClash(rows))
      && (r.Ok? ==> r.value == rows && DistinctKeys(r.value))
      && (r.Err? && r.error.DuplicateKeys? ==> r.error.names == DuplicateKeyNames(rows))
      && (r.Err? && r.error.DuplicateTargets? ==> r.error.rows == DuplicateTargetRows(rows))
  {
    var rows := Surviving(table);
    KeyCheckFailsIff(rows);
    TargetCheckFailsIff(rows);
    var names := DuplicateKeyNames(rows);
    if names != [] then
      Err(DuplicateKeys(names))
    else
      var dups := DuplicateTargetRows(rows);
      if dups != [] then Err(DuplicateTargets(dups)) else Ok(rows)
  }

  /** The dictionary `{key: target for each row}`. */
  function ToMap(entries: seq<Entry>): (m: map<string, string>)
    ensures forall i :: 0 <= i < |entries| ==> entries[i].key in m
    ensures |m| <= |entries|
  {
    if entries == [] then map[]
    else
      var n := |entries| - 1;
      ToMap(entries[..n])[entries[n].key := entries[n].target]
  }

  /** With keys that differ (even ignoring case) the dictionary has one
      entry per row, and each row's key maps to its own target. */
  lemma {:induction false} ToMapOnePerRow(entries: seq<Entry>)
    requires DistinctKeys(entries)
    ensures |ToMap(entries)| == |entries|
    ensures forall i :: 0 <= i < |entries| ==> ToMap(entries)[entries[i].key] == entries[i].target
  {
    if entries != [] {
      var n := |entries| - 1;
      var prefix := entries[..n];
      assert DistinctKeys(prefix);
      ToMapOnePerRow(prefix);
      var m := ToMap(prefix);
      assert |m| == n;
      assert entries[n].key !in m by {
        if entries[n].key in m {
          KeyCameFromRow(prefix, entries[n].key);
        }
      }
      forall i | 0 <= i < |entries| ensures ToMap(entries)[entries[i].key] == entries[i].target {
        if i < n {
          assert entries[i].key != entries[n].key by {
            assert LowerStr(entries[i].key) != LowerStr(entries[n].key);
          }
        }
      }
    }
  }

  lemma {:induction false} KeyCameFromRow(entries: seq<Entry>, k: string)
    requires k in ToMap(entries)
    ensures exists i :: 0 <= i < |entries| && entries[i].key == k
  {
    var n := |entries| - 1;
    if entries[n].key != k {
      KeyCameFromRow(entries[..n], k);
      var i :| 0 <= i < n && entries[..n][i].key == k;
      assert entries[i].key == k;
    }
  }

  /** A table that passes validation yields a dictionary with exactly one
      entry per surviving row, mapping each row's key to its target. */
  lemma MappingOnePerRow(table: seq<(Cell, Cell)>)
    requires Validate(table).Ok?
    ensures var rows := Surviving(table); var m := ToMap(Validate(table).value);
      && |m| == |rows|
      && forall i :: 0 <= i < |rows| ==> rows[i].key in m && m[rows[i].key] == rows[i].target
  {
    ToMapOnePerRow(Validate(table).value);
  }

  /** The key error lists what the dialog shows: every clashing key spelling
      once, in sorted order. */
  lemma DuplicateKeyNamesDetails(rows: seq<Entry>)
    ensures var names := DuplicateKeyNames(rows);
      && (forall k :: k in names <==> exists i :: KeyClash(rows, i) && rows[i].key == k)
      && Distinct(names)
      && (forall p, q :: 0 <= p < q < |names| ==> StrLess(names[p], names[q]))
  {
    var names := DuplicateKeyNames(rows);
    ClashingKeysMembers(rows, |rows|);
    forall p, q | 0 <= p < q < |names| ensures names[p] != names[q] {
      StrLessIrreflexive(names[p]);
    }
  }

  /** The target error lists what the dialog shows: every clashing row,
      sorted by target name. */
  lemma DuplicateTargetRowsDetails(rows: seq<Entry>)
    ensures var dups := DuplicateTargetRows(rows);
      && (forall e :: e in dups <==> exists i :: TargetClash(rows, i) && rows[i] == e)
      && (forall p, q :: 0 <= p < q < |dups| ==> !StrLess(dups[q].target, dups[p].target))
  {
    var dups := DuplicateTargetRows(rows);
    forall e | e in dups ensures exists i :: TargetClash(rows, i) && rows[i] == e {
      var p :| 0 <= p < |dups| && dups[p] == e;
    }
  }

  /** The rows whose target clashes, in table order. */
  function ClashingEntries(rows: seq<Entry>, n: nat): (r: seq<Entry>)
    requires n <= |rows|
    ensures forall e :: e in r <==> exists i :: 0 <= i < n && TargetClash(rows, i) && rows[i] == e
  {
    if n == 0 then []
    else ClashingEntries(rows, n - 1) + (if TargetClash(rows, n - 1) then [rows[n - 1]] else [])
  }

  /** The rows of the target error are the clashing rows rearranged: each
      is listed as often as it occurs among them, and no other row is. */
  lemma DuplicateTargetRowsPermutation(rows: seq<Entry>)
    ensures |DuplicateTargetRows(rows)| == |ClashingEntries(rows, |rows|)|
    ensures multiset(DuplicateTargetRows(rows)) == multiset(ClashingEntries(rows, |rows|))
  {
    var idx := ClashingRows(rows, |rows|);
    ByTargetIsStrict(rows, idx);
    var order := SortBy<nat>(idx, ByTarget(rows), idx);
    ClashingOrder(rows, idx, order);
    var dups := seq(|order|, p requires 0 <= p < |order| => rows[order[p]]);
    assert DuplicateTargetRows(rows) == dups;
    ClashingEntriesAt(rows, |rows|);
    SortedRowsPermutation(rows, idx, order, dups);
  }

  lemma SortedRowsPermutation(rows: seq<Entry>, idx: seq<nat>, order: seq<nat>, dups: seq<Entry>)
    requires multiset(order) == multiset(idx)
    requires |dups| == |order| && forall p :: 0 <= p < |order| ==> order[p] < |rows| && dups[p] == rows[order[p]]
    ensures multiset(dups) == multiset(Map(RowAt(rows), idx)) && |dups| == |idx|
  {
    var at := RowAt(rows);
    assert dups == Map(at, order);
    MapPermutation(at, order, idx);
    assert |multiset(order)| == |multiset(idx)|;
  }

  /** Row `i` of the table, as a total function (positions past the end,
      which never occur here, give an empty entry). */
  function RowAt(rows: seq<Entry>): nat -> Entry
  {
    (i: nat) => if i < |rows| then rows[i] else Entry("", "")
  }

  lemma {:induction false} ClashingEntriesAt(rows: seq<Entry>, n: nat)
    requires n <= |rows|
    ensures ClashingEntries(rows, n) == Map(RowAt(rows), ClashingRows(rows, n))
  {
    if n > 0 {
      ClashingEntriesAt(rows, n - 1);
      ClashingStep(rows, n);
      var at := RowAt(rows);
      assert at(n - 1) == rows[n - 1];
      MapStep(at, ClashingRows(rows, n - 1), ClashingEntries(rows, n - 1), TargetClash(rows, n - 1), n - 1, rows[n - 1]);
    }
  }

  /** One more row of the table adds at most itself to the clashing rows. */
  lemma ClashingStep(rows: seq<Entry>, n: nat)
    requires 0 < n <= |rows|
    ensures ClashingRows(rows, n) == ClashingRows(rows, n - 1) + if TargetClash(rows, n - 1) then [n - 1] else []
    ensures ClashingEntries(rows, n) == ClashingEntries(rows, n - 1) + if TargetClash(rows, n - 1) then [rows[n - 1]] else []
  {
  }

  /** Mapping a list of row positions extended by at most one position. */
  lemma MapStep(at: nat -> Entry, prefix: seq<nat>, entries: seq<Entry>, clash: bool, k: nat, e: Entry)
    requires entries == Map(at, prefix) && at(k) == e
    ensures entries + (if clash then [e] else []) == Map(at, prefix + if clash then [k] else [])
  {
    MapConcat(at, prefix, if clash then [k] else []);
  }
}
