/** The matching step of `load_files`: every name in the source listing is
    given to at most one key of the mapping (the longest key that matches,
    the earlier row on a tie), and the matched names are grouped by key. */
module Matcher {
  import opened Text
  import opened Paths
  import opened Optional
  import opened Sorting
  import opened Sequences

  /** "包含" (contains) or the other choice, "精确" (exact). */
  datatype MatchType = Contains | Exact

  /** One entry of `matched_files`: a key and the names matched to it, in the
      order they were matched. */
  datatype Group = Group(key: string, items: seq<string>)

  /** Contains: `key.lower() in item.lower()`. Exact: the name without its
      extension equals the key, ignoring case. */
  predicate Matches(key: string, item: string, mt: MatchType)
  {
    match mt
    case Contains => IsSubstring(LowerStr(key), LowerStr(item))
    case Exact => LowerStr(SplitExt(item).0) == LowerStr(key)
  }

  /** The row positions `0 .. n-1`. */
  function Indices(n: nat): (r: seq<nat>)
    ensures |r| == n && forall i :: 0 <= i < n ==> r[i] == i
  {
    seq(n, i requires 0 <= i < n => i as nat)
  }

  /** `sorted(keys, key=len, reverse=True)`: longer keys first; Python's sort
      is stable, also when reversed, so equal lengths keep row order. */
  function LongerFirst(keys: seq<string>): (nat, nat) -> bool
  {
    (a: nat, b: nat) => a < |keys| && b < |keys| &&
      (|keys[a]| > |keys[b]| || (|keys[a]| == |keys[b]| && a < b))
  }

  lemma LongerFirstIsStrict(keys: seq<string>, u: seq<nat>)
    requires forall i :: i in u ==> i < |keys|
    ensures StrictTotalOn(u, LongerFirst(keys))
  {
  }

  /** The order in which the keys are tried: every row position once. */
  function KeyOrder(keys: seq<string>): (r: seq<nat>)
    ensures |r| == |keys|
    ensures forall i: nat :: i in r <==> i < |keys|
    ensures SortedBy(r, LongerFirst(keys))
  {
    var all := Indices(|keys|);
    LongerFirstIsStrict(keys, all);
    var r := SortBy<nat>(all, LongerFirst(keys), all);
    SameMultisetSameMembers(r, all);
    assert forall i: nat :: i in all <==> i < |keys| by {
      forall i: nat ensures i in all <==> i < |keys| {
        if i < |keys| {
          assert all[i] == i;
        }
        if i in all {
          var j :| 0 <= j < |all| && all[j] == i;
        }
      }
    }
    assert |r| == |multiset(r)| == |multiset(all)| == |all|;
    r
  }

  /** The first position of `order` whose key matches `item`. */
  function FirstMatchAt(keys: seq<string>, order: seq<nat>, item: string, mt: MatchType): (r: Option<nat>)
    requires forall p :: 0 <= p < |order| ==> order[p] < |keys|
    ensures r.Some? ==> r.value < |order| && Matches(keys[order[r.value]], item, mt)
    ensures forall q :: 0 <= q < |order| && (r.None? || q < r.value) ==> !Matches(keys[order[q]], item, mt)
  {
    if order == [] then None
    else if Matches(keys[order[0]], item, mt) then Some(0)
    else
      match FirstMatchAt(keys, order[1..], item, mt)
      case None => None
      case Some(p) => Some(p + 1)
  }

  /** The row of the key `item` is filed under, if any. */
  function Assign(keys: seq<string>, item: string, mt: MatchType): (r: Option<nat>)
    ensures r.Some? ==> r.value < |keys|
  {
    var order := KeyOrder(keys);
    KeyOrderInRange(keys);
    match FirstMatchAt(keys, order, item, mt)
    case None => None
    case Some(p) => Some(order[p])
  }

  lemma KeyOrderInRange(keys: seq<string>)
    ensures forall p :: 0 <= p < |KeyOrder(keys)| ==> KeyOrder(keys)[p] < |keys|
  {
    var order := KeyOrder(keys);
    forall p | 0 <= p < |order| ensures order[p] < |keys| {
      assert order[p] in order;
    }
  }

  /** A name is filed under a key that matches it, and left unmatched only
      when no key matches it. */
  lemma AssignMatches(keys: seq<string>, item: string, mt: MatchType)
    ensures var r := Assign(keys, item, mt);
      && (r.Some? ==> Matches(keys[r.value], item, mt))
      && (r.None? <==> forall i :: 0 <= i < |keys| ==> !Matches(keys[i], item, mt))
  {
    var order := KeyOrder(keys);
    KeyOrderInRange(keys);
    var f := FirstMatchAt(keys, order, item, mt);
    if f.None? {
      forall i | 0 <= i < |keys| ensures !Matches(keys[i], item, mt) {
        assert i in order;
        var q :| 0 <= q < |order| && order[q] == i;
      }
    }
  }

  /** The key an item is filed under is the longest key that matches it;
      among matching keys of that length, it is the one of the earliest row. */
  lemma AssignIsLongestEarliest(keys: seq<string>, item: string, mt: MatchType)
    requires Assign(keys, item, mt).Some?
    ensures var a := Assign(keys, item, mt).value;
      forall i :: 0 <= i < |keys| && i != a && Matches(keys[i], item, mt) ==>
        |keys[i]| < |keys[a]| || (|keys[i]| == |keys[a]| && a < i)
  {
    var order := KeyOrder(keys);
    KeyOrderInRange(keys);
    FirstMatchIsLongest(keys, order, item, mt);
  }

  /** In an order sorted longest first, the first matching key beats every
      other matching key. */
  lemma FirstMatchIsLongest(keys: seq<string>, order: seq<nat>, item: string, mt: MatchType)
    requires forall p :: 0 <= p < |order| ==> order[p] < |keys|
    requires forall i: nat :: i in order <==> i < |keys|
    requires SortedBy(order, LongerFirst(keys))
    requires FirstMatchAt(keys, order, item, mt).Some?
    ensures var a := order[FirstMatchAt(keys, order, item, mt).value];
      forall i :: 0 <= i < |keys| && i != a && Matches(keys[i], item, mt) ==>
        |keys[i]| < |keys[a]| || (|keys[i]| == |keys[a]| && a < i)
  {
    var p := FirstMatchAt(keys, order, item, mt).value;
    var a := order[p];
    forall i | 0 <= i < |keys| && i != a && Matches(keys[i], item, mt)
      ensures |keys[i]| < |keys[a]| || (|keys[i]| == |keys[a]| && a < i)
    {
      assert i in order;
      var q :| 0 <= q < |order| && order[q] == i;
      assert p < q;
      assert LongerFirst(keys)(order[p], order[q]);
    }
  }

  /** How the loop files each name: under a key row, or nowhere. */
  function Filing(keys: seq<string>, mt: MatchType): string -> Option<nat>
  {
    x => Assign(keys, x, mt)
  }

  /** `file` only names rows below `n`. */
  ghost predicate FilesBelow(file: string -> Option<nat>, n: nat)
  {
    forall x :: file(x).Some? ==> file(x).value < n
  }

  lemma FilingFilesBelow(keys: seq<string>, mt: MatchType)
    ensures FilesBelow(Filing(keys, mt), |keys|)
  {
  }

  /** The names filed nowhere, in listing order, repeats included. */
  function UnmatchedOf(items: seq<string>, file: string -> Option<nat>): (r: seq<string>)
    ensures |r| <= |items|
  {
    if items == [] then []
    else
      var n := |items| - 1;
      UnmatchedOf(items[..n], file) + (if file(items[n]).None? then [items[n]] else [])
  }

  /** The key row of every filed name, in listing order. */
  function MatchedKeyList(items: seq<string>, file: string -> Option<nat>): (r: seq<nat>)
    ensures |r| <= |items|
  {
    if items == [] then []
    else
      var n := |items| - 1;
      MatchedKeyList(items[..n], file) + (if file(items[n]).Some? then [file(items[n]).value] else [])
  }

  /** The names filed under key row `k`, in listing order, repeats included. */
  function FiledUnder(items: seq<string>, file: string -> Option<nat>, k: nat): (r: seq<string>)
    ensures |r| <= |items|
  {
    if items == [] then []
    else
      var n := |items| - 1;
      FiledUnder(items[..n], file, k) + (if file(items[n]) == Some(k) then [items[n]] else [])
  }

  lemma {:induction false} UnmatchedMembers(items: seq<string>, file: string -> Option<nat>)
    ensures forall x :: x in UnmatchedOf(items, file) <==> x in items && file(x).None?
  {
    if items != [] {
      var n := |items| - 1;
      UnmatchedMembers(items[..n], file);
      assert items == items[..n] + [items[n]];
    }
  }

  lemma {:induction false} MatchedKeyListMembers(items: seq<string>, file: string -> Option<nat>)
    ensures forall k :: k in MatchedKeyList(items, file) <==> exists x :: x in items && file(x) == Some(k)
  {
    if items != [] {
      var n := |items| - 1;
      MatchedKeyListMembers(items[..n], file);
      assert items == items[..n] + [items[n]];
      forall k | exists x :: x in items && file(x) == Some(k)
        ensures k in MatchedKeyList(items, file)
      {
        var x :| x in items && file(x) == Some(k);
        if x != items[n] {
          assert x in items[..n];
        }
      }
    }
  }

  lemma {:induction false} FiledUnderMembers(items: seq<string>, file: string -> Option<nat>, k: nat)
    ensures forall x :: x in FiledUnder(items, file, k) <==> x in items && file(x) == Some(k)
  {
    if items != [] {
      var n := |items| - 1;
      FiledUnderMembers(items[..n], file, k);
      assert items == items[..n] + [items[n]];
    }
  }

  /** A key row with names filed under it is in the list of used rows. */
  lemma {:induction false} FiledUnderNeedsKey(items: seq<string>, file: string -> Option<nat>, k: nat)
    ensures FiledUnder(items, file, k) != [] ==> k in MatchedKeyList(items, file)
  {
    if items != [] {
      FiledUnderNeedsKey(items[..|items| - 1], file, k);
    }
  }

  /** The rows of the keys that filed something, in the order of their first
      filing. */
  function KeysInUse(items: seq<string>, file: string -> Option<nat>, n: nat): (ks: seq<nat>)
    requires FilesBelow(file, n)
    ensures forall p :: 0 <= p < |ks| ==> ks[p] < n
  {
    var ks := Dedup(MatchedKeyList(items, file));
    assert forall p :: 0 <= p < |ks| ==> ks[p] < n by {
      forall p | 0 <= p < |ks| ensures ks[p] < n {
        MatchedKeyListMembers(items, file);
        assert ks[p] in MatchedKeyList(items, file);
      }
    }
    ks
  }

  /** `matched_files` after the listing: one group per key that filed
      something, in the order of each key's first filing; in each group the
      names filed under that key, in listing order, each once (a name met
      again is skipped through `processed_items`). */
  function GroupsOf(keys: seq<string>, items: seq<string>, file: string -> Option<nat>): (g: seq<Group>)
    requires FilesBelow(file, |keys|)
    ensures |g| == |KeysInUse(items, file, |keys|)|
  {
    var ks := KeysInUse(items, file, |keys|);
    seq(|ks|, p requires 0 <= p < |ks| => Group(keys[ks[p]], Dedup(FiledUnder(items, file, ks[p]))))
  }

  /** The group at position `q` is the key's row and the names filed under
      it. */
  lemma GroupAt(keys: seq<string>, items: seq<string>, file: string -> Option<nat>, q: nat)
    requires FilesBelow(file, |keys|) && q < |KeysInUse(items, file, |keys|)|
    ensures var k := KeysInUse(items, file, |keys|)[q];
      q < |GroupsOf(keys, items, file)| &&
      GroupsOf(keys, items, file)[q] == Group(keys[k], Dedup(FiledUnder(items, file, k)))
  {
  }

  /** `processed_items`: the names already filed under a key. */
  function Processed(items: seq<string>, file: string -> Option<nat>): set<string>
  {
    if items == [] then {}
    else
      var n := |items| - 1;
      if file(items[n]).Some? then Processed(items[..n], file) + {items[n]} else Processed(items[..n], file)
  }

  /** `processed_items` holds exactly the names seen so far that were filed. */
  lemma {:induction false} ProcessedMembers(items: seq<string>, file: string -> Option<nat>)
    ensures forall x :: x in Processed(items, file) <==> x in items && file(x).Some?
  {
    if items != [] {
      var n := |items| - 1;
      ProcessedMembers(items[..n], file);
      assert items == items[..n] + [items[n]];
    }
  }

  /** Filing partitions the listing: a name is unmatched exactly when no
      group holds it, and a filed name sits in exactly one group, the one of
      its key. Groups have distinct keys, are never empty and hold no name
      twice. */
  lemma GroupsPartition(keys: seq<string>, items: seq<string>, file: string -> Option<nat>)
    requires Distinct(keys) && FilesBelow(file, |keys|)
    ensures var g, u := GroupsOf(keys, items, file), UnmatchedOf(items, file);
      && (forall x :: x in items ==> (x in u <==> forall p :: 0 <= p < |g| ==> x !in g[p].items))
      && (forall p, x :: 0 <= p < |g| ==>
            (x in g[p].items <==> x in items && file(x).Some? && keys[file(x).value] == g[p].key))
      && (forall p, q :: 0 <= p < |g| && 0 <= q < |g| && p != q ==> g[p].key != g[q].key)
      && (forall p :: 0 <= p < |g| ==> g[p].items != [] && Distinct(g[p].items))
  {
    GroupsHoldTheirNames(keys, items, file);
    UnmatchedIffInNoGroup(keys, items, file);
    GroupKeysDistinct(keys, items, file);
    GroupsNonEmpty(keys, items, file);
  }

  lemma GroupsHoldTheirNames(keys: seq<string>, items: seq<string>, file: string -> Option<nat>)
    requires Distinct(keys) && FilesBelow(file, |keys|)
    ensures var g := GroupsOf(keys, items, file);
      forall p, x :: 0 <= p < |g| ==>
        (x in g[p].items <==> x in items && file(x).Some? && keys[file(x).value] == g[p].key)
  {
    var g := GroupsOf(keys, items, file);
    forall p, x | 0 <= p < |g|
      ensures x in g[p].items <==> x in items && file(x).Some? && keys[file(x).value] == g[p].key
    {
      GroupHolds(keys, items, file, p, x);
      var k := KeysInUse(items, file, |keys|)[p];
      if file(x).Some? && file(x).value != k {
        var v := file(x).value;
        if v < k {
          assert keys[v] != keys[k];
        } else {
          assert keys[k] != keys[v];
        }
      }
    }
  }

  lemma UnmatchedIffInNoGroup(keys: seq<string>, items: seq<string>, file: string -> Option<nat>)
    requires FilesBelow(file, |keys|)
    ensures var g, u := GroupsOf(keys, items, file), UnmatchedOf(items, file);
      forall x :: x in items ==> (x in u <==> forall p :: 0 <= p < |g| ==> x !in g[p].items)
  {
    var g := GroupsOf(keys, items, file);
    UnmatchedMembers(items, file);
    forall x | x in items
      ensures x in UnmatchedOf(items, file) <==> forall p :: 0 <= p < |g| ==> x !in g[p].items
    {
      if file(x).Some? {
        var p := UsedKeyHasGroup(items, file, |keys|, x);
        GroupHolds(keys, items, file, p, x);
        assert x in g[p].items;
      } else {
        forall p | 0 <= p < |g| ensures x !in g[p].items {
          GroupHolds(keys, items, file, p, x);
        }
      }
    }
  }

  lemma GroupKeysDistinct(keys: seq<string>, items: seq<string>, file: string -> Option<nat>)
    requires Distinct(keys) && FilesBelow(file, |keys|)
    ensures var g := GroupsOf(keys, items, file);
      forall p, q :: 0 <= p < |g| && 0 <= q < |g| && p != q ==> g[p].key != g[q].key
  {
    var g := GroupsOf(keys, items, file);
    var ks := KeysInUse(items, file, |keys|);
    KeysInUseDistinct(items, file, |keys|);
    forall p, q | 0 <= p < |g| && 0 <= q < |g| && p != q ensures g[p].key != g[q].key {
      GroupAt(keys, items, file, p);
      GroupAt(keys, items, file, q);
      var a, b := ks[p], ks[q];
      assert a != b;
      if a < b {
        assert keys[a] != keys[b];
      } else {
        assert keys[b] != keys[a];
      }
    }
  }

  lemma KeysInUseDistinct(items: seq<string>, file: string -> Option<nat>, n: nat)
    requires FilesBelow(file, n)
    ensures Distinct(KeysInUse(items, file, n))
  {
  }

  lemma GroupsNonEmpty(keys: seq<string>, items: seq<string>, file: string -> Option<nat>)
    requires FilesBelow(file, |keys|)
    ensures var g := GroupsOf(keys, items, file);
      forall p :: 0 <= p < |g| ==> g[p].items != [] && Distinct(g[p].items)
  {
    var g := GroupsOf(keys, items, file);
    forall p | 0 <= p < |g| ensures g[p].items != [] && Distinct(g[p].items) {
      var x := UsedKeyIsUsed(items, file, |keys|, p);
      GroupHolds(keys, items, file, p, x);
    }
  }

  /** What group `p` holds: the names filed under its key, each once. */
  lemma GroupHolds(keys: seq<string>, items: seq<string>, file: string -> Option<nat>, p: nat, x: string)
    requires FilesBelow(file, |keys|) && p < |KeysInUse(items, file, |keys|)|
    ensures var k, g := KeysInUse(items, file, |keys|)[p], GroupsOf(keys, items, file);
      && p < |g| && g[p].key == keys[k] && Distinct(g[p].items)
      && (x in g[p].items <==> x in items && file(x) == Some(k))
  {
    var k := KeysInUse(items, file, |keys|)[p];
    GroupAt(keys, items, file, p);
    var filed := FiledUnder(items, file, k);
    FiledUnderMembers(items, file, k);
    var d := Dedup(filed);
    if x in filed {
      var j :| 0 <= j < |filed| && filed[j] == x;
    }
    if x in d {
      var j :| 0 <= j < |d| && d[j] == x;
    }
  }

  /** Every key row a name is filed under has a group. */
  lemma UsedKeyHasGroup(items: seq<string>, file: string -> Option<nat>, n: nat, x: string) returns (p: nat)
    requires FilesBelow(file, n) && x in items && file(x).Some?
    ensures p < |KeysInUse(items, file, n)| && KeysInUse(items, file, n)[p] == file(x).value
  {
    MatchedKeyListMembers(items, file);
    var ml := MatchedKeyList(items, file);
    assert file(x).value in ml;
    var j :| 0 <= j < |ml| && ml[j] == file(x).value;
    assert ml[j] in KeysInUse(items, file, n);
    var q :| 0 <= q < |KeysInUse(items, file, n)| && KeysInUse(items, file, n)[q] == file(x).value;
    p := q;
  }

  /** Every group's key has a name filed under it. */
  lemma UsedKeyIsUsed(items: seq<string>, file: string -> Option<nat>, n: nat, p: nat) returns (x: string)
    requires FilesBelow(file, n) && p < |KeysInUse(items, file, n)|
    ensures x in items && file(x) == Some(KeysInUse(items, file, n)[p])
  {
    MatchedKeyListMembers(items, file);
    var k := KeysInUse(items, file, n)[p];
    assert k in MatchedKeyList(items, file);
    x :| x in items && file(x) == Some(k);
  }

  /** One more name extends the spec sequences by at most that name. */
  lemma SnocStep(pre: seq<string>, x: string, file: string -> Option<nat>)
    ensures var post := pre + [x];
      && UnmatchedOf(post, file) == (if file(x).None? then UnmatchedOf(pre, file) + [x] else UnmatchedOf(pre, file))
      && MatchedKeyList(post, file) ==
           (if file(x).Some? then MatchedKeyList(pre, file) + [file(x).value] else MatchedKeyList(pre, file))
  {
    assert (pre + [x])[..|pre|] == pre;
  }

  lemma FiledUnderSnoc(pre: seq<string>, x: string, file: string -> Option<nat>, k: nat)
    ensures FiledUnder(pre + [x], file, k) ==
      (if file(x) == Some(k) then FiledUnder(pre, file, k) + [x] else FiledUnder(pre, file, k))
  {
    assert (pre + [x])[..|pre|] == pre;
  }

  /** A name filed nowhere, or one already filed, leaves the groups as they
      are. */
  lemma GroupsStepKeep(keys: seq<string>, pre: seq<string>, x: string, file: string -> Option<nat>)
    requires FilesBelow(file, |keys|)
    requires file(x).None? || x in Processed(pre, file)
    ensures GroupsOf(keys, pre + [x], file) == GroupsOf(keys, pre, file)
  {
    var post := pre + [x];
    SnocStep(pre, x, file);
    ProcessedMembers(pre, file);
    var ml := MatchedKeyList(pre, file);
    if file(x).Some? {
      MatchedKeyListMembers(pre, file);
      assert file(x).value in ml;
      DedupSnoc<nat>(ml, file(x).value);
    }
    var ks := KeysInUse(pre, file, |keys|);
    assert KeysInUse(post, file, |keys|) == ks;
    var g, g' := GroupsOf(keys, pre, file), GroupsOf(keys, post, file);
    forall p | 0 <= p < |ks| ensures g'[p] == g[p] {
      GroupAt(keys, post, file, p);
      GroupAt(keys, pre, file, p);
      FiledUnderSnoc(pre, x, file, ks[p]);
      if file(x) == Some(ks[p]) {
        FiledUnderMembers(pre, file, ks[p]);
        DedupSnoc(FiledUnder(pre, file, ks[p]), x);
      }
    }
  }

  /** A new name filed under a key that already has a group joins the end of
      that group. */
  lemma GroupsStepJoin(keys: seq<string>, pre: seq<string>, x: string, file: string -> Option<nat>, p: nat)
    requires FilesBelow(file, |keys|)
    requires file(x).Some? && x !in pre
    requires p < |KeysInUse(pre, file, |keys|)| && KeysInUse(pre, file, |keys|)[p] == file(x).value
    ensures var g := GroupsOf(keys, pre, file);
      p < |g| && GroupsOf(keys, pre + [x], file) == g[p := Group(g[p].key, g[p].items + [x])]
  {
    JoinKeepsOthers(pre, x, file, |keys|, p);
    GroupsReplace(keys, pre, pre + [x], file, p, x);
  }

  /** Filing a new name under a used key keeps the key list and adds the name
      to that key only. */
  lemma JoinKeepsOthers(pre: seq<string>, x: string, file: string -> Option<nat>, n: nat, p: nat)
    requires FilesBelow(file, n)
    requires file(x).Some? && x !in pre
    requires p < |KeysInUse(pre, file, n)| && KeysInUse(pre, file, n)[p] == file(x).value
    ensures var k, ks := file(x).value, KeysInUse(pre, file, n);
      && KeysInUse(pre + [x], file, n) == ks
      && Dedup(FiledUnder(pre + [x], file, k)) == Dedup(FiledUnder(pre, file, k)) + [x]
      && forall q :: 0 <= q < |ks| && q != p ==> FiledUnder(pre + [x], file, ks[q]) == FiledUnder(pre, file, ks[q])
  {
    var k := file(x).value;
    SnocStep(pre, x, file);
    var ml := MatchedKeyList(pre, file);
    var ks := KeysInUse(pre, file, n);
    assert ks[p] in ml;
    DedupSnoc<nat>(ml, k);
    FiledUnderMembers(pre, file, k);
    FiledUnderSnoc(pre, x, file, k);
    DedupSnoc(FiledUnder(pre, file, k), x);
    forall q | 0 <= q < |ks| && q != p
      ensures FiledUnder(pre + [x], file, ks[q]) == FiledUnder(pre, file, ks[q])
    {
      assert ks[q] != k;
      FiledUnderSnoc(pre, x, file, ks[q]);
    }
  }

  /** Groups built from the same key list, where only group `p` gains `x`. */
  lemma GroupsReplace(keys: seq<string>, a: seq<string>, b: seq<string>, file: string -> Option<nat>,
                      p: nat, x: string)
    requires FilesBelow(file, |keys|)
    requires KeysInUse(b, file, |keys|) == KeysInUse(a, file, |keys|)
    requires p < |KeysInUse(a, file, |keys|)|
    requires var ks := KeysInUse(a, file, |keys|);
      && Dedup(FiledUnder(b, file, ks[p])) == Dedup(FiledUnder(a, file, ks[p])) + [x]
      && forall q :: 0 <= q < |ks| && q != p ==> FiledUnder(b, file, ks[q]) == FiledUnder(a, file, ks[q])
    ensures var g := GroupsOf(keys, a, file);
      p < |g| && GroupsOf(keys, b, file) == g[p := Group(g[p].key, g[p].items + [x])]
  {
    var g, g' := GroupsOf(keys, a, file), GroupsOf(keys, b, file);
    var h := g[p := Group(g[p].key, g[p].items + [x])];
    forall q | 0 <= q < |g| ensures g'[q] == h[q] {
      GroupAt(keys, b, file, q);
      GroupAt(keys, a, file, q);
    }
  }

  /** A new name filed under a key without a group opens a group of its own
      at the end. */
  lemma GroupsStepOpen(keys: seq<string>, pre: seq<string>, x: string, file: string -> Option<nat>)
    requires FilesBelow(file, |keys|)
    requires file(x).Some? && file(x).value !in MatchedKeyList(pre, file)
    ensures GroupsOf(keys, pre + [x], file) == GroupsOf(keys, pre, file) + [Group(keys[file(x).value], [x])]
  {
    var post, k := pre + [x], file(x).value;
    OpenKeepsOthers(pre, x, file, |keys|);
    assert Dedup([x]) == [x] by {
      assert [x] == [] + [x];
      DedupSnoc([], x);
    }
    GroupsAppend(keys, pre, post, file, k, [x]);
  }

  /** Filing a name under an unused key adds that key at the end and leaves
      what the other keys hold as it was. */
  lemma OpenKeepsOthers(pre: seq<string>, x: string, file: string -> Option<nat>, n: nat)
    requires FilesBelow(file, n)
    requires file(x).Some? && file(x).value !in MatchedKeyList(pre, file)
    ensures var k, ks := file(x).value, KeysInUse(pre, file, n);
      && KeysInUse(pre + [x], file, n) == ks + [k]
      && FiledUnder(pre + [x], file, k) == [x]
      && forall q :: 0 <= q < |ks| ==> FiledUnder(pre + [x], file, ks[q]) == FiledUnder(pre, file, ks[q])
  {
    var k := file(x).value;
    SnocStep(pre, x, file);
    var ml := MatchedKeyList(pre, file);
    DedupSnoc<nat>(ml, k);
    FiledUnderNeedsKey(pre, file, k);
    FiledUnderSnoc(pre, x, file, k);
    var ks := KeysInUse(pre, file, n);
    forall q | 0 <= q < |ks| ensures FiledUnder(pre + [x], file, ks[q]) == FiledUnder(pre, file, ks[q]) {
      assert ks[q] in ml;
      FiledUnderSnoc(pre, x, file, ks[q]);
    }
  }

  /** Groups built from key lists where one extends the other by a key. */
  lemma GroupsAppend(keys: seq<string>, a: seq<string>, b: seq<string>, file: string -> Option<nat>,
                     k: nat, extra: seq<string>)
    requires FilesBelow(file, |keys|)
    requires KeysInUse(b, file, |keys|) == KeysInUse(a, file, |keys|) + [k]
    requires Dedup(FiledUnder(b, file, k)) == extra
    requires var ks := KeysInUse(a, file, |keys|);
      forall q :: 0 <= q < |ks| ==> FiledUnder(b, file, ks[q]) == FiledUnder(a, file, ks[q])
    ensures k < |keys|
    ensures GroupsOf(keys, b, file) == GroupsOf(keys, a, file) + [Group(keys[k], extra)]
  {
    var ks := KeysInUse(a, file, |keys|);
    assert KeysInUse(b, file, |keys|)[|ks|] == k;
    var g, g' := GroupsOf(keys, a, file), GroupsOf(keys, b, file);
    var h := g + [Group(keys[k], extra)];
    forall q | 0 <= q < |h| ensures g'[q] == h[q] {
      GroupAt(keys, b, file, q);
      if q < |g| {
        GroupAt(keys, a, file, q);
      }
    }
  }

  /** `matched_files[name]`, located by key. */
  function FindGroup(groups: seq<Group>, key: string): (r: Option<nat>)
    ensures r.Some? ==> r.value < |groups| && groups[r.value].key == key
    ensures r.None? ==> forall p :: 0 <= p < |groups| ==> groups[p].key != key
  {
    if groups == [] then None
    else if groups[|groups| - 1].key == key then Some(|groups| - 1)
    else FindGroup(groups[..|groups| - 1], key)
  }

  lemma NothingFiledYet(keys: seq<string>, file: string -> Option<nat>)
    requires FilesBelow(file, |keys|)
    ensures GroupsOf(keys, [], file) == [] && UnmatchedOf([], file) == [] && Processed([], file) == {}
  {
    assert KeysInUse([], file, |keys|) == [];
  }

  /** One more name adds itself to `processed_items` when it is filed. */
  lemma ProcessedSnoc(pre: seq<string>, x: string, file: string -> Option<nat>)
    ensures x in Processed(pre, file) <==> x in pre && file(x).Some?
    ensures Processed(pre + [x], file) ==
      if file(x).Some? then Processed(pre, file) + {x} else Processed(pre, file)
  {
    ProcessedMembers(pre, file);
    assert (pre + [x])[..|pre|] == pre;
  }

  /** Looking a key up among the groups finds the group of that key's row,
      or shows the row has filed nothing yet. */
  lemma FoundGroup(keys: seq<string>, pre: seq<string>, file: string -> Option<nat>, k: nat)
    requires Distinct(keys) && FilesBelow(file, |keys|) && k < |keys|
    ensures var f, ks := FindGroup(GroupsOf(keys, pre, file), keys[k]), KeysInUse(pre, file, |keys|);
      && (f.Some? ==> f.value < |ks| && ks[f.value] == k)
      && (f.None? ==> k !in MatchedKeyList(pre, file))
  {
    var g, ks := GroupsOf(keys, pre, file), KeysInUse(pre, file, |keys|);
    var f := FindGroup(g, keys[k]);
    if f.Some? {
      GroupAt(keys, pre, file, f.value);
    } else if k in MatchedKeyList(pre, file) {
      var q :| 0 <= q < |ks| && ks[q] == k;
      GroupAt(keys, pre, file, q);
    }
  }

  // One turn of the listing loop: what one more name does to the groups,
  // the unmatched list and `processed_items`.

  /** A name already filed changes nothing. */
  lemma StepRepeat(keys: seq<string>, pre: seq<string>, x: string, file: string -> Option<nat>)
    requires FilesBelow(file, |keys|) && x in Processed(pre, file)
    ensures GroupsOf(keys, pre + [x], file) == GroupsOf(keys, pre, file)
    ensures UnmatchedOf(pre + [x], file) == UnmatchedOf(pre, file)
    ensures Processed(pre + [x], file) == Processed(pre, file)
  {
    ProcessedSnoc(pre, x, file);
    assert file(x).Some?;
    assert Processed(pre, file) + {x} == Processed(pre, file);
    SnocStep(pre, x, file);
    GroupsStepKeep(keys, pre, x, file);
  }

  /** A name filed nowhere joins the unmatched list and nothing else. */
  lemma StepUnmatched(keys: seq<string>, pre: seq<string>, x: string, file: string -> Option<nat>)
    requires FilesBelow(file, |keys|) && file(x).None?
    ensures GroupsOf(keys, pre + [x], file) == GroupsOf(keys, pre, file)
    ensures UnmatchedOf(pre + [x], file) == UnmatchedOf(pre, file) + [x]
    ensures Processed(pre + [x], file) == Processed(pre, file)
  {
    ProcessedSnoc(pre, x, file);
    SnocStep(pre, x, file);
    GroupsStepKeep(keys, pre, x, file);
  }

  /** A new name filed under a key with a group joins the end of group `p`. */
  lemma StepJoin(keys: seq<string>, pre: seq<string>, x: string, file: string -> Option<nat>, p: nat)
    requires FilesBelow(file, |keys|)
    requires file(x).Some? && x !in Processed(pre, file)
    requires p < |KeysInUse(pre, file, |keys|)| && KeysInUse(pre, file, |keys|)[p] == file(x).value
    ensures var g := GroupsOf(keys, pre, file);
      p < |g| && GroupsOf(keys, pre + [x], file) == g[p := Group(g[p].key, g[p].items + [x])]
    ensures UnmatchedOf(pre + [x], file) == UnmatchedOf(pre, file)
    ensures Processed(pre + [x], file) == Processed(pre, file) + {x}
  {
    ProcessedSnoc(pre, x, file);
    SnocStep(pre, x, file);
    GroupsStepJoin(keys, pre, x, file, p);
  }

  /** A new name filed under a key without a group opens a group at the end. */
  lemma StepOpen(keys: seq<string>, pre: seq<string>, x: string, file: string -> Option<nat>)
    requires FilesBelow(file, |keys|)
    requires file(x).Some? && file(x).value !in MatchedKeyList(pre, file)
    ensures GroupsOf(keys, pre + [x], file) == GroupsOf(keys, pre, file) + [Group(keys[file(x).value], [x])]
    ensures UnmatchedOf(pre + [x], file) == UnmatchedOf(pre, file)
    ensures Processed(pre + [x], file) == Processed(pre, file) + {x}
  {
    ProcessedSnoc(pre, x, file);
    SnocStep(pre, x, file);
    GroupsStepOpen(keys, pre, x, file);
  }

  /** `file` files every name exactly as `Assign` does. */
  ghost predicate FilingAgrees(keys: seq<string>, mt: MatchType, file: string -> Option<nat>)
  {
    forall x {:trigger Assign(keys, x, mt)} :: file(x) == Assign(keys, x, mt)
  }

  lemma FilingIsAssign(keys: seq<string>, mt: MatchType)
    ensures FilingAgrees(keys, mt, Filing(keys, mt)) && FilesBelow(Filing(keys, mt), |keys|)
  {
  }

  /** The inner loop of `load_files`: the first key, longest first, that
      matches `item`. */
  method FindKey(keys: seq<string>, order: seq<nat>, item: string, mt: MatchType, ghost file: string -> Option<nat>)
    returns (found: Option<nat>)
    requires order == KeyOrder(keys) && FilingAgrees(keys, mt, file)
    ensures found == file(item)
  {
    KeyOrderInRange(keys);
    found := None;
    var p := 0;
    while p < |order|
      invariant 0 <= p <= |order| && found.None?
      invariant forall q :: 0 <= q < p ==> !Matches(keys[order[q]], item, mt)
    {
      if Matches(keys[order[p]], item, mt) {
        found := Some(order[p]);
        break;
      }
      p := p + 1;
    }
    FirstMatchAtIs(keys, order, item, mt, p);
    assert found == Assign(keys, item, mt);
  }

  /** The first position of `order` whose key matches is the one after
      every non-matching position. */
  lemma FirstMatchAtIs(keys: seq<string>, order: seq<nat>, item: string, mt: MatchType, p: nat)
    requires forall q :: 0 <= q < |order| ==> order[q] < |keys|
    requires p <= |order| && forall q :: 0 <= q < p ==> !Matches(keys[order[q]], item, mt)
    requires p < |order| ==> Matches(keys[order[p]], item, mt)
    ensures FirstMatchAt(keys, order, item, mt) == if p < |order| then Some(p) else None
  {
  }

  /** The matching step of `load_files`: sorts the keys longest first, then
      files every name of the listing. */
  method MatchListing(keys: seq<string>, items: seq<string>, mt: MatchType)
    returns (groups: seq<Group>, unmatched: seq<string>)
    requires Distinct(keys)
    ensures FilesBelow(Filing(keys, mt), |keys|)
    ensures groups == GroupsOf(keys, items, Filing(keys, mt))
    ensures unmatched == UnmatchedOf(items, Filing(keys, mt))
  {
    var order := KeyOrder(keys);
    FilingIsAssign(keys, mt);
    groups, unmatched := FileAll(keys, order, items, mt, Filing(keys, mt));
  }

  /** The loop over the listing: files each name under the first key that
      matches it, skips a name already filed, and collects the rest as
      unmatched. */
  method FileAll(keys: seq<string>, order: seq<nat>, items: seq<string>, mt: MatchType,
                 ghost file: string -> Option<nat>)
    returns (groups: seq<Group>, unmatched: seq<string>)
    requires Distinct(keys) && order == KeyOrder(keys)
    requires FilingAgrees(keys, mt, file) && FilesBelow(file, |keys|)
    ensures groups == GroupsOf(keys, items, file)
    ensures unmatched == UnmatchedOf(items, file)
  {
    groups, unmatched := [], [];
    var processed: set<string> := {};
    ghost var seen: seq<string> := [];
    NothingFiledYet(keys, file);
    for j := 0 to |items|
      invariant seen == items[..j]
      invariant groups == GroupsOf(keys, seen, file)
      invariant unmatched == UnmatchedOf(seen, file)
      invariant processed == Processed(seen, file)
    {
      var item := items[j];
      assert items[..j + 1] == seen + [item];
      if item in processed {
        StepRepeat(keys, seen, item, file);
        seen := seen + [item];
        continue;
      }
      var found := FindKey(keys, order, item, mt, file);
      match found {
        case None =>
          StepUnmatched(keys, seen, item, file);
          unmatched := unmatched + [item];
        case Some(k) =>
          var g := FindGroup(groups, keys[k]);
          FoundGroup(keys, seen, file, k);
          if g.Some? {
            StepJoin(keys, seen, item, file, g.value);
            groups := groups[g.value := Group(keys[k], groups[g.value].items + [item])];
          } else {
            StepOpen(keys, seen, item, file);
            groups := groups + [Group(keys[k], [item])];
          }
          processed := processed + {item};
      }
      seen := seen + [item];
    }
    assert seen == items;
  }
}
