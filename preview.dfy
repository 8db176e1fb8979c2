/** `generate_preview`: turns the matched groups into table rows, each with a
    target name and a status, and keeps the unmatched rows of the previous
    table at the end. */
module Preview {
  import opened Text
  import opened Paths
  import opened Sanitizer
  import opened Records
  import opened Matcher

  /** `rename_mode_var`: rename files ("文件") or folders ("文件夹"). */
  datatype Mode = Files | Folders

  /** `duplicate_handling_var`: number the entries ("序号") or skip the whole
      group ("跳过") when a key matched more than one entry. */
  datatype DupPolicy = Number | Skip

  /** `compress_format_var`: the three archive formats of the combo box. */
  datatype Format = Zip | SevenZip | Rar

  /** The choices of the option panel. */
  datatype Options = Options(mode: Mode, compress: bool, format: Format, dup: DupPolicy)

  function FormatName(f: Format): string
  {
    match f
    case Zip => "zip"
    case SevenZip => "7z"
    case Rar => "rar"
  }

  lemma FormatNamePlain(f: Format)
    ensures NoSep(FormatName(f)) && '.' !in FormatName(f)
  {
  }

  /** `is_compressing`: the compress box counts only in folder mode. */
  predicate Compressing(o: Options)
  {
    o.compress && o.mode == Folders
  }

  /** `file_mapping.get(name, "未命名")`. */
  function Lookup(mapping: map<string, string>, key: string): string
  {
    if key in mapping then mapping[key] else Fallback
  }

  /** The target name of a group before numbering: the sanitised mapped
      name, whose extension becomes the archive format when folders are
      compressed. */
  function BaseTarget(mapping: map<string, string>, key: string, o: Options): (r: string)
    ensures !Compressing(o) ==> r == Sanitize(Lookup(mapping, key))
    ensures Compressing(o) ==> r == SplitExt(Sanitize(Lookup(mapping, key))).0 + "." + FormatName(o.format)
  {
    var fromTable := Sanitize(Lookup(mapping, key));
    if Compressing(o) then SplitExt(fromTable).0 + "." + FormatName(o.format) else fromTable
  }

  /** The archive name of a compressed folder is the sanitised mapped name
      with its extension, if it has one, replaced by the format's; the one
      exception is the sanitised name ".", after which the suffix is not
      read as an extension. Without compression the base name is the
      sanitised mapped name, so it is safe. */
  lemma BaseTargetExtension(mapping: map<string, string>, key: string, o: Options)
    ensures var c, r := Sanitize(Lookup(mapping, key)), BaseTarget(mapping, key, o);
      && (!Compressing(o) ==> r == c && IsSafeName(r))
      && (Compressing(o) && c != "." ==> SplitExt(r) == (SplitExt(c).0, "." + FormatName(o.format)))
      && (Compressing(o) && c == "." ==> r == ".." + FormatName(o.format) && SplitExt(r).1 == [])
  {
    var c := Sanitize(Lookup(mapping, key));
    SanitizedDotsIsDot(Lookup(mapping, key));
    FormatNamePlain(o.format);
    ExtensionReplaced(c, FormatName(o.format));
  }

  /** Replacing the extension of a safe name `c` that is not dots only,
      or that is the single dot. */
  lemma ExtensionReplaced(c: string, f: string)
    requires IsSafeName(c) && (AllDots(c) ==> c == ".")
    requires NoSep(f) && '.' !in f
    ensures c != "." ==> SplitExt(SplitExt(c).0 + "." + f) == (SplitExt(c).0, "." + f)
    ensures c == "." ==> SplitExt(c).0 + "." + f == ".." + f && SplitExt(SplitExt(c).0 + "." + f).1 == []
  {
    SafeStemNoSep(c);
    StemAllDots(c);
    if c == "." {
      NoSepLastSep(c);
      LastIndexIs(c, '.', 0);
    }
    SplitExtAppended(SplitExt(c).0, f);
  }

  /** Entry `i` of a group of `n` that is not skipped: numbered `_{i+1}`
      before the extension when the group has several entries, then reduced
      to its last path component and sanitised again. */
  function EntryTarget(base: string, i: nat, n: nat, dup: DupPolicy): (r: string)
    ensures IsSafeName(r)
  {
    Sanitize(Basename(Numbered(base, i, n, dup)))
  }

  /** `f"{target_main}_{i + 1}{target_ext}"` when numbering applies. */
  function Numbered(base: string, i: nat, n: nat, dup: DupPolicy): string
  {
    if n > 1 && dup == Number then SplitExt(base).0 + "_" + NatToDecimal(i + 1) + SplitExt(base).1
    else base
  }

  /** Under the Number policy the entries of a group get different names
      before `basename` and sanitising: only the decimal number differs. */
  lemma NumberedInjective(base: string, i: nat, j: nat, n: nat)
    requires n > 1
    requires Numbered(base, i, n, Number) == Numbered(base, j, n, Number)
    ensures i == j
  {
    var main, ext := SplitExt(base).0, SplitExt(base).1;
    var a, b := NatToDecimal(i + 1), NatToDecimal(j + 1);
    var x := Numbered(base, i, n, Number);
    assert x == main + "_" + a + ext && x == main + "_" + b + ext;
    assert |a| == |b|;
    assert x[|main| + 1..|main| + 1 + |a|] == a;
    assert x[|main| + 1..|main| + 1 + |b|] == b;
    NatToDecimalInjective(i + 1, j + 1);
  }

  /** One row of the preview before its status is decided. */
  datatype Planned = Planned(key: string, source: string, target: string, skipped: bool)

  /** The rows a group contributes, in entry order. */
  function GroupPlan(mapping: map<string, string>, g: Group, o: Options): (r: seq<Planned>)
    ensures |r| == |g.items|
    ensures forall i :: 0 <= i < |r| ==>
      && r[i].key == g.key && r[i].source == g.items[i]
      && (r[i].skipped <==> |g.items| > 1 && o.dup == Skip)
  {
    var base := BaseTarget(mapping, g.key, o);
    var n := |g.items|;
    if n > 1 && o.dup == Skip then
      seq(n, i requires 0 <= i < n => Planned(g.key, g.items[i], base, true))
    else
      seq(n, i requires 0 <= i < n => Planned(g.key, g.items[i], EntryTarget(base, i, n, o.dup), false))
  }

  /** The planned rows of all groups, group after group. */
  function Plan(mapping: map<string, string>, groups: seq<Group>, o: Options): (r: seq<Planned>)
  {
    if groups == [] then []
    else
      var n := |groups| - 1;
      Plan(mapping, groups[..n], o) + GroupPlan(mapping, groups[n], o)
  }

  /** `target_filenames_in_preview`: the target names of the Pending rows. */
  function PendingTargets(rows: seq<Row>): set<string>
  {
    set r | r in rows && r.status == Pending :: r.target
  }

  /** `t.lower() in (fn.lower() for fn in target_filenames_in_preview)`. */
  predicate Reserved(rows: seq<Row>, t: string)
  {
    exists fn :: fn in PendingTargets(rows) && LowerStr(fn) == LowerStr(t)
  }

  /** The row a planned entry becomes after the rows `prev`: a skipped
      entry is Skipped; otherwise a name already reserved is a preview
      conflict, an existing target is TargetExists, and the rest is Pending. */
  function Decide(prev: seq<Row>, e: Planned, onDisk: string -> bool): Row
  {
    var status :=
      if e.skipped then Skipped
      else if Reserved(prev, e.target) then PreviewConflict
      else if onDisk(e.target) then TargetExists
      else Pending;
    Row(|prev| + 1, e.key, e.source, e.target, status)
  }

  /** The planned entries decided one after the other. */
  function Classify(plan: seq<Planned>, onDisk: string -> bool): (rows: seq<Row>)
    ensures |rows| == |plan|
  {
    if plan == [] then []
    else
      var prev := Classify(plan[..|plan| - 1], onDisk);
      prev + [Decide(prev, plan[|plan| - 1], onDisk)]
  }

  /** `items_to_keep`: the Unmatched rows of the previous table, in order. */
  function KeepUnmatched(rows: seq<Row>): (r: seq<Row>)
    ensures forall x :: x in r <==> x in rows && x.status == Unmatched
  {
    if rows == [] then []
    else
      var n := |rows| - 1;
      if rows[n].status == Unmatched then KeepUnmatched(rows[..n]) + [rows[n]]
      else KeepUnmatched(rows[..n])
  }

  /** The table after `generate_preview`. */
  function PreviewOf(mapping: map<string, string>, groups: seq<Group>, o: Options,
                     onDisk: string -> bool, old_rows: seq<Row>): seq<Row>
  {
    Classify(Plan(mapping, groups, o), onDisk) + KeepUnmatched(old_rows)
  }

  // Properties of the classification

  lemma {:induction false} ClassifyPrefix(plan: seq<Planned>, onDisk: string -> bool, j: nat)
    requires j <= |plan|
    ensures Classify(plan, onDisk)[..j] == Classify(plan[..j], onDisk)
  {
    if j < |plan| {
      var n := |plan| - 1;
      assert plan[..n][..j] == plan[..j];
      ClassifyPrefix(plan[..n], onDisk, j);
    } else {
      assert plan[..j] == plan;
    }
  }

  /** Row `j` of the classification is `Decide` applied to the rows before it. */
  lemma ClassifyAt(plan: seq<Planned>, onDisk: string -> bool, j: nat)
    requires j < |plan|
    ensures var rows := Classify(plan, onDisk); rows[j] == Decide(rows[..j], plan[j], onDisk)
  {
    var rows := Classify(plan, onDisk);
    ClassifyPrefix(plan, onDisk, j + 1);
    ClassifyPrefix(plan, onDisk, j);
    assert plan[..j + 1][..j] == plan[..j];
  }

  /** A name is reserved exactly when an earlier Pending row has it, ignoring case. */
  lemma ReservedIff(rows: seq<Row>, t: string)
    ensures Reserved(rows, t) <==>
      exists i :: 0 <= i < |rows| && rows[i].status == Pending && LowerStr(rows[i].target) == LowerStr(t)
  {
    if Reserved(rows, t) {
      var fn :| fn in PendingTargets(rows) && LowerStr(fn) == LowerStr(t);
      var r :| r in rows && r.status == Pending && r.target == fn;
      var i :| 0 <= i < |rows| && rows[i] == r;
    }
    if exists i :: 0 <= i < |rows| && rows[i].status == Pending && LowerStr(rows[i].target) == LowerStr(t) {
      var i :| 0 <= i < |rows| && rows[i].status == Pending && LowerStr(rows[i].target) == LowerStr(t);
      assert rows[i] in rows;
      assert rows[i].target in PendingTargets(rows);
    }
  }

  /** The status of each matched row, stated without the running set: rows
      are numbered from 1, carry their planned key, source and target, and
      a row that is not skipped conflicts exactly when an earlier Pending
      row has the same name ignoring case; otherwise it is TargetExists
      exactly when the target exists, and Pending when it does not. */
  lemma ClassifyIff(plan: seq<Planned>, onDisk: string -> bool, j: nat)
    requires j < |plan|
    ensures var rows := Classify(plan, onDisk); var e := plan[j];
      var earlier := exists i :: 0 <= i < j && rows[i].status == Pending && LowerStr(rows[i].target) == LowerStr(e.target);
      && rows[j].index == j + 1
      && rows[j].key == e.key && rows[j].source == e.source && rows[j].target == e.target
      && (rows[j].status == Skipped <==> e.skipped)
      && (rows[j].status == PreviewConflict <==> !e.skipped && earlier)
      && (rows[j].status == TargetExists <==> !e.skipped && !earlier && onDisk(e.target))
      && (rows[j].status == Pending <==> !e.skipped && !earlier && !onDisk(e.target))
      && (rows[j].status.Skipped? || rows[j].status.PreviewConflict? || rows[j].status.TargetExists? || rows[j].status.Pending?)
  {
    var rows := Classify(plan, onDisk);
    ClassifyAt(plan, onDisk, j);
    ReservedIff(rows[..j], plan[j].target);
    assert forall i :: 0 <= i < j ==> rows[..j][i] == rows[i];
  }

  /** The point of the running set: no two Pending rows share a target name,
      even ignoring case. */
  lemma PendingDistinct(plan: seq<Planned>, onDisk: string -> bool)
    ensures var rows := Classify(plan, onDisk);
      forall i, j :: 0 <= i < j < |rows| && rows[i].status == Pending && rows[j].status == Pending ==>
        LowerStr(rows[i].target) != LowerStr(rows[j].target)
  {
    var rows := Classify(plan, onDisk);
    forall i, j | 0 <= i < j < |rows| && rows[i].status == Pending && rows[j].status == Pending
      ensures LowerStr(rows[i].target) != LowerStr(rows[j].target)
    {
      ClassifyIff(plan, onDisk, j);
    }
  }

  // Properties of the plan

  /** The plan lists every entry of every group, group after group, in
      order: `Plan` of one more group adds exactly that group's rows. */
  lemma {:induction false} PlanLength(mapping: map<string, string>, groups: seq<Group>, o: Options)
    ensures |Plan(mapping, groups, o)| == TotalItems(groups)
  {
    if groups != [] {
      PlanLength(mapping, groups[..|groups| - 1], o);
    }
  }

  /** The number of matched entries (`match_count`). */
  function TotalItems(groups: seq<Group>): nat
  {
    if groups == [] then 0 else TotalItems(groups[..|groups| - 1]) + |groups[|groups| - 1].items|
  }

  /** The duplicate policy for one group: with Skip, a group of several
      entries gives Skipped rows that all carry the unnumbered base name;
      otherwise entry `i` of several gets `main_{i+1}ext` and a single entry
      its base name, each reduced to its last component and sanitised, and
      so always a safe name. */
  lemma GroupTargets(mapping: map<string, string>, g: Group, o: Options, i: nat)
    requires i < |g.items|
    ensures var r := GroupPlan(mapping, g, o); var base := BaseTarget(mapping, g.key, o);
      && (|g.items| > 1 && o.dup == Skip ==> r[i].skipped && r[i].target == base)
      && (|g.items| > 1 && o.dup == Number ==>
            !r[i].skipped
            && r[i].target == Sanitize(Basename(SplitExt(base).0 + "_" + NatToDecimal(i + 1) + SplitExt(base).1)))
      && (|g.items| == 1 ==> !r[i].skipped && r[i].target == Sanitize(Basename(base)))
      && (!r[i].skipped ==> IsSafeName(r[i].target))
  {
  }

  lemma GroupPlanSafe(mapping: map<string, string>, g: Group, o: Options)
    ensures TargetsSafe(GroupPlan(mapping, g, o))
  {
    GroupPlanEntries(mapping, g, o);
  }

  /** Every entry that is not skipped has a safe target name. */
  ghost predicate TargetsSafe(p: seq<Planned>)
  {
    forall j :: 0 <= j < |p| && !p[j].skipped ==> IsSafeName(p[j].target)
  }

  lemma TargetsSafeConcat(a: seq<Planned>, b: seq<Planned>)
    requires TargetsSafe(a) && TargetsSafe(b)
    ensures TargetsSafe(a + b)
  {
    var p := a + b;
    forall j | 0 <= j < |p| && !p[j].skipped ensures IsSafeName(p[j].target) {
      if j >= |a| {
        assert p[j] == b[j - |a|];
      } else {
        assert p[j] == a[j];
      }
    }
  }

  /** Every row of the preview that will be processed has a safe name. */
  lemma {:induction false} PlanTargetsSafe(mapping: map<string, string>, groups: seq<Group>, o: Options)
    ensures TargetsSafe(Plan(mapping, groups, o))
  {
    if groups != [] {
      var n := |groups| - 1;
      PlanTargetsSafe(mapping, groups[..n], o);
      GroupPlanSafe(mapping, groups[n], o);
      TargetsSafeConcat(Plan(mapping, groups[..n], o), GroupPlan(mapping, groups[n], o));
    }
  }

  /** The whole table: the matched rows numbered 1.. with no two Pending
      names equal ignoring case, followed by the previous Unmatched rows
      unchanged. */
  lemma PreviewShape(mapping: map<string, string>, groups: seq<Group>, o: Options,
                     onDisk: string -> bool, old_rows: seq<Row>)
    ensures var rows := PreviewOf(mapping, groups, o, onDisk, old_rows);
      var n := TotalItems(groups);
      && n <= |rows|
      && (forall j :: 0 <= j < n ==> rows[j].index == j + 1 && !rows[j].status.Unmatched?)
      && rows[n..] == KeepUnmatched(old_rows)
      && (forall i, j :: 0 <= i < j < n && rows[i].status == Pending && rows[j].status == Pending ==>
            LowerStr(rows[i].target) != LowerStr(rows[j].target))
      && (forall j :: 0 <= j < n && rows[j].status == Pending ==> IsSafeName(rows[j].target))
  {
    var plan := Plan(mapping, groups, o);
    var c := Classify(plan, onDisk);
    var rows := PreviewOf(mapping, groups, o, onDisk, old_rows);
    PlanLength(mapping, groups, o);
    PlanTargetsSafe(mapping, groups, o);
    PendingDistinct(plan, onDisk);
    assert rows[..|c|] == c;
    forall j | 0 <= j < |c| ensures rows[j].index == j + 1 && !rows[j].status.Unmatched?
      && (rows[j].status == Pending ==> IsSafeName(rows[j].target))
    {
      ClassifyIff(plan, onDisk, j);
    }
  }

  /** What the running set guarantees of a table: no two Pending rows have
      the same name ignoring case, and every Pending name is safe. */
  ghost predicate PendingWellNamed(rows: seq<Row>)
  {
    && (forall i, j :: 0 <= i < j < |rows| && rows[i].status == Pending && rows[j].status == Pending ==>
          LowerStr(rows[i].target) != LowerStr(rows[j].target))
    && (forall j :: 0 <= j < |rows| && rows[j].status == Pending ==> IsSafeName(rows[j].target))
  }

  /** The whole table after `generate_preview` has that guarantee: the kept
      rows are all Unmatched. */
  lemma PreviewWellNamed(mapping: map<string, string>, groups: seq<Group>, o: Options,
                         onDisk: string -> bool, old_rows: seq<Row>)
    ensures PendingWellNamed(PreviewOf(mapping, groups, o, onDisk, old_rows))
  {
    var keep := KeepUnmatched(old_rows);
    ClassifiedWellNamed(mapping, groups, o, onDisk);
    forall j | 0 <= j < |keep| ensures keep[j].status != Pending {
      assert keep[j] in keep;
    }
    WellNamedConcat(Classify(Plan(mapping, groups, o), onDisk), keep);
  }

  /** The matched rows alone have the guarantee. */
  lemma ClassifiedWellNamed(mapping: map<string, string>, groups: seq<Group>, o: Options, onDisk: string -> bool)
    ensures PendingWellNamed(Classify(Plan(mapping, groups, o), onDisk))
  {
    var plan := Plan(mapping, groups, o);
    var rows := Classify(plan, onDisk);
    PlanTargetsSafe(mapping, groups, o);
    PendingDistinct(plan, onDisk);
    forall j | 0 <= j < |rows| && rows[j].status == Pending ensures IsSafeName(rows[j].target) {
      ClassifyIff(plan, onDisk, j);
    }
  }

  /** Rows without a Pending one keep the guarantee when appended. */
  lemma WellNamedConcat(a: seq<Row>, b: seq<Row>)
    requires PendingWellNamed(a)
    requires forall j :: 0 <= j < |b| ==> b[j].status != Pending
    ensures PendingWellNamed(a + b)
  {
    var ab := a + b;
    assert forall j :: 0 <= j < |ab| && ab[j].status == Pending ==> j < |a| && ab[j] == a[j];
  }

  // The loop of `generate_preview`

  lemma DecideStep(plan: seq<Planned>, e: Planned, onDisk: string -> bool)
    ensures Classify(plan + [e], onDisk) == Classify(plan, onDisk) + [Decide(Classify(plan, onDisk), e, onDisk)]
  {
    assert (plan + [e])[..|plan|] == plan;
  }

  lemma PendingTargetsSnoc(rows: seq<Row>, r: Row)
    ensures PendingTargets(rows + [r]) == if r.status == Pending then PendingTargets(rows) + {r.target} else PendingTargets(rows)
  {
  }

  lemma PlanStep(mapping: map<string, string>, groups: seq<Group>, o: Options, k: nat)
    requires k < |groups|
    ensures Plan(mapping, groups[..k + 1], o) == Plan(mapping, groups[..k], o) + GroupPlan(mapping, groups[k], o)
  {
    assert groups[..k + 1][..k] == groups[..k];
  }

  lemma SnocSlice<T>(done: seq<T>, plan: seq<T>, i: nat)
    requires i < |plan|
    ensures done + plan[..i] + [plan[i]] == done + plan[..i + 1]
  {
    assert plan[..i] + [plan[i]] == plan[..i + 1];
  }

  /** One skipped entry adds a Skipped row and reserves nothing. */
  lemma SkipStep(cur: seq<Planned>, onDisk: string -> bool, rows: seq<Row>, e: Planned)
    requires rows == Classify(cur, onDisk) && e.skipped
    ensures Classify(cur + [e], onDisk) == rows + [Row(|rows| + 1, e.key, e.source, e.target, Skipped)]
    ensures PendingTargets(rows + [Row(|rows| + 1, e.key, e.source, e.target, Skipped)]) == PendingTargets(rows)
  {
    DecideStep(cur, e, onDisk);
    PendingTargetsSnoc(rows, Row(|rows| + 1, e.key, e.source, e.target, Skipped));
  }

  /** One entry that is not skipped adds a row with the status `Decide`
      gives it, and reserves its name when that status is Pending. */
  lemma EntryStep(cur: seq<Planned>, onDisk: string -> bool, rows: seq<Row>, e: Planned, status: Status)
    requires rows == Classify(cur, onDisk) && !e.skipped
    requires status == if Reserved(rows, e.target) then PreviewConflict
      else if onDisk(e.target) then TargetExists else Pending
    ensures Classify(cur + [e], onDisk) == rows + [Row(|rows| + 1, e.key, e.source, e.target, status)]
    ensures PendingTargets(rows + [Row(|rows| + 1, e.key, e.source, e.target, status)]) ==
      if status == Pending then PendingTargets(rows) + {e.target} else PendingTargets(rows)
  {
    DecideStep(cur, e, onDisk);
    PendingTargetsSnoc(rows, Row(|rows| + 1, e.key, e.source, e.target, status));
  }

  /** The body of `generate_preview` after its guard: one pass over the
      groups with the running set of reserved names and the row counter,
      then the kept Unmatched rows. */
  method BuildPreview(mapping: map<string, string>, groups: seq<Group>, o: Options,
                      onDisk: string -> bool, old_rows: seq<Row>)
    returns (rows: seq<Row>)
    ensures rows == PreviewOf(mapping, groups, o, onDisk, old_rows)
  {
    var keep := KeepUnmatched(old_rows);
    rows := [];
    var reserved: set<string> := {};
    var index := 1;
    for k := 0 to |groups|
      invariant rows == Classify(Plan(mapping, groups[..k], o), onDisk)
      invariant reserved == PendingTargets(rows)
      invariant index == |rows| + 1
    {
      var g := groups[k];
      var base := BaseTarget(mapping, g.key, o);
      ghost var done := Plan(mapping, groups[..k], o);
      ghost var plan := GroupPlan(mapping, g, o);
      PlanStep(mapping, groups, o, k);
      GroupPlanEntries(mapping, g, o);
      if |g.items| > 1 && o.dup == Skip {
        rows, index := SkipRows(g, base, onDisk, rows, reserved, index, done, plan);
      } else {
        rows, reserved, index := NumberRows(g, base, o.dup, onDisk, rows, reserved, index, done, plan);
      }
    }
    assert groups[..|groups|] == groups;
    rows := rows + keep;
  }

  /** `GroupPlan` entry by entry, in the form the two loops use. */
  lemma GroupPlanEntries(mapping: map<string, string>, g: Group, o: Options)
    ensures var plan, base, n := GroupPlan(mapping, g, o), BaseTarget(mapping, g.key, o), |g.items|;
      && |plan| == n
      && (n > 1 && o.dup == Skip ==> forall i :: 0 <= i < n ==> plan[i] == Planned(g.key, g.items[i], base, true))
      && (!(n > 1 && o.dup == Skip) ==>
            forall i :: 0 <= i < n ==> plan[i] == Planned(g.key, g.items[i], EntryTarget(base, i, n, o.dup), false))
  {
  }

  /** The Skip policy for a key that matched several entries: every entry
      becomes a Skipped row with the unnumbered base name. */
  method SkipRows(g: Group, base: string, onDisk: string -> bool,
                  rows0: seq<Row>, reserved: set<string>, index0: int, ghost done: seq<Planned>, ghost plan: seq<Planned>)
    returns (rows: seq<Row>, index: int)
    requires rows0 == Classify(done, onDisk) && reserved == PendingTargets(rows0) && index0 == |rows0| + 1
    requires |plan| == |g.items| && forall i :: 0 <= i < |plan| ==> plan[i] == Planned(g.key, g.items[i], base, true)
    ensures rows == Classify(done + plan, onDisk)
    ensures reserved == PendingTargets(rows) && index == |rows| + 1
  {
    ghost var cur := done;
    rows, index := rows0, index0;
    for i := 0 to |g.items|
      invariant cur == done + plan[..i]
      invariant rows == Classify(cur, onDisk)
      invariant reserved == PendingTargets(rows)
      invariant index == |rows| + 1
    {
      SkipStep(cur, onDisk, rows, plan[i]);
      rows := rows + [Row(index, g.key, g.items[i], base, Skipped)];
      index := index + 1;
      SnocSlice(done, plan, i);
      cur := cur + [plan[i]];
    }
    assert plan[..|g.items|] == plan;
  }

  /** Every entry of the group, numbered when the key matched several,
      decided against the names reserved so far. */
  method NumberRows(g: Group, base: string, dup: DupPolicy, onDisk: string -> bool,
                    rows0: seq<Row>, reserved0: set<string>, index0: int, ghost done: seq<Planned>, ghost plan: seq<Planned>)
    returns (rows: seq<Row>, reserved: set<string>, index: int)
    requires rows0 == Classify(done, onDisk) && reserved0 == PendingTargets(rows0) && index0 == |rows0| + 1
    requires |plan| == |g.items| && forall i :: 0 <= i < |plan| ==>
      plan[i] == Planned(g.key, g.items[i], EntryTarget(base, i, |g.items|, dup), false)
    ensures rows == Classify(done + plan, onDisk)
    ensures reserved == PendingTargets(rows) && index == |rows| + 1
  {
    ghost var cur := done;
    rows, reserved, index := rows0, reserved0, index0;
    for i := 0 to |g.items|
      invariant cur == done + plan[..i]
      invariant rows == Classify(cur, onDisk)
      invariant reserved == PendingTargets(rows)
      invariant index == |rows| + 1
    {
      var target := EntryName(base, i, |g.items|, dup);
      var status := Pending;
      if exists fn :: fn in reserved && LowerStr(fn) == LowerStr(target) {
        status := PreviewConflict;
      } else if onDisk(target) {
        status := TargetExists;
      }
      assert status == if Reserved(rows, target) then PreviewConflict
        else if onDisk(target) then TargetExists else Pending;
      EntryStep(cur, onDisk, rows, plan[i], status);
      if status == Pending {
        reserved := reserved + {target};
      }
      rows := rows + [Row(index, g.key, g.items[i], target, status)];
      index := index + 1;
      SnocSlice(done, plan, i);
      cur := cur + [plan[i]];
    }
    assert plan[..|g.items|] == plan;
  }

  /** The name of entry `i` of `n`: `_{i+1}` before the extension when
      numbering applies, then the last path component, sanitised. */
  method EntryName(base: string, i: nat, n: nat, dup: DupPolicy) returns (target: string)
    ensures target == EntryTarget(base, i, n, dup)
  {
    target := base;
    if n > 1 && dup == Number {
      var (main, ext) := SplitExt(base);
      target := main + "_" + NatToDecimal(i + 1) + ext;
    }
    target := Sanitize(Basename(target));
  }
}
