/** The two `os.path` functions the rename tool applies to names. The tool
    runs on Windows (it starts `7z.exe`/`Rar.exe` with `CREATE_NO_WINDOW`),
    so `os.path` is `ntpath`: both '/' and '\' separate path components. */
module Paths {

  predicate IsSep(c: char)
  {
    c == '/' || c == '\\'
  }

  /** No path separator in `s`. */
  predicate NoSep(s: string)
  {
    forall i :: 0 <= i < |s| ==> !IsSep(s[i])
  }

  /** `s.rfind(c)`: the last index holding `c`, or -1. */
  function RFind(s: string, c: char): (r: int)
    ensures -1 <= r < |s|
  {
    if s == [] then -1
    else if s[|s| - 1] == c then |s| - 1
    else RFind(s[..|s| - 1], c)
  }

  /** `RFind` finds the last occurrence: `c` is at the index it returns
      and nowhere after it. */
  lemma {:induction false} RFindIsLast(s: string, c: char)
    ensures var r := RFind(s, c);
      (r >= 0 ==> s[r] == c) && forall k :: r < k < |s| ==> s[k] != c
  {
    if s != [] && s[|s| - 1] != c {
      var t := s[..|s| - 1];
      RFindIsLast(t, c);
      assert forall k :: 0 <= k < |t| ==> t[k] == s[k];
    }
  }

  /** Every character of `s` is a dot. */
  predicate AllDots(s: string)
  {
    forall i :: 0 <= i < |s| ==> s[i] == '.'
  }

  /** There is a dot at `d` and a non-dot at `k < d`, with no separator
      from `k` to the end: `d` can start an extension. */
  predicate ExtensionDotAt(p: string, k: int, d: int)
  {
    0 <= k < d < |p| && p[d] == '.' && p[k] != '.' && NoSep(p[k..])
  }

  /** `os.path.splitext(p)`: the extension runs from the last dot of the last
      path component to the end, unless everything before that dot in the
      component is a dot too (".bashrc" and "..x" have no extension). */
  function SplitExt(p: string): (r: (string, string))
    ensures r.0 + r.1 == p
  {
    var sep := LastSep(p);
    var dot := RFind(p, '.');
    if dot > sep && !AllDots(p[sep + 1..dot]) then (p[..dot], p[dot..]) else (p, [])
  }

  /** Where the last path component starts, less one. */
  function LastSep(p: string): (r: int)
    ensures -1 <= r < |p|
  {
    if RFind(p, '\\') < RFind(p, '/') then RFind(p, '/') else RFind(p, '\\')
  }

  /** `LastSep` finds the last separator, or -1 when there is none. */
  lemma LastSepIsLast(p: string)
    ensures var r := LastSep(p);
      (r >= 0 ==> IsSep(p[r])) && forall k :: r < k < |p| ==> !IsSep(p[k])
  {
    RFindIsLast(p, '/');
    RFindIsLast(p, '\\');
  }

  /** The extension `splitext` finds is a dot followed by neither a dot nor a
      separator, and there is one exactly when some dot of the last component
      follows a character that is not a dot. */
  lemma SplitExtShape(p: string)
    ensures var r := SplitExt(p);
      && (r.1 != [] ==> r.1[0] == '.' && forall i :: 1 <= i < |r.1| ==> r.1[i] != '.' && !IsSep(r.1[i]))
      && (r.1 != [] <==> exists k, d :: ExtensionDotAt(p, k, d))
  {
    var sep, dot := LastSep(p), RFind(p, '.');
    LastSepIsLast(p);
    RFindIsLast(p, '.');
    if dot > sep && !AllDots(p[sep + 1..dot]) {
      assert SplitExt(p).1 == p[dot..];
      ExtensionAt(p, sep, dot);
    } else {
      assert SplitExt(p).1 == [];
      forall k, d ensures !ExtensionDotAt(p, k, d) {
        if ExtensionDotAt(p, k, d) {
          ExtensionDotBounds(p, sep, dot, k, d);
        }
      }
    }
  }

  /** When the last dot follows a non-dot of the last component, the
      extension from that dot holds no other dot and no separator. */
  lemma ExtensionAt(p: string, sep: int, dot: int)
    requires -1 <= sep < dot < |p| && p[dot] == '.'
    requires forall i :: sep < i < |p| ==> !IsSep(p[i])
    requires forall i :: dot < i < |p| ==> p[i] != '.'
    requires !AllDots(p[sep + 1..dot])
    ensures forall i :: 1 <= i < |p[dot..]| ==> p[dot..][i] != '.' && !IsSep(p[dot..][i])
    ensures exists k, d :: ExtensionDotAt(p, k, d)
  {
    var j :| 0 <= j < dot - sep - 1 && p[sep + 1..dot][j] != '.';
    var k := sep + 1 + j;
    SuffixNoSep(p, k);
    assert ExtensionDotAt(p, k, dot);
  }

  /** A dot that can start an extension lies in the last component, at or
      before the last dot, after a non-dot of that component. */
  lemma ExtensionDotBounds(p: string, sep: int, dot: int, k: int, d: int)
    requires ExtensionDotAt(p, k, d)
    requires -1 <= sep < |p| && (sep >= 0 ==> IsSep(p[sep]))
    requires -1 <= dot < |p| && forall i :: dot < i < |p| ==> p[i] != '.'
    ensures sep < k && d <= dot && !AllDots(p[sep + 1..dot])
  {
    assert p[sep + 1..dot][k - sep - 1] == p[k];
  }

  /** A new extension after a stem without separators: `splitext` takes it
      off again, unless the stem is made of dots only (then "." + f reads as
      part of the name, as in "..zip"). */
  lemma SplitExtAppended(m: string, f: string)
    requires NoSep(m) && NoSep(f) && '.' !in f
    ensures !AllDots(m) ==> SplitExt(m + "." + f) == (m, "." + f)
    ensures AllDots(m) ==> SplitExt(m + "." + f) == (m + "." + f, [])
  {
    var p := m + "." + f;
    AppendedDot(m, f, p);
    assert p[0..|m|] == m && p[..|m|] == m && p[|m|..] == "." + f;
  }

  /** In `m + "." + f` the added dot is the last dot, and there is no
      separator. */
  lemma AppendedDot(m: string, f: string, p: string)
    requires NoSep(m) && NoSep(f) && '.' !in f && p == m + "." + f
    ensures LastSep(p) == -1 && RFind(p, '.') == |m|
  {
    forall i | 0 <= i < |p| ensures !IsSep(p[i]) && (i > |m| ==> p[i] != '.') {
      if i < |m| {
        assert p[i] == m[i];
      } else if i > |m| {
        assert p[i] == f[i - |m| - 1];
      }
    }
    NoSepLastSep(p);
    LastIndexIs(p, '.', |m|);
  }

  lemma NoSepLastSep(p: string)
    requires NoSep(p)
    ensures LastSep(p) == -1
  {
    LastSepIsLast(p);
  }

  /** `rfind` returns the position that holds `c` with no `c` after it. */
  lemma LastIndexIs(p: string, c: char, j: nat)
    requires j < |p| && p[j] == c && forall i :: j < i < |p| ==> p[i] != c
    ensures RFind(p, c) == j
  {
    RFindIsLast(p, c);
  }

  /** A stem made of dots only means `splitext` found no extension. */
  lemma StemAllDots(p: string)
    ensures AllDots(SplitExt(p).0) ==> SplitExt(p) == (p, [])
  {
    var sep, dot := LastSep(p), RFind(p, '.');
    if dot > sep && !AllDots(p[sep + 1..dot]) {
      var j :| 0 <= j < dot - sep - 1 && p[sep + 1..dot][j] != '.';
      assert SplitExt(p).0[sep + 1 + j] == p[sep + 1 + j];
    }
  }

  /** `ntpath.basename(p)`: what follows the last separator, after a
      drive prefix "X:" is set aside. UNC prefixes are not modelled; they
      need separators, which the names given to it never contain. */
  function Basename(p: string): (r: string)
    ensures |r| <= |p| && r == p[|p| - |r|..]
  {
    var q := if |p| >= 2 && p[1] == ':' then p[2..] else p;
    q[LastSep(q) + 1..]
  }

  /** The base name holds no separator. */
  lemma BasenameHasNoSep(p: string)
    ensures NoSep(Basename(p))
  {
    if |p| >= 2 && p[1] == ':' {
      AfterLastSep(p[2..]);
    } else {
      AfterLastSep(p);
    }
  }

  lemma AfterLastSep(q: string)
    ensures NoSep(q[LastSep(q) + 1..])
  {
    var sep := LastSep(q);
    LastSepIsLast(q);
    SuffixNoSep(q, sep + 1);
  }

  /** A suffix past the last separator holds none. */
  lemma SuffixNoSep(q: string, start: nat)
    requires start <= |q|
    requires forall k :: start <= k < |q| ==> !IsSep(q[k])
    ensures NoSep(q[start..])
  {
    var r := q[start..];
    forall i | 0 <= i < |r| ensures !IsSep(r[i]) {
      assert r[i] == q[start + i];
    }
  }

  /** A name without separators or a colon is its own base name. */
  lemma BasenameOfPlainName(p: string)
    requires NoSep(p) && ':' !in p
    ensures Basename(p) == p
  {
    if |p| >= 2 {
      assert p[1] in p;
    }
    LastSepIsLast(p);
  }
}
