/** `_sanitize_filename`: the fixed chain of rewrites that turns any text into
    a name the target directory accepts. */
module Sanitizer {
  import opened Text
  import opened Paths

  /** `MAX_FILENAME_LENGTH`. */
  const MaxNameLength: nat := 255

  /** The name used when nothing is left: "未命名" ("unnamed"). */
  const Fallback: string := "未命名"

  /** The characters of `[<>:"/\\|?*]`. */
  predicate IsReserved(c: char)
  {
    c == '<' || c == '>' || c == ':' || c == '"' || c == '/' || c == '\\'
    || c == '|' || c == '?' || c == '*'
  }

  /** The characters of `[\x00-\x1F\x7F]`. */
  predicate IsControl(c: char)
  {
    c <= '\U{1F}' || c == '\U{7F}'
  }

  /** No two dots next to each other. */
  predicate NoDoubleDot(s: string)
  {
    forall i :: 0 <= i < |s| - 1 ==> !(s[i] == '.' && s[i + 1] == '.')
  }

  /** Every whitespace character is a plain space and no two are adjacent. */
  predicate SingleSpaces(s: string)
  {
    && (forall i :: 0 <= i < |s| && IsSpace(s[i]) ==> s[i] == ' ')
    && (forall i :: 0 <= i < |s| - 1 ==> !(IsSpace(s[i]) && IsSpace(s[i + 1])))
  }

  /** What the target directory accepts: not empty, at most 255 characters,
      no reserved and no control character. */
  predicate IsSafeName(s: string)
  {
    && s != []
    && |s| <= MaxNameLength
    && (forall c :: c in s ==> !IsReserved(c) && !IsControl(c))
  }

  /** The shape the cleaning steps leave behind. */
  predicate IsCleanForm(s: string)
  {
    && (forall c :: c in s ==> !IsReserved(c) && !IsControl(c))
    && NoDoubleDot(s)
    && SingleSpaces(s)
    && (s == [] || (!IsSpace(s[0]) && !IsSpace(s[|s| - 1])))
  }

  /** `re.sub(r'[<>:"/\\|?*]', '', s)`. */
  function RemoveReserved(s: string): (r: string)
    ensures |r| <= |s|
  {
    if s == [] then []
    else if IsReserved(s[0]) then RemoveReserved(s[1..])
    else [s[0]] + RemoveReserved(s[1..])
  }

  /** The reserved characters are gone and every other character stays. */
  lemma {:induction false} RemoveReservedChars(s: string)
    ensures forall c :: c in RemoveReserved(s) <==> c in s && !IsReserved(c)
  {
    if s != [] {
      RemoveReservedChars(s[1..]);
      assert s == [s[0]] + s[1..];
    }
  }

  /** `re.sub(r'[\x00-\x1F\x7F]', '', s)`. */
  function RemoveControls(s: string): (r: string)
    ensures |r| <= |s|
  {
    if s == [] then []
    else if IsControl(s[0]) then RemoveControls(s[1..])
    else [s[0]] + RemoveControls(s[1..])
  }

  /** The control characters are gone and every other character stays. */
  lemma {:induction false} RemoveControlsChars(s: string)
    ensures forall c :: c in RemoveControls(s) <==> c in s && !IsControl(c)
  {
    if s != [] {
      RemoveControlsChars(s[1..]);
      assert s == [s[0]] + s[1..];
    }
  }

  /** `re.sub(r'\.{2,}', '.', s)`: every run of dots becomes one dot. */
  function CollapseDots(s: string): (r: string)
    ensures |r| <= |s|
  {
    if s == [] then []
    else if |s| > 1 && s[0] == '.' && s[1] == '.' then CollapseDots(s[1..])
    else [s[0]] + CollapseDots(s[1..])
  }

  /** Collapsing dots keeps the set of characters and the first character,
      and leaves no two dots side by side. */
  lemma {:induction false} CollapseDotsFacts(s: string)
    ensures var r := CollapseDots(s);
      && (forall c :: c in r <==> c in s)
      && (s != [] ==> r != [] && r[0] == s[0])
      && NoDoubleDot(r)
  {
    if s != [] {
      CollapseDotsFacts(s[1..]);
      assert s == [s[0]] + s[1..];
    }
  }

  /** `re.sub(r'\s+', ' ', s)`: every run of whitespace becomes one space. */
  function CollapseSpaces(s: string): (r: string)
    ensures |r| <= |s|
  {
    if s == [] then []
    else if IsSpace(s[0]) then
      if |s| > 1 && IsSpace(s[1]) then CollapseSpaces(s[1..])
      else [' '] + CollapseSpaces(s[1..])
    else [s[0]] + CollapseSpaces(s[1..])
  }

  /** Collapsing whitespace adds no character but the space, keeps every
      other character, leaves single plain spaces only, and creates no
      double dot. */
  lemma {:induction false} CollapseSpacesFacts(s: string)
    ensures var r := CollapseSpaces(s);
      && (forall c :: c in r ==> (c in s && !IsSpace(c)) || c == ' ')
      && (forall c :: c in s && !IsSpace(c) ==> c in r)
      && (s != [] ==> r != [] && r[0] == (if IsSpace(s[0]) then ' ' else s[0]))
      && SingleSpaces(r)
      && (NoDoubleDot(s) ==> NoDoubleDot(r))
  {
    if s != [] {
      CollapseSpacesFacts(s[1..]);
      assert s == [s[0]] + s[1..];
    }
  }

  /** A run of whitespace, whatever its characters and length, becomes a
      single space. */
  lemma {:induction false} CollapseSpacesRun(w: string)
    requires w != [] && forall i :: 0 <= i < |w| ==> IsSpace(w[i])
    ensures CollapseSpaces(w) == " "
  {
    if |w| > 1 {
      CollapseSpacesRun(w[1..]);
    }
  }

  /** Collapsing works piece by piece when the cut does not fall inside a
      whitespace run. With `CollapseSpacesRun` and `CollapseSpacesNone`
      (text without whitespace is kept), this fixes the result for every
      text: each maximal whitespace run becomes one space and nothing else
      changes. */
  lemma {:induction false} CollapseSpacesSplit(x: string, y: string)
    requires x == [] || y == [] || !IsSpace(x[|x| - 1]) || !IsSpace(y[0])
    ensures CollapseSpaces(x + y) == CollapseSpaces(x) + CollapseSpaces(y)
  {
    if x == [] {
      assert x + y == y;
    } else if y == [] {
      assert x + y == x;
    } else if |x| == 1 {
      SplitAfterOne(x[0], y);
      assert x == [x[0]];
    } else {
      var rest := x[1..];
      assert rest[|rest| - 1] == x[|x| - 1];
      CollapseSpacesSplit(rest, y);
      SplitAfterMore(x[0], rest, y);
      assert x == [x[0]] + rest;
      assert x + y == [x[0]] + (rest + y);
    }
  }

  lemma SplitAfterOne(c: char, y: string)
    requires y != [] && (!IsSpace(c) || !IsSpace(y[0]))
    ensures CollapseSpaces([c] + y) == CollapseSpaces([c]) + CollapseSpaces(y)
  {
    CollapseSpacesHead(c, y);
    CollapseSpacesOne(c);
  }

  lemma SplitAfterMore(c: char, rest: string, y: string)
    requires rest != [] && CollapseSpaces(rest + y) == CollapseSpaces(rest) + CollapseSpaces(y)
    ensures CollapseSpaces([c] + (rest + y)) == CollapseSpaces([c] + rest) + CollapseSpaces(y)
  {
    CollapseSpacesHead(c, rest);
    assert (rest + y)[0] == rest[0];
    CollapseSpacesHead(c, rest + y);
    HeadsCombine(c, IsSpace(c), IsSpace(rest[0]), CollapseSpaces(rest), CollapseSpaces(y),
      CollapseSpaces([c] + rest), CollapseSpaces([c] + (rest + y)));
  }

  /** The head step of collapsing, applied to a collapsed text with a tail appended. */
  lemma HeadsCombine(c: char, space: bool, next: bool, cr: string, cy: string, a: string, b: string)
    requires a == if !space then [c] + cr else if next then cr else " " + cr
    requires b == if !space then [c] + (cr + cy) else if next then cr + cy else " " + (cr + cy)
    ensures b == a + cy
  {
  }

  lemma CollapseSpacesOne(c: char)
    ensures CollapseSpaces([c]) == if IsSpace(c) then " " else [c]
  {
    assert [c][1..] == [];
  }

  /** Collapsing after one more leading character. */
  lemma CollapseSpacesHead(c: char, t: string)
    requires t != []
    ensures CollapseSpaces([c] + t) ==
      if !IsSpace(c) then [c] + CollapseSpaces(t)
      else if IsSpace(t[0]) then CollapseSpaces(t)
      else " " + CollapseSpaces(t)
  {
    assert ([c] + t)[1..] == t;
  }

  /** The four rewrites and the `strip()` of `_sanitize_filename`, in order. */
  function Clean(s: string): (r: string)
    ensures |r| <= |s|
  {
    Strip(CollapseSpaces(CollapseDots(RemoveControls(RemoveReserved(s)))))
  }

  /** Cleaning leaves a name in clean form. */
  lemma CleanForm(s: string)
    ensures IsCleanForm(Clean(s))
  {
    var a := RemoveReserved(s);
    var b := RemoveControls(a);
    var c := CollapseDots(b);
    var d := CollapseSpaces(c);
    RemoveReservedChars(s);
    RemoveControlsChars(a);
    CollapseDotsFacts(b);
    CollapseSpacesFacts(c);
    StripKeepsCleanForm(d);
  }

  /** Stripping keeps every property of the clean form and adds the ends. */
  lemma StripKeepsCleanForm(d: string)
    requires forall c :: c in d ==> !IsReserved(c) && !IsControl(c)
    requires NoDoubleDot(d) && SingleSpaces(d)
    ensures IsCleanForm(Strip(d))
  {
    var e, o := Strip(d), StripStart(d);
    var j := o + |e|;
    assert e == d[o..j];
    assert e == [] || (!IsSpace(e[0]) && !IsSpace(e[|e| - 1]));
    SliceCleanForm(d, o, j);
  }

  /** A slice of a cleaned name that neither starts nor ends with
      whitespace is in clean form. */
  lemma SliceCleanForm(d: string, i: nat, j: nat)
    requires i <= j <= |d|
    requires forall c :: c in d ==> !IsReserved(c) && !IsControl(c)
    requires NoDoubleDot(d) && SingleSpaces(d)
    requires d[i..j] == [] || (!IsSpace(d[i..j][0]) && !IsSpace(d[i..j][j - i - 1]))
    ensures IsCleanForm(d[i..j])
  {
    SliceKeepsSafeChars(d, i, j);
    SliceKeepsNoDoubleDot(d, i, j);
    SliceKeepsSingleSpaces(d, i, j);
  }

  lemma SliceKeepsSafeChars(d: string, i: nat, j: nat)
    requires i <= j <= |d|
    requires forall c :: c in d ==> !IsReserved(c) && !IsControl(c)
    ensures forall c :: c in d[i..j] ==> !IsReserved(c) && !IsControl(c)
  {
    forall c | c in d[i..j] ensures c in d {
      var k :| 0 <= k < j - i && d[i..j][k] == c;
      assert d[i + k] == c;
    }
  }

  lemma SliceKeepsNoDoubleDot(d: string, i: nat, j: nat)
    requires i <= j <= |d| && NoDoubleDot(d)
    ensures NoDoubleDot(d[i..j])
  {
    var e := d[i..j];
    forall k | 0 <= k < |e| - 1 ensures !(e[k] == '.' && e[k + 1] == '.') {
      assert e[k] == d[i + k] && e[k + 1] == d[i + k + 1];
    }
  }

  lemma SliceKeepsSingleSpaces(d: string, i: nat, j: nat)
    requires i <= j <= |d| && SingleSpaces(d)
    ensures SingleSpaces(d[i..j])
  {
    var e := d[i..j];
    forall k | 0 <= k < |e| && IsSpace(e[k]) ensures e[k] == ' ' {
      assert e[k] == d[i + k];
    }
    forall k | 0 <= k < |e| - 1 ensures !(IsSpace(e[k]) && IsSpace(e[k + 1])) {
      assert e[k] == d[i + k] && e[k + 1] == d[i + k + 1];
    }
  }

  /** The length limit: an over-long name keeps its extension and loses the
      end of its stem; when the extension alone is too long, the name is cut. */
  function Truncate(c: string): (r: string)
    ensures |r| <= MaxNameLength
    ensures |c| <= MaxNameLength ==> r == c
    ensures |c| > MaxNameLength ==> |r| == MaxNameLength
  {
    var (name, ext) := SplitExt(c);
    if |c| > MaxNameLength then
      if MaxNameLength - |ext| > 0 then name[..MaxNameLength - |ext|] + ext
      else c[..MaxNameLength]
    else
      c
  }

  /** What is cut: with an extension shorter than the limit, the end of the
      stem; otherwise the end of the name. Every character kept comes from
      the name. */
  lemma TruncateFacts(c: string)
    ensures var r := Truncate(c); var ext := SplitExt(c).1;
      && (|c| > MaxNameLength && |ext| < MaxNameLength ==>
            r[..MaxNameLength - |ext|] == c[..MaxNameLength - |ext|] && r[MaxNameLength - |ext|..] == ext)
      && (|c| > MaxNameLength && |ext| >= MaxNameLength ==> r == c[..MaxNameLength])
      && (forall x :: x in r ==> x in c)
  {
    var r := Truncate(c);
    var (name, ext) := SplitExt(c);
    if |c| > MaxNameLength && MaxNameLength - |ext| > 0 {
      forall x | x in r ensures x in c {
        var i :| 0 <= i < |r| && r[i] == x;
        if i < MaxNameLength - |ext| {
          assert c[i] == x;
        } else {
          assert c[|name| + i - (MaxNameLength - |ext|)] == x;
        }
      }
    }
  }

  /** The stem of a safe name holds no separator: '/' and '\\' are reserved. */
  lemma SafeStemNoSep(c: string)
    requires IsSafeName(c)
    ensures NoSep(SplitExt(c).0)
  {
    var m := SplitExt(c).0;
    forall i | 0 <= i < |m| ensures !IsSep(m[i]) {
      assert m[i] == c[i] && c[i] in c;
    }
  }

  /** A sanitised name made of dots only is the single dot: cleaning leaves
      no "..", and a name cut to 255 characters keeps a non-dot among its
      first three. */
  lemma SanitizedDotsIsDot(s: string)
    ensures AllDots(Sanitize(s)) ==> Sanitize(s) == "."
  {
    SanitizeSteps(s);
    if Clean(s) == [] {
      assert Fallback[0] != '.';
    } else {
      CleanForm(s);
      CutDotsIsDot(Clean(s));
    }
  }

  lemma CutDotsIsDot(d: string)
    requires d != [] && NoDoubleDot(d)
    ensures AllDots(Truncate(d)) ==> Truncate(d) == "."
  {
    var c := Truncate(d);
    if |d| > MaxNameLength {
      TruncateFacts(d);
      var ext := SplitExt(d).1;
      if |ext| == MaxNameLength - 1 {
        SplitExtShape(d);
        assert c[2] == ext[1];
      } else {
        assert c[0] == d[0] && c[1] == d[1];
        assert !(d[0] == '.' && d[1] == '.');
      }
    } else if |d| > 1 {
      assert !(d[0] == '.' && d[1] == '.');
    }
  }

  /** `_sanitize_filename(filename)`. */
  function Sanitize(s: string): (r: string)
    ensures IsSafeName(r)
  {
    FallbackIsClean();
    if s == [] then Fallback
    else
      var t := Truncate(Clean(s));
      TruncatedCharsSafe(s);
      if t == [] then Fallback else t
  }

  /** Cutting the cleaned name to length brings back none of the removed
      characters. */
  lemma TruncatedCharsSafe(s: string)
    ensures forall x :: x in Truncate(Clean(s)) ==> !IsReserved(x) && !IsControl(x)
  {
    CleanForm(s);
    TruncateFacts(Clean(s));
  }

  /** Past the empty input, the sanitised name is the cleaned name cut to
      length, or the fallback when nothing is left. */
  lemma SanitizeSteps(s: string)
    ensures Clean(s) == [] ==> Sanitize(s) == Fallback
    ensures Clean(s) != [] ==> Sanitize(s) == Truncate(Clean(s))
  {
  }

  /** Text made only of reserved, control and whitespace characters becomes
      the fallback name. */
  lemma SanitizeBlank(s: string)
    requires forall c :: c in s ==> IsReserved(c) || IsControl(c) || IsSpace(c)
    ensures Sanitize(s) == Fallback
  {
    var a := RemoveReserved(s);
    var b := RemoveControls(a);
    var c := CollapseDots(b);
    var d := CollapseSpaces(c);
    RemoveReservedChars(s);
    RemoveControlsChars(a);
    CollapseDotsFacts(b);
    CollapseSpacesFacts(c);
    assert forall x :: x in d ==> x == ' ';
    StripOfSpaces(d);
    SanitizeSteps(s);
  }

  /** Whitespace alone strips to nothing. */
  lemma StripOfSpaces(d: string)
    requires forall x :: x in d ==> x == ' '
    ensures Strip(d) == []
  {
    var e := Strip(d);
    if e != [] {
      assert e[0] in d by {
        assert e == d[StripStart(d)..StripStart(d) + |e|];
        assert e[0] == d[StripStart(d)];
      }
    }
  }

  /** A name no longer than 255 characters after cleaning is never cut. */
  lemma SanitizeShortKeepsAll(s: string)
    requires Clean(s) != [] && |Clean(s)| <= MaxNameLength
    ensures Sanitize(s) == Clean(s)
  {
  }

  lemma {:induction false} RemoveReservedNone(s: string)
    requires forall c :: c in s ==> !IsReserved(c)
    ensures RemoveReserved(s) == s
  {
    if s != [] {
      assert s[0] in s;
      RemoveReservedNone(s[1..]);
    }
  }

  lemma {:induction false} RemoveControlsNone(s: string)
    requires forall c :: c in s ==> !IsControl(c)
    ensures RemoveControls(s) == s
  {
    if s != [] {
      assert s[0] in s;
      RemoveControlsNone(s[1..]);
    }
  }

  lemma {:induction false} CollapseDotsNone(s: string)
    requires NoDoubleDot(s)
    ensures CollapseDots(s) == s
  {
    if s != [] {
      CollapseDotsNone(s[1..]);
    }
  }

  /** Text whose only whitespace is single plain spaces is kept as it is. */
  lemma {:induction false} CollapseSpacesNone(s: string)
    requires SingleSpaces(s)
    ensures CollapseSpaces(s) == s
  {
    if s != [] {
      CollapseSpacesNone(s[1..]);
    }
  }

  /** Cleaning changes nothing in a name that is already in clean form. */
  lemma CleanFixesCleanForm(s: string)
    requires IsCleanForm(s)
    ensures Clean(s) == s
  {
    RemoveReservedNone(s);
    RemoveControlsNone(s);
    CollapseDotsNone(s);
    CollapseSpacesNone(s);
  }

  /** The fallback name is safe and clean. */
  lemma FallbackIsClean()
    ensures IsCleanForm(Fallback) && IsSafeName(Fallback)
  {
  }

  /** Sanitizing twice is sanitizing once, as long as the first pass did not
      have to cut the name. (With a cut it need not be: the cut can leave
      ".." or a trailing space that a second pass rewrites.) */
  lemma SanitizeIdempotentWhenShort(s: string)
    requires |Clean(s)| <= MaxNameLength
    ensures Sanitize(Sanitize(s)) == Sanitize(s)
  {
    SanitizeSteps(s);
    var t := Sanitize(s);
    if Clean(s) == [] {
      assert t == Fallback;
      FallbackIsClean();
      CleanFixesCleanForm(Fallback);
      SanitizeSteps(Fallback);
    } else {
      var c := Clean(s);
      assert t == c;
      CleanForm(s);
      CleanFixesCleanForm(c);
      SanitizeSteps(c);
    }
  }
}
