/** The path algebra, as configured for POSIX: '/' is the only separator and there are
    no drive letters. */
module FilePaths {
  import opened Prelude
  import opened PathStrings

  const CURRENT_DIRECTORY := "."
  const PARENT_DIRECTORY := ".."
  const EXTENSION_SEPARATOR := '.'

  // ---------- Stripping ----------

  /** Trailing separators go, but the root stays: "//" as it is, any other all-separator
      path as "/". */
  function StripTrailingSeparators(path: string): string {
    if path == "//" then path
    else if path != "" && AreAllSeparators(path) then "/"
    else RightTrim(path)
  }

  predicate IsStripped(path: string) {
    StripTrailingSeparators(path) == path
  }

  lemma StripIsIdempotent(path: string)
    ensures IsStripped(StripTrailingSeparators(path))
    ensures |StripTrailingSeparators(path)| <= |path|
    ensures StripTrailingSeparators(path) == "" <==> path == ""
  {
    var t := RightTrim(path);
    if !AreAllSeparators(path) {
      RightTrimIs(t, t);
      assert t != "";
      assert !IsSeparator(t[|t| - 1]);
    }
  }

  lemma StripIsDone(path: string, pos: nat, r: string)
    requires pos <= |path| && AreAllSeparators(path[pos..]) && (pos == 0 ==> path == "")
    requires r == (if path == "//" then path else path[..pos])
    requires pos > 1 ==> !IsSeparator(path[pos - 1])
    ensures r == StripTrailingSeparators(path)
  {
    if AreAllSeparators(path) {
      assert path != "" ==> path[..1] == "/";
    } else {
      assert pos == 1 ==> forall i :: 1 <= i < |path| ==> path[i] == path[1..][i - 1];
      RightTrimIs(path, r);
    }
  }

  method StripTrailingSeparatorsInternal(path: string) returns (r: string)
    ensures r == StripTrailingSeparators(path)
  {
    var start := 1;
    var lastStripped := -1;
    r := path;
    var pos := |path|;
    while pos > start && IsSeparator(r[pos - 1])
      invariant 0 <= pos <= |path| && (pos == 0 ==> path == "")
      invariant AreAllSeparators(path[pos..])
      invariant r == if path == "//" then path else path[..pos]
      invariant lastStripped == if pos == |path| || path == "//" then -1 else pos + 1
    {
      if pos != start + 1 || lastStripped == start + 2 || !IsSeparator(r[start - 1]) {
        r := r[..pos - 1];
        lastStripped := pos;
      }
      pos := pos - 1;
    }
    StripIsDone(path, pos, r);
  }

  // ---------- DirName and BaseName ----------

  /** Cuts the last segment off, with the separators before it. */
  function Parent(stripped: string): string {
    var last := LastIndexOf(stripped, '/');
    if last == -1 then ""
    else if last == 0 then stripped[..1]
    else if last == 1 && IsSeparator(stripped[0]) then stripped[..2]
    else stripped[..last]
  }

  function DirName(path: string): string {
    var dir := StripTrailingSeparators(Parent(StripTrailingSeparators(path)));
    if dir == "" then CURRENT_DIRECTORY else dir
  }

  function BaseName(path: string): string {
    var stripped := StripTrailingSeparators(path);
    var last := LastIndexOf(stripped, '/');
    if last != -1 && last < |stripped| - 1 then stripped[last + 1..] else stripped
  }

  // ---------- Components ----------

  /** The root of an absolute path. Exactly three leading separators are taken for two
      when something follows. */
  function Root(path: string): string {
    var n := LeadingSeparators(path);
    if n == 2 || (n == 3 && Segments(path) != []) then "//" else "/"
  }

  /** The components: the root, if any, and the segments. A relative path loses a
      leading "." (unless that is all there is before some trailing separators). */
  function Components(path: string): seq<string> {
    var segments := Segments(path);
    if path == "" then []
    else if IsSeparator(path[0]) then [Root(path)] + segments
    else if segments != [] && segments[0] == CURRENT_DIRECTORY && (|segments| > 1 || path == CURRENT_DIRECTORY)
    then segments[1..]
    else segments
  }

  /** What GetComponents collects for a path before it goes on with the parent. */
  function Collected(path: string): seq<string> {
    if AreAllSeparators(BaseName(path)) then [] else [BaseName(path)]
  }

  /** Stripping a path of separators only. */
  lemma AllSeparatorsStep(path: string)
    requires path != "" && AreAllSeparators(path)
    ensures DirName(path) == BaseName(path) == if |path| == 2 then "//" else "/"
    ensures StripTrailingSeparators(path) == DirName(path)
    ensures Components(path) == [DirName(path)]
  {
    SegmentsEmptyIff(path);
    assert path[..|path|] == path;
    LeadingSeparatorsIs(path, |path|);
    assert |path| == 2 ==> path == "//";
    assert LastIndexOf("//", '/') == 1 && LastIndexOf("/", '/') == 0;
  }

  /** What a path with a segment looks like: directory part and last segment. */
  lemma StrippedParts(path: string) returns (dir: string, base: string)
    requires !AreAllSeparators(path)
    ensures StripTrailingSeparators(path) == dir + base && BaseName(path) == base
    ensures base != "" && NoSeparator(base) && (dir == "" || EndsInSeparator(dir))
    ensures LastIndexOf(dir + base, '/') == |dir| - 1
    ensures StripTrailingSeparators(path) == RightTrim(path) != ""
  {
    var q := RightTrim(path);
    assert path[0..] == path;
    LastSegmentProper(q);
    var k := LastIndexOf(q, '/');
    dir, base := q[..k + 1], q[k + 1..];
    assert dir + base == q;
  }

  lemma RootOfRest(path: string, dir: string)
    requires !AreAllSeparators(dir) && dir <= path
    ensures LeadingSeparators(path) == LeadingSeparators(dir)
  {
    var n := LeadingSeparators(dir);
    assert dir[..|dir|] == dir;
    assert path[..n] == dir[..n] && path[n] == dir[n];
    LeadingSeparatorsIs(path, n);
  }

  /** The segments before the last one, and the last. */
  lemma SegmentsOfParts(path: string, dir: string, base: string)
    requires StripTrailingSeparators(path) == RightTrim(path) == dir + base
    requires base != "" && NoSeparator(base) && LastIndexOf(dir + base, '/') == |dir| - 1
    ensures dir != "" ==> Segments(path) == Segments(dir[..|dir| - 1]) + [base]
    ensures dir == "" ==> Segments(path) == [base]
  {
    var q := dir + base;
    SegmentsRightTrim(path);
    SegmentsLast(q, |dir| - 1);
    assert q[|dir|..] == base;
    assert dir != "" ==> q[..|dir| - 1] == dir[..|dir| - 1];
  }

  /** One segment, no directory part. */
  lemma BareStep(path: string, base: string)
    requires RightTrim(path) == base && base != "" && NoSeparator(base) && BaseName(path) == base
    requires StripTrailingSeparators(path) == base
    ensures DirName(path) == "."
    ensures path == "." ==> Components(path) == []
    ensures path != "." ==> Components(path) == [base]
  {
    hide Segments, SegmentLength, RightTrim;
    assert LastIndexOf("" + base, '/') == -1 by {
      LastIndexOfIs(base, '/', -1);
      assert "" + base == base;
    }
    SegmentsOfParts(path, "", base);
    assert path[0] == base[0];
    assert RightTrim("") == "";
  }

  lemma InRootComponents(path: string, dir: string, base: string)
    requires RightTrim(path) == dir + base
    requires dir != "" && AreAllSeparators(dir) && base != "" && NoSeparator(base)
    requires LastIndexOf(dir + base, '/') == |dir| - 1
    ensures Components(path) == [if |dir| == 2 || |dir| == 3 then "//" else "/"] + [base]
  {
    hide Segments, SegmentLength, RightTrim, LastIndexOf;
    var n := |dir|;
    SegmentsOfParts(path, dir, base);
    SegmentsEmptyIff(dir[..n - 1]);
    assert path[..n] == dir && path[n] == base[0];
    LeadingSeparatorsIs(path, n);
  }

  lemma RootsAreComponents()
    ensures Components("/") == ["/"] && Components("//") == ["//"]
  {
    hide Segments;
    AllSeparatorsStep("/");
    AllSeparatorsStep("//");
  }

  /** One segment in the root or alternate root, or in "///" which counts as "//". */
  lemma InRootStep(path: string, dir: string, base: string)
    requires RightTrim(path) == StripTrailingSeparators(path) == dir + base && BaseName(path) == base
    requires dir != "" && AreAllSeparators(dir) && base != "" && NoSeparator(base)
    ensures DirName(path) == if |dir| == 2 || |dir| == 3 then "//" else "/"
    ensures Components(path) == [DirName(path)] + [base]
    ensures Components(DirName(path)) == [DirName(path)] && |DirName(path)| < |path|
  {
    hide *;
    InRootDirName(path, dir, base);
    InRootComponents(path, dir, base);
    RootsAreComponents();
  }

  lemma InRootDirName(path: string, dir: string, base: string)
    requires StripTrailingSeparators(path) == dir + base
    requires dir != "" && AreAllSeparators(dir) && base != "" && NoSeparator(base)
    ensures DirName(path) == if |dir| == 2 || |dir| == 3 then "//" else "/"
    ensures LastIndexOf(dir + base, '/') == |dir| - 1
  {
    var q, n := dir + base, |dir|;
    LastIndexOfIs(q, '/', n - 1);
    assert q[..n - 1] == dir[..n - 1];
    assert n == 1 ==> q[..1] == "/";
    assert n == 2 ==> q[..2] == "//";
    assert n == 3 ==> q[..n - 1] == "//";
    assert n > 3 ==> AreAllSeparators(q[..n - 1]) && |q[..n - 1]| > 2;
  }

  /** A segment below another one. */
  lemma BelowStep(path: string, dir: string, base: string)
    requires RightTrim(path) == StripTrailingSeparators(path) == dir + base && BaseName(path) == base
    requires EndsInSeparator(dir) && !AreAllSeparators(dir) && base != "" && NoSeparator(base)
    ensures DirName(path) == RightTrim(dir) && |DirName(path)| < |path|
    ensures Components(path) == Components(DirName(path)) + [base]
  {
    hide Segments, RightTrim, LastIndexOf, StripTrailingSeparators, BaseName, DirName, Components;
    var d, r := RightTrim(dir), dir[..|dir| - 1];
    BelowDirName(path, dir, base);
    SegmentsOfParts(path, dir, base);
    SegmentsRightTrim(dir);
    SegmentsRightTrim(r);
    SegmentsEmptyIff(d);
    BelowComponents(path, d, base);
  }

  lemma BelowDirName(path: string, dir: string, base: string)
    requires StripTrailingSeparators(path) == dir + base
    requires EndsInSeparator(dir) && !AreAllSeparators(dir) && base != "" && NoSeparator(base)
    ensures LastIndexOf(dir + base, '/') == |dir| - 1
    ensures DirName(path) == RightTrim(dir) == RightTrim(dir[..|dir| - 1]) && DirName(path) <= dir
    ensures !AreAllSeparators(DirName(path))
  {
    hide LastIndexOf, RightTrim, AreAllSeparators, Parent;
    var r := dir[..|dir| - 1];
    BelowParent(dir, base);
    NotAllSeparators(dir);
    NotEmpty(r);
  }

  lemma NotEmpty(s: string)
    requires !AreAllSeparators(s)
    ensures s != "" && s != "//"
  {
  }

  lemma BelowParent(dir: string, base: string)
    requires EndsInSeparator(dir) && !AreAllSeparators(dir) && NoSeparator(base)
    ensures LastIndexOf(dir + base, '/') == |dir| - 1 && Parent(dir + base) == dir[..|dir| - 1]
  {
    hide LastIndexOf;
    var q, n := dir + base, |dir|;
    LastIndexOfIs(q, '/', n - 1);
    assert q[..n - 1] == dir[..n - 1];
    assert q[0] == dir[0];
  }

  lemma NotAllSeparators(dir: string)
    requires EndsInSeparator(dir) && !AreAllSeparators(dir)
    ensures !AreAllSeparators(dir[..|dir| - 1]) && !AreAllSeparators(RightTrim(dir))
    ensures RightTrim(dir) == RightTrim(dir[..|dir| - 1])
  {
    var r := dir[..|dir| - 1];
    assert forall i :: 0 <= i < |r| ==> r[i] == dir[i];
    var t := RightTrim(dir);
    assert t != "" ==> !IsSeparator(t[|t| - 1]);
    assert dir[0..] == dir;
  }

  lemma BelowComponents(path: string, d: string, base: string)
    requires d != "" && d <= path && !EndsInSeparator(d) && Segments(d) != [] && |d| < |path|
    requires Segments(path) == Segments(d) + [base]
    ensures Components(path) == Components(d) + [base]
  {
    hide Segments, SegmentLength, LeadingSeparators;
    assert path[0] == d[0];
    if IsSeparator(d[0]) {
      assert !AreAllSeparators(d) by {
        SegmentsEmptyIff(d);
      }
      RootOfRest(path, d);
    } else {
      assert (Segments(d) + [base])[0] == Segments(d)[0] && (Segments(d) + [base])[1..] == Segments(d)[1..] + [base];
      if Segments(d) == ["."] {
        SingleDot(d);
      }
    }
  }

  /** A stripped relative path whose only segment is "." is ".". */
  lemma SingleDot(d: string)
    requires d != "" && !IsSeparator(d[0]) && !EndsInSeparator(d) && Segments(d) == ["."]
    ensures d == "."
  {
    hide Segments, SegmentLength;
    var k := LastIndexOf(d, '/');
    SegmentsLast(d, k);
    if k >= 0 {
      assert d[..k][0] == d[0];
      FirstSegment(d[..k]);
      assert false;
    } else {
      assert d[k + 1..] == d && Segments(d)[0] == d;
    }
  }

  /** One round of GetComponents: unless the path is its own directory, its components
      are those of the directory and the collected base name; and the directory is
      shorter, or ".". */
  lemma ComponentsStep(path: string)
    requires path != ""
    ensures path != DirName(path) ==> Components(path) == Components(DirName(path)) + Collected(path)
    ensures path == DirName(path) ==> Components(path) == if BaseName(path) == "." then [] else [BaseName(path)]
    ensures path == DirName(path) || |DirName(path)| < |path| || (DirName(path) == "." != path)
    ensures DirName(path) != "" && BaseName(path) != ""
  {
    hide DirName, BaseName, Components, RightTrim, Segments, StripTrailingSeparators;
    if AreAllSeparators(path) {
      AllSeparatorsStep(path);
      AllSeparatorsStep(DirName(path));
    } else {
      var dir, base := StrippedParts(path);
      if dir == "" {
        assert dir + base == base;
        BareStep(path, base);
        DotComponents();
      } else if AreAllSeparators(dir) {
        InRootStep(path, dir, base);
      } else {
        BelowStep(path, dir, base);
      }
    }
  }

  lemma DotComponents()
    ensures Components(".") == []
  {
  }

  lemma ReversedPush<T>(front: seq<T>, s: seq<T>, x: T)
    ensures front + Reversed(s + [x]) == (front + [x]) + Reversed(s)
  {
  }

  /** The loop ends because each directory is shorter, or ".", or the path itself. */
  method GetComponents(path: string) returns (components: seq<string>)
    ensures components == Components(path)
  {
    hide Components, DirName, BaseName, Reversed, AreAllSeparators;
    components := [];
    if path == "" {
      EmptyComponents();
      return;
    }
    var retVal := [];
    var current := path;
    assert Components(path) + Reversed(retVal) == Components(path);
    while current != DirName(current)
      invariant current != ""
      invariant Components(path) == Components(current) + Reversed(retVal)
      decreases if current == "." then 0 else |current|
    {
      ComponentsStep(current);
      var base := BaseName(current);
      if !AreAllSeparators(base) {
        ReversedPush(Components(DirName(current)), retVal, base);
        retVal := retVal + [base];
      }
      current := DirName(current);
    }
    ComponentsStep(current);
    var base := BaseName(current);
    if base != "" && base != CURRENT_DIRECTORY {
      ReversedPush([], retVal, base);
      retVal := retVal + [base];
    }
    components := Reversed(retVal);
  }

  lemma EmptyComponents()
    ensures Components("") == []
  {
  }

  /** A path taken apart: directory part, base name and trailing separators. */
  lemma PathParts(path: string, dir: string, base: string, trailing: string)
    requires path == dir + base + trailing && base != "" && NoSeparator(base) && AreAllSeparators(trailing)
    requires dir == "" || EndsInSeparator(dir)
    ensures StripTrailingSeparators(path) == RightTrim(path) == dir + base && BaseName(path) == base
    ensures DirName(path) == if dir == "" then "." else if AreAllSeparators(dir) then
                               (if |dir| == 2 || |dir| == 3 then "//" else "/")
                             else RightTrim(dir)
  {
    hide LastIndexOf, RightTrim, DirName, BaseName;
    var q := dir + base;
    assert q[|q| - 1] == base[|base| - 1] && path[|q|..] == trailing && path[|dir|] == base[0];
    RightTrimIs(path, q);
    assert !AreAllSeparators(path);
    StripTrailingIs(path, q);
    BaseOfStripped(path, dir, base);
    if dir == "" {
      BareStep(path, base);
    } else if AreAllSeparators(dir) {
      InRootDirName(path, dir, base);
    } else {
      BelowDirName(path, dir, base);
    }
  }

  lemma StripTrailingIs(path: string, q: string)
    requires !AreAllSeparators(path) && RightTrim(path) == q
    ensures StripTrailingSeparators(path) == q
  {
    hide RightTrim;
  }

  lemma BaseOfStripped(path: string, dir: string, base: string)
    requires StripTrailingSeparators(path) == dir + base && base != "" && NoSeparator(base)
    requires dir == "" || EndsInSeparator(dir)
    ensures BaseName(path) == base
  {
    hide LastIndexOf, StripTrailingSeparators;
    LastIndexOfIs(dir + base, '/', |dir| - 1);
  }

  // ---------- Append ----------

  function Append(path: string, component: string): string {
    if path == CURRENT_DIRECTORY then component
    else
      var newPath := StripTrailingSeparators(path);
      if component != "" && newPath != "" && !IsSeparator(newPath[|newPath| - 1])
      then newPath + "/" + component
      else newPath + component
  }

  /** A component that Append may add as one more segment. */
  predicate IsSegment(component: string) {
    component != "" && NoSeparator(component)
  }

  lemma StrippedEnds(path: string)
    requires path != "" && IsStripped(path)
    ensures path == "/" || path == "//" || !EndsInSeparator(path)
  {
  }

  /** The parts of a path that ends in an ordinary segment after a directory part. */
  lemma PartsOf(dir: string, base: string)
    requires IsSegment(base) && (dir == "" || EndsInSeparator(dir))
    ensures var q := dir + base;
            && StripTrailingSeparators(q) == q && BaseName(q) == base
            && LastIndexOf(q, '/') == |dir| - 1
  {
    var q := dir + base;
    assert q[|q| - 1] == base[|base| - 1];
    RightTrimIs(q, q);
    LastIndexOfIs(q, '/', |dir| - 1);
    assert q[|dir|..] == base;
    assert !AreAllSeparators(q);
  }

  lemma AppendToCurrent(path: string, c: string)
    requires IsSegment(c) && path in ["", "."]
    ensures Append(path, c) == c && BaseName(c) == c && IsStripped(c) && DirName(c) == "."
    ensures StripTrailingSeparators(path) == path
  {
    hide LastIndexOf, RightTrim;
    assert "" + c == c;
    RightTrimIs(path, path);
    PartsOf("", c);
    RightTrimIs("", "");
  }

  /** The directory part that Append puts before a component. */
  lemma AppendToOther(path: string, c: string) returns (p: string, dir: string)
    requires IsSegment(c) && path !in ["", "."]
    ensures p == StripTrailingSeparators(path) && p != "" && IsStripped(p)
    ensures dir == (if EndsInSeparator(p) then p else p + "/") && Append(path, c) == dir + c
  {
    hide RightTrim, AreAllSeparators, StripTrailingSeparators;
    StripIsIdempotent(path);
    p := StripTrailingSeparators(path);
    dir := if EndsInSeparator(p) then p else p + "/";
  }

  /** Append is undone by DirName and BaseName: for every path, up to trailing
      separators and to the empty path, which becomes ".". */
  lemma AppendThenSplit(path: string, c: string)
    requires IsSegment(c)
    ensures BaseName(Append(path, c)) == c
    ensures DirName(Append(path, c)) == if path == "" then "." else StripTrailingSeparators(path)
    ensures IsStripped(Append(path, c)) && Append(path, c) != ""
    ensures DirName(Append(path, c)) == Append(path, c) ==> path in ["", "."] && c == "."
  {
    hide Append, BaseName, DirName, StripTrailingSeparators, LastIndexOf;
    if path in ["", "."] {
      AppendToCurrent(path, c);
    } else {
      var p, dir := AppendToOther(path, c);
      PartsOf(dir, c);
      ParentOfAppended(p, dir, c);
    }
  }

  lemma ParentOfAppended(p: string, dir: string, c: string)
    requires p != "" && IsStripped(p) && IsSegment(c)
    requires dir == if EndsInSeparator(p) then p else p + "/"
    requires LastIndexOf(dir + c, '/') == |dir| - 1 && IsStripped(dir + c)
    ensures DirName(dir + c) == p
  {
    hide LastIndexOf, RightTrim, StripTrailingSeparators;
    ParentIs(p, dir, c);
  }

  lemma ParentIs(p: string, dir: string, c: string)
    requires p != "" && IsStripped(p) && IsSegment(c)
    requires dir == if EndsInSeparator(p) then p else p + "/"
    requires LastIndexOf(dir + c, '/') == |dir| - 1
    ensures Parent(dir + c) == p
  {
    hide LastIndexOf;
    StrippedEnds(p);
    var q := dir + c;
    assert q[0] == p[0] && q[..|p|] == p;
  }

  /** DirName gives the path back exactly when it was stripped and not empty. */
  lemma AppendIsInvertible(path: string, c: string)
    requires IsSegment(c)
    ensures DirName(Append(path, c)) == path <==> IsStripped(path) && path != ""
  {
    AppendThenSplit(path, c);
  }

  lemma ComponentsOfAppended(path: string, c: string)
    requires IsSegment(c) && path !in ["", "."]
    ensures Components(Append(path, c)) == Components(StripTrailingSeparators(path)) + [c]
  {
    hide Components, DirName, BaseName, Append, StripTrailingSeparators;
    AppendThenSplit(path, c);
    ComponentsStep(Append(path, c));
    assert !IsSeparator(c[0]);
  }

  // ---------- Relative paths ----------

  /** The components of the parent start those of the child, which has more. */
  predicate IsParent(parent: string, child: string) {
    var p, c := Components(parent), Components(child);
    p != [] && |p| < |c| && p == c[..|p|]
  }

  function AppendAll(path: string, components: seq<string>): string {
    if components == [] then path
    else Append(AppendAll(path, components[..|components| - 1]), components[|components| - 1])
  }

  /** `path` is None when the caller passes no path to extend. */
  method AppendRelativePath(parent: string, child: string, path: Option<string>)
    returns (ok: bool, newPath: Option<string>)
    ensures ok <==> IsParent(parent, child)
    ensures ok && path.Some? ==>
              newPath == Some(AppendAll(path.value, Components(child)[|Components(parent)|..]))
    ensures !ok || path.None? ==> newPath == path
  {
    hide Components, Append;
    newPath := path;
    var parentComponents := GetComponents(parent);
    var childComponents := GetComponents(child);
    if |parentComponents| >= |childComponents| {
      return false, newPath;
    }
    if |parentComponents| == 0 {
      return false, newPath;
    }
    var i := 0;
    while i < |parentComponents|
      invariant i <= |parentComponents| && parentComponents[..i] == childComponents[..i]
    {
      if parentComponents[i] != childComponents[i] {
        assert childComponents[..|parentComponents|][i] != parentComponents[i];
        return false, newPath;
      }
      i := i + 1;
    }
    ok := true;
    if path.Some? {
      var result := path.value;
      ghost var rest := childComponents[i..];
      ghost var start := i;
      while i < |childComponents|
        invariant start <= i <= |childComponents| && result == AppendAll(path.value, rest[..i - start])
      {
        result := Append(result, childComponents[i]);
        assert rest[..i + 1 - start][..i - start] == rest[..i - start];
        i := i + 1;
      }
      assert rest[..i - start] == rest;
      newPath := Some(result);
    }
  }

  /** No path is its own parent, and a parent's parent is a parent. */
  lemma IsParentIsStrictOrder(a: string, b: string, c: string)
    ensures !IsParent(a, a)
    ensures IsParent(a, b) && IsParent(b, c) ==> IsParent(a, c)
    ensures IsParent(a, b) ==> !IsParent(b, a)
  {
    hide Components;
    if IsParent(a, b) && IsParent(b, c) {
      var p := |Components(a)|;
      assert Components(b)[..p] == Components(c)[..|Components(b)|][..p];
    }
  }

  /** Every component but a root is a segment. */
  lemma ComponentsAreSegments(path: string, k: nat)
    requires 0 < k < |Components(path)|
    ensures IsSegment(Components(path)[k])
  {
    SegmentsProper(path);
  }

  lemma AppendAllUnfolds(path: string, cs: seq<string>)
    ensures cs == [] ==> AppendAll(path, cs) == path
    ensures cs != [] ==> AppendAll(path, cs) == Append(AppendAll(path, cs[..|cs| - 1]), cs[|cs| - 1])
  {
    hide Append;
  }

  /** One more component for a path other than the current directory. */
  lemma AppendOne(path: string, c: string)
    requires path !in ["", "."] && IsSegment(c)
    ensures Components(Append(path, c)) == Components(StripTrailingSeparators(path)) + [c]
    ensures IsStripped(Append(path, c)) && Append(path, c) !in ["", "."]
  {
    hide Components, StripTrailingSeparators, Append, DirName, BaseName, NoSeparator;
    ComponentsOfAppended(path, c);
    AppendThenSplit(path, c);
    NotDot(path, c);
  }

  lemma {:induction false} ComponentsOfAppendAll(path: string, cs: seq<string>)
    requires path !in ["", "."] && cs != []
    requires forall k :: 0 <= k < |cs| ==> IsSegment(cs[k])
    ensures Components(AppendAll(path, cs)) == Components(StripTrailingSeparators(path)) + cs
    ensures IsStripped(AppendAll(path, cs)) && AppendAll(path, cs) !in ["", "."]
  {
    hide Components, StripTrailingSeparators, Append, AppendAll, IsSegment, NoSeparator;
    var n := |cs| - 1;
    AppendAllUnfolds(path, cs);
    assert cs == cs[..n] + [cs[n]];
    if n == 0 {
      AppendAllUnfolds(path, cs[..n]);
      AppendOne(path, cs[0]);
    } else {
      ComponentsOfAppendAll(path, cs[..n]);
      AppendOne(AppendAll(path, cs[..n]), cs[n]);
    }
  }

  lemma NotDot(path: string, c: string)
    requires path !in ["", "."] && IsSegment(c)
    ensures Append(path, c) !in ["", "."]
  {
    StripIsIdempotent(path);
    assert |Append(path, c)| >= 2;
  }

  lemma SlashDotComponents(path: string)
    requires path != "" && StripTrailingSeparators(path) == "."
    ensures Components(path) == if path == "." then [] else ["."]
  {
    assert RightTrim(path) == ".";
    assert path[0] == '.';
    SegmentsRightTrim(path);
    SegmentsOfOne(".");
  }

  lemma StripKeepsComponents(path: string)
    requires path != "" && StripTrailingSeparators(path) != "."
    ensures Components(StripTrailingSeparators(path)) == Components(path)
  {
    if AreAllSeparators(path) {
      AllSeparatorsStep(path);
      AllSeparatorsStep(StripTrailingSeparators(path));
    } else {
      hide Segments, LeadingSeparators;
      var p := RightTrim(path);
      StripIsIdempotent(path);
      assert p == StripTrailingSeparators(path) != "" && p[0] == path[0];
      SegmentsRightTrim(path);
      SegmentsEmptyIff(path);
      SegmentsEmptyIff(p);
      RootOfRest(path, p);
      if !IsSeparator(p[0]) && Segments(p) == ["."] {
        SingleDot(p);
      }
    }
  }

  /** Extending the parent itself by the relative path to a child gives a path with
      exactly the child's components, unless the parent is "." followed by separators. */
  lemma AppendRelativeRebuildsChild(parent: string, child: string)
    requires IsParent(parent, child)
    ensures Components(AppendAll(parent, Components(child)[|Components(parent)|..])) == Components(child)
            <==> StripTrailingSeparators(parent) != "."
  {
    hide Components, StripTrailingSeparators, AppendAll;
    var n := |Components(parent)|;
    var rest := Components(child)[n..];
    EmptyComponents();
    DotComponents();
    assert Components(child) == Components(parent) + rest;
    forall k | 0 <= k < |rest|
      ensures IsSegment(rest[k])
    {
      ComponentsAreSegments(child, n + k);
    }
    ComponentsOfAppendAll(parent, rest);
    if StripTrailingSeparators(parent) == "." {
      SlashDotComponents(parent);
    } else {
      StripKeepsComponents(parent);
    }
  }

  /** Such a parent exists: from "./" the relative path to "././a" leads to "./a", which has
      one component less. */
  lemma SlashDotParentIsLost()
    ensures IsParent("./", "././a") && Components("././a") == [".", "a"]
    ensures AppendAll("./", Components("././a")[|Components("./")|..]) == "./a" && Components("./a") == ["a"]
  {
    hide Components, StripTrailingSeparators, DirName;
    SlashDotStrips();
    DotComponents();
    SlashDotComponents("./");
    assert Append("./", ".") == "./." && Append("././", "a") == "././a" && Append("./", "a") == "./a";
    ComponentsOfAppended("./", ".");
    ComponentsOfAppended("././", "a");
    ComponentsOfAppended("./", "a");
    var rest := [".", "a"][1..];
    assert rest == ["a"] && rest[..0] == [] && [".", "a"][..1] == ["."];
    assert AppendAll("./", rest) == Append(AppendAll("./", []), "a") == "./a";
  }

  lemma SlashDotStrips()
    ensures StripTrailingSeparators("./") == "." && StripTrailingSeparators("././") == "./."
  {
    assert !IsSeparator("./"[0]) && !IsSeparator("././"[0]);
    RightTrimIs("./", ".");
    RightTrimIs("././", "./.");
  }

  // ---------- Extensions ----------

  function Extension(path: string): string {
    var base := BaseName(path);
    if base == CURRENT_DIRECTORY || base == PARENT_DIRECTORY then ""
    else
      var lastDot := LastIndexOf(base, EXTENSION_SEPARATOR);
      if lastDot == -1 then "" else base[lastDot..]
  }

  function RemoveExtension(path: string): string {
    var lastDot := LastIndexOf(path, EXTENSION_SEPARATOR);
    if Extension(path) == "" || lastDot == -1 then path else path[..lastDot]
  }

  function ReplaceExtension(path: string, extension: string): string {
    var base := BaseName(path);
    if path == "" || base == "" || base == CURRENT_DIRECTORY || base == PARENT_DIRECTORY then ""
    else
      var noExt := RemoveExtension(path);
      if extension == "" || extension == "." then noExt
      else if extension[0] != EXTENSION_SEPARATOR then noExt + "." + extension
      else noExt + extension
  }

  /** The last dot of a path is the last dot of its base name, if that has one. */
  lemma LastDot(path: string, dir: string, base: string)
    requires StripTrailingSeparators(path) == RightTrim(path) == dir + base
    requires LastIndexOf(base, '.') >= 0
    ensures LastIndexOf(path, '.') == |dir| + LastIndexOf(base, '.')
  {
    var q, k := RightTrim(path), |dir| + LastIndexOf(base, '.');
    assert q <= path && path[k] == base[k - |dir|];
    forall i | k < i < |path|
      ensures path[i] != '.'
    {
      if i < |q| {
        assert path[i] == q[i] == base[i - |dir|];
      } else {
        assert path[i] == path[|q|..][i - |q|];
      }
    }
    LastIndexOfIs(path, '.', k);
  }

  lemma ExtensionOfSeparators(path: string)
    requires AreAllSeparators(path)
    ensures Extension(path) == ""
  {
    if path == "" {
      assert RightTrim("") == "";
    } else {
      AllSeparatorsStep(path);
    }
  }

  lemma CutAndJoin(path: string, dir: string, base: string, k: nat)
    requires dir + base <= path && k <= |base|
    ensures path[..|dir| + k] + base[k..] == dir + base
  {
    var q := dir + base;
    assert path[..|dir| + k] == q[..|dir| + k] == dir + base[..k];
  }

  lemma LastDotOf(path: string)
    requires Extension(path) != ""
    ensures var base := BaseName(path); var k := LastIndexOf(base, '.');
            k >= 0 && Extension(path) == base[k..]
    ensures LastIndexOf(path, '.') >= 0 ==> RemoveExtension(path) == path[..LastIndexOf(path, '.')]
  {
    hide BaseName, LastIndexOf;
  }

  /** Removing a nonempty extension cuts the stripped path just before it. */
  lemma RemoveExtensionCuts(path: string)
    requires Extension(path) != ""
    ensures RemoveExtension(path) + Extension(path) == StripTrailingSeparators(path)
  {
    hide RightTrim, StripTrailingSeparators, BaseName, LastIndexOf, Extension, RemoveExtension;
    if AreAllSeparators(path) {
      ExtensionOfSeparators(path);
    } else {
      var dir, base := StrippedParts(path);
      LastDotOf(path);
      LastDot(path, dir, base);
      CutAndJoin(path, dir, base, LastIndexOf(base, '.'));
    }
  }

  /** Name and extension spell the path again exactly if the path has no extension or
      no trailing separators. */
  lemma ExtensionPartition(path: string)
    ensures RemoveExtension(path) + Extension(path) ==
            if Extension(path) == "" then path else StripTrailingSeparators(path)
    ensures RemoveExtension(path) + Extension(path) == path <==> Extension(path) == "" || IsStripped(path)
  {
    if Extension(path) != "" {
      RemoveExtensionCuts(path);
    }
  }

  /** The header promises that they always do; "a.b/" is a path for which they do not. */
  lemma TrailingSeparatorIsLost()
    ensures RemoveExtension("a.b/") + Extension("a.b/") == "a.b"
  {
    var path, base := "a.b/", "a.b";
    RightTrimIs(path, base);
    assert !IsSeparator(path[0]);
    assert StripTrailingSeparators(path) == base;
    LastIndexOfIs(base, '/', -1);
    LastIndexOfIs(base, '.', 1);
    assert Extension(path) == ".b";
    RemoveExtensionCuts(path);
  }

  /** An extension without its optional leading dot. */
  function Body(e: string): string
    requires e != ""
  {
    if e[0] == '.' then e[1..] else e
  }

  /** An extension that ReplaceExtension can take off again: something without dots and
      separators, after at most one leading dot. */
  predicate IsPlainExtension(e: string) {
    e != "" && Body(e) != "" && NoSeparator(Body(e)) && '.' !in Body(e)
  }

  /** Everything up to the last separator, and the rest. */
  lemma SplitAtLastSeparator(s: string) returns (dir: string, rest: string)
    ensures s == dir + rest && (dir == "" || EndsInSeparator(dir)) && NoSeparator(rest)
  {
    hide LastIndexOf, NoSeparator;
    var n := LastIndexOf(s, '/') + 1;
    dir, rest := s[..n], s[n..];
    NoSeparatorFrom(s, n);
  }

  lemma Regroup(dir: string, rest: string, body: string)
    ensures (dir + rest) + "." + body == dir + (rest + "." + body)
  {
  }

  /** The base name of a path that ends in a dot and a plain body. */
  lemma DottedBaseName(front: string, body: string) returns (start: string)
    requires body != "" && NoSeparator(body) && '.' !in body
    ensures BaseName(front + "." + body) == start + "." + body
  {
    hide *;
    var dir, rest := SplitAtLastSeparator(front);
    start := rest;
    DottedSegment(start, body);
    Regroup(dir, rest, body);
    PartsOf(dir, start + "." + body);
  }

  lemma DottedSegment(start: string, body: string)
    requires NoSeparator(start) && NoSeparator(body)
    ensures IsSegment(start + "." + body)
  {
  }

  lemma LastDotIs(front: string, body: string)
    requires '.' !in body
    ensures var r := front + "." + body;
            LastIndexOf(r, '.') == |front| && r[|front|..] == "." + body && r[..|front|] == front
  {
    LastIndexOfIs(front + "." + body, '.', |front|);
  }

  /** A path that ends in a dot and a plain body has the dot and body as its extension. */
  lemma ExtensionOf(front: string, body: string)
    requires body != "" && NoSeparator(body) && '.' !in body
    ensures var r := front + "." + body;
            && BaseName(r) !in ["", ".", ".."]
            && RemoveExtension(r) == front && Extension(r) == "." + body
  {
    hide BaseName, LastIndexOf;
    var start := DottedBaseName(front, body);
    var base := start + "." + body;
    assert base[|base| - 1] == body[|body| - 1] && body[|body| - 1] in body;
    LastDotIs(front, body);
    LastDotIs(start, body);
  }

  lemma ReplacedBy(path: string, e: string)
    requires e !in ["", "."] && BaseName(path) !in ["", ".", ".."] && path != ""
    ensures ReplaceExtension(path, e) == RemoveExtension(path) + "." + Body(e)
  {
    hide BaseName, RemoveExtension;
    assert e[0] == '.' ==> e == "." + Body(e);
  }

  /** An extension taken apart: the base name ends in a dot and a body without dots. */
  lemma ExtensionParts(path: string, dir: string, start: string, body: string, trailing: string)
    requires path == dir + (start + "." + body) + trailing && AreAllSeparators(trailing)
    requires (dir == "" || EndsInSeparator(dir)) && NoSeparator(start) && NoSeparator(body) && '.' !in body
    requires start + "." + body !in [".", ".."]
    ensures Extension(path) == "." + body && RemoveExtension(path) == dir + start
    ensures BaseName(path) == start + "." + body
  {
    hide BaseName, LastIndexOf, RightTrim, StripTrailingSeparators;
    var base := start + "." + body;
    PathParts(path, dir, base, trailing);
    LastDotIs(start, body);
    LastDot(path, dir, base);
    assert path[..|dir| + |start|] == dir + start;
  }

  /** No dot in the base name, or nothing but dots: no extension. */
  lemma NoExtension(path: string, dir: string, base: string, trailing: string)
    requires path == dir + base + trailing && base != "" && NoSeparator(base) && AreAllSeparators(trailing)
    requires dir == "" || EndsInSeparator(dir)
    requires '.' !in base || base in [".", ".."]
    ensures Extension(path) == "" && RemoveExtension(path) == path && BaseName(path) == base
  {
    hide BaseName, LastIndexOf, RightTrim, StripTrailingSeparators;
    PathParts(path, dir, base, trailing);
    if '.' !in base {
      LastIndexOfIs(base, '.', -1);
    }
  }

  /** Replacing by "" or "." cuts the extension off, and nothing else. */
  lemma ReplacedByNothing(path: string, e: string)
    requires e in ["", "."] && path != "" && BaseName(path) !in ["", ".", ".."]
    ensures ReplaceExtension(path, e) + Extension(path) ==
            if Extension(path) == "" then path else StripTrailingSeparators(path)
  {
    hide BaseName, RemoveExtension, Extension;
    ExtensionPartition(path);
  }

  /** Replacing by a plain extension gives a path with this extension, and with the same rest. */
  lemma ReplacedHasExtension(path: string, e: string)
    requires IsPlainExtension(e) && BaseName(path) !in ["", ".", ".."] && path != ""
    ensures Extension(ReplaceExtension(path, e)) == "." + Body(e)
    ensures RemoveExtension(ReplaceExtension(path, e)) + Extension(path) ==
            if Extension(path) == "" then path else StripTrailingSeparators(path)
  {
    hide BaseName, RemoveExtension, Extension, StripTrailingSeparators;
    ReplacedBy(path, e);
    ExtensionOf(RemoveExtension(path), Body(e));
    ExtensionPartition(path);
  }

  /** What is not a name of a file has nothing to replace. */
  lemma ReplacedInNoName(path: string, e: string)
    requires path == "" || BaseName(path) in [".", ".."]
    ensures ReplaceExtension(path, e) == ""
  {
  }

  /** Replacing the extension twice is replacing it once. */
  lemma ReplaceExtensionTwice(path: string, e: string, f: string)
    requires IsPlainExtension(e)
    ensures ReplaceExtension(ReplaceExtension(path, e), f) == ReplaceExtension(path, f)
  {
    hide BaseName, RemoveExtension, Extension;
    if path != "" && BaseName(path) !in ["", ".", ".."] {
      ReplacedBy(path, e);
      ExtensionOf(RemoveExtension(path), Body(e));
    }
  }
}
