/** A stack of directories that are still to be read, and what lies below them. */
module DirectoryStacks {
  import opened FileTrees

  // ---------- What one directory listing adds ----------

  /** The subdirectories, in the order they are pushed. */
  function Pushed(dir: Path, entries: seq<Entry>): seq<Path> {
    if entries == [] then []
    else
      var n, e := |entries| - 1, entries[|entries| - 1];
      Pushed(dir, entries[..n]) + if !IsDots(e.name) && e.kind.Directory? then [dir + [e.name]] else []
  }

  predicate IsKept(e: Entry, files: bool, directories: bool) {
    !IsDots(e.name) && if e.kind.Directory? then directories else files
  }

  /** The entries that will be returned. */
  function Kept(entries: seq<Entry>, files: bool, directories: bool): seq<Entry> {
    if entries == [] then []
    else
      var n, e := |entries| - 1, entries[|entries| - 1];
      Kept(entries[..n], files, directories) + if IsKept(e, files, directories) then [e] else []
  }

  ghost predicate DistinctNames(entries: seq<Entry>) {
    forall j, k :: 0 <= j < k < |entries| ==> entries[j].name != entries[k].name
  }

  ghost predicate DistinctPaths(paths: seq<Path>) {
    forall j, k :: 0 <= j < k < |paths| ==> paths[j] != paths[k]
  }

  lemma ChildPath(dir: Path, name: string)
    ensures |dir + [name]| == |dir| + 1 && (dir + [name])[..|dir|] == dir && (dir + [name])[|dir|] == name
  {
  }

  lemma {:induction false} PushedMembers(dir: Path, entries: seq<Entry>)
    ensures forall p :: p in Pushed(dir, entries) ==>
              |p| == |dir| + 1 && p[..|dir|] == dir && !IsDots(p[|dir|]) && Entry(p[|dir|], Directory) in entries
    ensures forall name :: !IsDots(name) && Entry(name, Directory) in entries ==> dir + [name] in Pushed(dir, entries)
  {
    if entries != [] {
      var n, e := |entries| - 1, entries[|entries| - 1];
      PushedMembers(dir, entries[..n]);
      ChildPath(dir, e.name);
      assert entries == entries[..n] + [e];
    }
  }

  lemma {:induction false} PushedIs(dir: Path, entries: seq<Entry>)
    requires DistinctNames(entries)
    ensures forall p :: p in Pushed(dir, entries) ==>
              |p| == |dir| + 1 && p[..|dir|] == dir && !IsDots(p[|dir|]) && Entry(p[|dir|], Directory) in entries
    ensures forall name :: !IsDots(name) && Entry(name, Directory) in entries ==> dir + [name] in Pushed(dir, entries)
    ensures DistinctPaths(Pushed(dir, entries))
  {
    PushedMembers(dir, entries);
    if entries != [] {
      var n, e := |entries| - 1, entries[|entries| - 1];
      PushedIs(dir, entries[..n]);
      ChildPath(dir, e.name);
      NewPath(dir, entries, Pushed(dir, entries[..n]));
    }
  }

  lemma NewPath(dir: Path, entries: seq<Entry>, before: seq<Path>)
    requires DistinctNames(entries) && entries != []
    requires forall p :: p in before ==> |p| == |dir| + 1 && Entry(p[|dir|], Directory) in entries[..|entries| - 1]
    ensures dir + [entries[|entries| - 1].name] !in before
  {
    ChildPath(dir, entries[|entries| - 1].name);
  }

  lemma {:induction false} KeptIs(entries: seq<Entry>, files: bool, directories: bool)
    requires DistinctNames(entries)
    ensures forall e :: e in Kept(entries, files, directories) <==> e in entries && IsKept(e, files, directories)
    ensures DistinctNames(Kept(entries, files, directories))
  {
    if entries != [] {
      var n, e := |entries| - 1, entries[|entries| - 1];
      var before := Kept(entries[..n], files, directories);
      KeptIs(entries[..n], files, directories);
      assert entries == entries[..n] + [e];
      forall k | 0 <= k < |before|
        ensures before[k].name != e.name
      {
        assert before[k] in entries[..n];
      }
    }
  }

  /** What is returned and what is pushed of the entries of a directory, spelled out. */
  lemma {:induction false} SortedOut(dir: Path, entries: seq<Entry>, files: bool, directories: bool)
    ensures forall e :: e in Kept(entries, files, directories) <==>
              e in entries && e.name != "." && e.name != ".." && (if e.kind == Directory then directories else files)
    ensures forall p :: p in Pushed(dir, entries) <==>
              exists k :: 0 <= k < |entries| && entries[k].kind == Directory && entries[k].name != "." && entries[k].name != ".." &&
                          p == dir + [entries[k].name]
  {
    if entries != [] {
      var n, e := |entries| - 1, entries[|entries| - 1];
      SortedOut(dir, entries[..n], files, directories);
      assert entries == entries[..n] + [e];
    }
  }

  /** The entries keep their order. */
  lemma {:induction false} KeptInOrder(entries: seq<Entry>, files: bool, directories: bool, i: nat, j: nat) returns (a: nat, b: nat)
    requires i < j < |entries| && IsKept(entries[i], files, directories) && IsKept(entries[j], files, directories)
    ensures a < b < |Kept(entries, files, directories)|
    ensures Kept(entries, files, directories)[a] == entries[i] && Kept(entries, files, directories)[b] == entries[j]
  {
    hide IsKept;
    var n := |entries| - 1;
    if j < n {
      a, b := KeptInOrder(entries[..n], files, directories, i, j);
    } else {
      a := KeptSomewhere(entries[..n], files, directories, i);
      b := |Kept(entries[..n], files, directories)|;
    }
  }

  lemma {:induction false} KeptSomewhere(entries: seq<Entry>, files: bool, directories: bool, i: nat) returns (a: nat)
    requires i < |entries| && IsKept(entries[i], files, directories)
    ensures a < |Kept(entries, files, directories)| && Kept(entries, files, directories)[a] == entries[i]
  {
    hide IsKept;
    var n := |entries| - 1;
    if i < n {
      a := KeptSomewhere(entries[..n], files, directories, i);
    } else {
      a := |Kept(entries[..n], files, directories)|;
    }
  }

  // ---------- What is still to be returned ----------

  predicate Wanted(kind: Kind, files: bool, directories: bool) {
    if kind.Directory? then directories else files
  }

  /** The second directory lies below the first one's parent. */
  predicate Inside(a: Path, b: Path) {
    a != [] && Below(Parent(a), b)
  }

  /** What is above another directory on the stack lies below that one's parent. */
  ghost predicate NestedStack(pending: seq<Path>) {
    forall j, k :: 0 <= j < k < |pending| ==> Inside(pending[j], pending[k])
  }

  lemma NestedPrefix(base: seq<Path>, dir: Path)
    requires NestedStack(base + [dir])
    ensures NestedStack(base)
  {
    hide Inside;
    var all := base + [dir];
    assert forall k :: 0 <= k < |base| ==> all[k] == base[k];
  }

  predicate BelowSome(pending: seq<Path>, p: Path) {
    exists k :: 0 <= k < |pending| && Below(pending[k], p)
  }

  /** The wanted paths below the directories that are still to be read. */
  ghost function Deep(t: Tree, pending: seq<Path>, files: bool, directories: bool): set<Path> {
    set p | p in t && Wanted(t[p], files, directories) && BelowSome(pending, p)
  }

  /** The paths of the entries that have been read. */
  ghost function Near(dir: Path, entries: seq<Entry>): set<Path> {
    set k | 0 <= k < |entries| :: dir + [entries[k].name]
  }

  predicate Unrelated(p: Path, q: Path) {
    p != q && !Below(p, q) && !Below(q, p)
  }

  ghost predicate PendingOk(pending: seq<Path>) {
    forall j, k :: 0 <= j < k < |pending| ==> Unrelated(pending[j], pending[k])
  }

  lemma BelowChild(dir: Path, child: Path, q: Path)
    requires |child| == |dir| + 1 && child[..|dir|] == dir
    ensures Below(q, child) ==> q == dir || Below(q, dir)
    ensures Below(child, q) || q == child ==> Below(dir, q)
  {
    if Below(q, child) {
      assert dir[..|q|] == child[..|q|];
    }
    if Below(child, q) {
      assert q[..|dir|] == child[..|dir|];
    }
  }

  /** Replacing the top of the stack by directories directly inside it. */
  lemma ReplaceTop(base: seq<Path>, dir: Path, pushed: seq<Path>)
    requires PendingOk(base + [dir]) && DistinctPaths(pushed)
    requires forall p :: p in pushed ==> |p| == |dir| + 1 && p[..|dir|] == dir
    ensures PendingOk(base + pushed)
  {
    var next, n := base + pushed, |base|;
    assert (base + [dir])[n] == dir;
    forall j, k | 0 <= j < k < |next|
      ensures Unrelated(next[j], next[k])
    {
      if k < n {
        assert next[j] == (base + [dir])[j] && next[k] == (base + [dir])[k];
      } else if j < n {
        assert next[k] in pushed && next[j] == (base + [dir])[j];
        assert Unrelated(next[j], dir);
        BelowChild(dir, next[k], next[j]);
      } else {
        assert next[j] in pushed && next[k] in pushed;
      }
    }
  }

  /** The subdirectories in a listing are in the tree. */
  lemma PushedInTree(t: Tree, dir: Path, entries: seq<Entry>)
    requires Lists(t, dir, entries)
    ensures var pushed := Pushed(dir, entries);
            && DistinctPaths(pushed)
            && forall p :: p in pushed ==> |p| == |dir| + 1 && p[..|dir|] == dir && p in t && t[p].Directory?
  {
    hide Pushed;
    PushedIs(dir, entries);
    forall p | p in Pushed(dir, entries)
      ensures p in t && t[p].Directory?
    {
      assert Entry(p[|dir|], Directory) in entries && p == dir + [p[|dir|]];
    }
  }

  /** A kept entry names a wanted path directly inside the directory. */
  lemma KeptInTree(t: Tree, dir: Path, entries: seq<Entry>, files: bool, directories: bool)
    requires Lists(t, dir, entries)
    ensures var kept := Kept(entries, files, directories);
            && DistinctNames(kept)
            && forall k :: 0 <= k < |kept| ==> var p := dir + [kept[k].name];
                 p in t && t[p] == kept[k].kind && Wanted(t[p], files, directories) && Below(dir, p)
  {
    hide Kept;
    KeptIs(entries, files, directories);
    forall k | 0 <= k < |Kept(entries, files, directories)|
      ensures var e := Kept(entries, files, directories)[k]; var p := dir + [e.name];
              p in t && t[p] == e.kind && Wanted(t[p], files, directories) && Below(dir, p)
    {
      var e := Kept(entries, files, directories)[k];
      assert e in Kept(entries, files, directories) && e in entries;
    }
  }

  /** A path below a directory is one of its entries or below a subdirectory. */
  lemma ListedOrDeeper(t: Tree, dir: Path, entries: seq<Entry>, files: bool, directories: bool, p: Path)
    requires WellFormed(t) && Lists(t, dir, entries)
    requires p in t && Wanted(t[p], files, directories) && Below(dir, p)
    ensures p in Near(dir, Kept(entries, files, directories)) || BelowSome(Pushed(dir, entries), p)
  {
    hide Pushed, Kept;
    PushedIs(dir, entries);
    KeptIs(entries, files, directories);
    var child := StepTowards(t, dir, p);
    var e := Entry(child[|dir|], t[child]);
    assert Parent(child) == dir && dir + [e.name] == child;
    assert e in entries && !IsDots(e.name);
    if child == p {
      assert e in Kept(entries, files, directories);
      var k :| 0 <= k < |Kept(entries, files, directories)| && Kept(entries, files, directories)[k] == e;
    } else {
      assert child in Pushed(dir, entries);
    }
  }

  lemma BelowSomeOfTwo(a: seq<Path>, b: seq<Path>, p: Path)
    ensures BelowSome(a + b, p) <==> BelowSome(a, p) || BelowSome(b, p)
  {
    if k :| 0 <= k < |a| && Below(a[k], p) {
      assert (a + b)[k] == a[k];
    }
    if k :| 0 <= k < |b| && Below(b[k], p) {
      assert (a + b)[|a| + k] == b[k];
    }
  }

  /** What was below the directory is now among its entries or below its subdirectories. */
  lemma ReadTopKeepsTodo(t: Tree, base: seq<Path>, dir: Path, entries: seq<Entry>, files: bool, directories: bool)
    requires WellFormed(t) && Lists(t, dir, entries)
    ensures Deep(t, base + [dir], files, directories) ==
            Deep(t, base + Pushed(dir, entries), files, directories) + Near(dir, Kept(entries, files, directories))
  {
    hide Pushed, Kept, BelowSome, WellFormed;
    var pushed, kept := Pushed(dir, entries), Kept(entries, files, directories);
    PushedInTree(t, dir, entries);
    KeptInTree(t, dir, entries, files, directories);
    forall p: Path
      ensures BelowSome(base + [dir], p) <==> BelowSome(base, p) || Below(dir, p)
      ensures BelowSome(base + pushed, p) <==> BelowSome(base, p) || BelowSome(pushed, p)
      ensures BelowSome(pushed, p) ==> Below(dir, p)
    {
      BelowSomeOfTwo(base, [dir], p);
      BelowSomeOfTwo(base, pushed, p);
      BelowSomeOfOne(dir, p);
      BelowPushed(dir, pushed, p);
    }
    forall p | p in t && Wanted(t[p], files, directories) && Below(dir, p)
      ensures p in Near(dir, kept) || BelowSome(pushed, p)
    {
      ListedOrDeeper(t, dir, entries, files, directories, p);
    }
  }

  /** Nothing is below what is not a directory. */
  lemma NothingBelow(t: Tree, base: seq<Path>, dir: Path, files: bool, directories: bool)
    requires WellFormed(t) && !(dir in t && t[dir].Directory?)
    ensures Deep(t, base + [dir], files, directories) == Deep(t, base, files, directories)
  {
    forall p | p in t
      ensures !Below(dir, p)
      ensures BelowSome(base + [dir], p) <==> BelowSome(base, p)
    {
      BelowSomeOfTwo(base, [dir], p);
      BelowSomeOfOne(dir, p);
      if Below(dir, p) {
        var _ := StepTowards(t, dir, p);
      }
    }
  }

  lemma BelowSomeOfOne(dir: Path, p: Path)
    ensures BelowSome([dir], p) <==> Below(dir, p)
  {
    assert Below(dir, p) ==> Below([dir][0], p);
  }

  lemma BelowPushed(dir: Path, pushed: seq<Path>, p: Path)
    requires forall q :: q in pushed ==> |q| == |dir| + 1 && q[..|dir|] == dir
    ensures BelowSome(pushed, p) ==> Below(dir, p)
  {
    if k :| 0 <= k < |pushed| && Below(pushed[k], p) {
      assert pushed[k] in pushed;
      BelowChild(dir, pushed[k], p);
    }
  }

  /** The directories that may still be read. */
  ghost function Unread(t: Tree, pending: seq<Path>): set<Path> {
    (set p | p in pending) + (set p | p in t && BelowSome(pending, p))
  }

  lemma UnreadShrinks(t: Tree, base: seq<Path>, dir: Path, pushed: seq<Path>)
    requires PendingOk(base + [dir])
    requires forall q :: q in pushed ==> |q| == |dir| + 1 && q[..|dir|] == dir && q in t
    ensures Unread(t, base + pushed) < Unread(t, base + [dir])
  {
    var all, n := base + [dir], |base|;
    assert all[n] == dir && dir in Unread(t, all);
    forall p | p in Unread(t, base + pushed)
      ensures p in Unread(t, all) && p != dir
    {
      BelowSomeOfTwo(base, pushed, p);
      BelowSomeOfTwo(base, [dir], p);
      BelowSomeOfOne(dir, p);
      BelowPushed(dir, pushed, p);
      assert p in base ==> p in all;
      assert p in pushed ==> Below(dir, p);
      if k :| 0 <= k < n && (base[k] == p || Below(base[k], p)) {
        assert all[k] == base[k] && Unrelated(all[k], all[n]);
      }
    }
  }

  predicate IsDirectory(t: Tree, p: Path) {
    p in t && t[p].Directory?
  }

  /** The subtrees below the pending directories are as they were. */
  ghost predicate Agree(t: Tree, now: Tree, pending: seq<Path>) {
    && WellFormed(now)
    && (forall k :: 0 <= k < |pending| ==> (IsDirectory(t, pending[k]) <==> IsDirectory(now, pending[k])))
    && (forall p :: BelowSome(pending, p) ==> (p in t <==> p in now) && (p in t ==> now[p] == t[p]))
  }

  lemma AgreeLists(t: Tree, now: Tree, base: seq<Path>, dir: Path, entries: seq<Entry>)
    requires Agree(t, now, base + [dir]) && Lists(now, dir, entries)
    ensures Lists(t, dir, entries)
  {
    forall name: string
      ensures dir + [name] in t <==> dir + [name] in now
      ensures dir + [name] in t ==> now[dir + [name]] == t[dir + [name]]
    {
      assert (base + [dir])[|base|] == dir && Below((base + [dir])[|base|], dir + [name]);
    }
  }

  lemma AgreeAfter(t: Tree, now: Tree, base: seq<Path>, dir: Path, pushed: seq<Path>)
    requires Agree(t, now, base + [dir])
    requires forall q :: q in pushed ==> |q| == |dir| + 1 && q[..|dir|] == dir && q in t && t[q].Directory?
    ensures Agree(t, now, base + pushed)
  {
    var all, next, n := base + [dir], base + pushed, |base|;
    forall p | BelowSome(next, p) || p in pushed
      ensures BelowSome(all, p)
    {
      BelowSomeOfTwo(base, pushed, p);
      BelowSomeOfTwo(base, [dir], p);
      BelowSomeOfOne(dir, p);
      BelowPushed(dir, pushed, p);
    }
    forall k | 0 <= k < |next|
      ensures IsDirectory(t, next[k]) <==> IsDirectory(now, next[k])
    {
      assert if k < n then next[k] == all[k] else next[k] in pushed;
    }
  }

  lemma NotBelowChild(dir: Path, child: Path)
    requires |child| == |dir| + 1 && child[..|dir|] == dir
    ensures !Below(child, dir) && forall p :: Below(child, p) ==> Below(dir, p)
  {
    forall p | Below(child, p)
      ensures Below(dir, p)
    {
      BelowSlices(dir, child, p);
    }
  }

  lemma BelowSlices(dir: Path, child: Path, p: Path)
    requires |child| == |dir| + 1 && child[..|dir|] == dir && Below(child, p)
    ensures Below(dir, p)
  {
    assert p[..|dir|] == p[..|child|][..|dir|];
  }

  lemma BelowTransitive(start: Path, dir: Path, name: string)
    requires dir == start || Below(start, dir)
    ensures Below(start, dir + [name])
  {
  }

  /** A child of the directory on top of the stack is below nothing that is pending. */
  lemma NotBelowPending(base: seq<Path>, dir: Path, pushed: seq<Path>, name: string)
    requires PendingOk(base + [dir])
    requires forall q :: q in pushed ==> |q| == |dir| + 1 && q[..|dir|] == dir
    ensures !BelowSome(base + pushed, dir + [name])
  {
    var all, next, child := base + [dir], base + pushed, dir + [name];
    assert all[|base|] == dir && forall k :: |base| <= k < |next| ==> next[k] in pushed;
    if k :| 0 <= k < |base| && Below(next[k], child) {
      assert next[k] == all[k] && Unrelated(all[k], dir);
      BelowChild(dir, child, next[k]);
    }
  }

  lemma NothingRead(dir: Path)
    ensures forall files, directories :: Kept([], files, directories) == []
    ensures Pushed(dir, []) == []
  {
  }

  lemma OneMoreEntry(dir: Path, entries: seq<Entry>, i: nat, files: bool, directories: bool)
    requires i < |entries|
    ensures Pushed(dir, entries[..i + 1]) == Pushed(dir, entries[..i]) +
            if !IsDots(entries[i].name) && entries[i].kind.Directory? then [dir + [entries[i].name]] else []
    ensures Kept(entries[..i + 1], files, directories) == Kept(entries[..i], files, directories) +
            if IsKept(entries[i], files, directories) then [entries[i]] else []
  {
    assert entries[..i + 1][..i] == entries[..i];
  }

  lemma AgreeTop(t: Tree, now: Tree, base: seq<Path>, dir: Path)
    requires Agree(t, now, base + [dir])
    ensures WellFormed(now) && (IsDirectory(t, dir) <==> IsDirectory(now, dir))
    ensures Agree(t, now, base)
  {
    assert (base + [dir])[|base|] == dir;
    AgreeAfter(t, now, base, dir, []);
    assert base + [] == base;
  }

  lemma BelowBelow(a: Path, b: Path, c: Path)
    requires Below(a, b) && Below(b, c)
    ensures Below(a, c)
  {
    assert c[..|a|] == c[..|b|][..|a|];
  }

  lemma BelowOrSame(a: Path, d: Path, p: Path)
    requires (d == a || Below(a, d)) && Below(d, p)
    ensures Below(a, p)
  {
    if d != a {
      BelowBelow(a, d, p);
    }
  }

  lemma SubtreeOfSubtree(a: Path, b: Path, c: Path)
    requires InSubtree(a, b) && InSubtree(b, c)
    ensures InSubtree(a, c)
  {
    if a != b && b != c {
      BelowBelow(a, b, c);
    }
  }

  lemma ParentOfChild(dir: Path, child: Path)
    requires |child| == |dir| + 1 && child[..|dir|] == dir
    ensures child != [] && Parent(child) == dir && InSubtree(Parent(child), dir) && Below(dir, child)
  {
  }

  /** Of two directories above a path one is the other, or above it. */
  lemma TwoAbove(a: Path, b: Path, p: Path)
    requires Below(a, p) && Below(b, p)
    ensures a == b || Below(a, b) || Below(b, a)
  {
    if |a| <= |b| {
      assert b[..|a|] == p[..|b|][..|a|];
    } else {
      assert a[..|b|] == p[..|a|][..|b|];
    }
  }

  lemma ParentChain(d: Path, p: Path)
    requires Below(d, p)
    ensures p != [] && InSubtree(d, Parent(p))
  {
    assert Parent(p)[..|d|] == p[..|d|];
  }

  lemma BelowRootChild(d: Path, root: Path, name: string)
    ensures InSubtree(d, root) ==> Below(d, root + [name])
  {
    if Below(d, root) {
      assert (root + [name])[..|d|] == root[..|d|];
    }
  }
}
