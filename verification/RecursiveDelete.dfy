/** Recursive deletion: files are removed while the tree is enumerated, directories
    afterwards, in the reverse order of their discovery. */
module RecursiveDelete {
  import opened FileTrees
  import opened DirectoryStacks
  import opened EnumerationOrder
  import opened FileEnumerators

  /** The tree without everything at and below a path. */
  ghost function Pruned(t: Tree, path: Path): Tree {
    map q | q in t && !InSubtree(path, q) :: t[q]
  }

  /** Entries went missing, but none outside the subtree. */
  ghost predicate OnlyLost(t: Tree, now: Tree, path: Path) {
    && (forall q :: q in now ==> q in t && now[q] == t[q])
    && (forall q :: q in t && !InSubtree(path, q) ==> q in now)
  }

  /** The directories among some paths, in order. */
  function DirectoriesOf(t: Tree, paths: seq<Path>): seq<Path> {
    if paths == [] then []
    else
      var n, p := |paths| - 1, paths[|paths| - 1];
      DirectoriesOf(t, paths[..n]) + if p in t && t[p].Directory? then [p] else []
  }

  lemma {:induction false} DirectoriesOfIs(t: Tree, paths: seq<Path>)
    ensures forall p :: p in DirectoriesOf(t, paths) <==> p in paths && p in t && t[p].Directory?
    ensures DistinctPaths(paths) ==> DistinctPaths(DirectoriesOf(t, paths))
  {
    if paths != [] {
      var n, p := |paths| - 1, paths[|paths| - 1];
      DirectoriesOfIs(t, paths[..n]);
      assert paths == paths[..n] + [p];
      assert DistinctPaths(paths) ==> DistinctPaths(paths[..n]) && p !in paths[..n];
    }
  }

  /** Path comes first, and every other directory comes after the one it is in. */
  ghost predicate ParentsFirst(path: Path, dirs: seq<Path>) {
    && dirs != [] && dirs[0] == path && DistinctPaths(dirs)
    && forall k :: 0 < k < |dirs| ==> dirs[k] != [] && Parent(dirs[k]) in dirs[..k]
  }

  lemma ParentsFirstAppend(path: Path, dirs: seq<Path>, p: Path)
    requires ParentsFirst(path, dirs) && p !in dirs && p != [] && Parent(p) in dirs
    ensures ParentsFirst(path, dirs + [p])
  {
    var more := dirs + [p];
    forall k | 0 < k < |more|
      ensures more[k] != [] && Parent(more[k]) in more[..k]
    {
      assert more[..k] == if k < |dirs| then dirs[..k] else dirs;
    }
  }

  lemma DirectoriesFirstPrefix(path: Path, paths: seq<Path>)
    requires paths != [] && DirectoriesFirst(path, paths) && DistinctPaths(paths)
    ensures var n := |paths| - 1;
            && DirectoriesFirst(path, paths[..n]) && DistinctPaths(paths[..n])
            && paths[n] != [] && (Parent(paths[n]) == path || Parent(paths[n]) in paths[..n]) && paths[n] !in paths[..n]
  {
    var n := |paths| - 1;
    assert forall k :: 0 <= k <= n ==> paths[..n][..k] == paths[..k];
  }

  lemma {:induction false} StackIsParentsFirst(t: Tree, path: Path, paths: seq<Path>)
    requires WellFormed(t) && DistinctPaths(paths) && DirectoriesFirst(path, paths)
    requires forall p :: p in paths ==> p in t && Below(path, p)
    ensures ParentsFirst(path, [path] + DirectoriesOf(t, paths))
  {
    hide DirectoriesFirst, DistinctPaths, ParentsFirst, DirectoriesOf, WellFormed;
    DirectoriesOfLast(t, paths);
    if paths == [] {
      OnlyPath(path);
    } else {
      var n, p := |paths| - 1, paths[|paths| - 1];
      DirectoriesFirstPrefix(path, paths);
      StackIsParentsFirst(t, path, paths[..n]);
      DirectoriesOfIs(t, paths[..n]);
      var before := [path] + DirectoriesOf(t, paths[..n]);
      if t[p].Directory? {
        ParentIsDirectory(t, p);
        ParentsFirstAppend(path, before, p);
        assert before + [p] == [path] + DirectoriesOf(t, paths);
      } else {
        assert before == [path] + DirectoriesOf(t, paths);
      }
    }
  }

  lemma ParentIsDirectory(t: Tree, p: Path)
    requires WellFormed(t) && p in t && p != []
    ensures Parent(p) in t && t[Parent(p)].Directory?
  {
  }

  lemma DirectoriesOfLast(t: Tree, paths: seq<Path>)
    ensures paths == [] ==> DirectoriesOf(t, paths) == []
    ensures paths != [] ==> var n, p := |paths| - 1, paths[|paths| - 1];
              DirectoriesOf(t, paths) == DirectoriesOf(t, paths[..n]) + if p in t && t[p].Directory? then [p] else []
  {
  }

  lemma OnlyPath(path: Path)
    ensures ParentsFirst(path, [path] + [])
  {
  }

  /** The tree after the files among `gone` and the directories in `removed` went. */
  ghost predicate Swept(t: Tree, now: Tree, gone: seq<Path>, removed: seq<Path>) {
    && (forall q :: q in now <==> q in t && !(q in gone && t[q].File?) && q !in removed)
    && (forall q :: q in now ==> now[q] == t[q])
  }

  lemma WellFormedWithoutFile(now: Tree, p: Path)
    requires WellFormed(now) && p in now && now[p].File?
    ensures WellFormed(now - {p})
  {
  }

  lemma UnlinkKeepsAgree(t: Tree, now: Tree, pending: seq<Path>, p: Path)
    requires Agree(t, now, pending) && p in now && now[p].File? && !BelowSome(pending, p)
    ensures Agree(t, now - {p}, pending)
  {
    hide WellFormed, BelowSome;
    WellFormedWithoutFile(now, p);
  }

  /** No directory on the stack is in one that is at or above its place. */
  lemma ParentIsLower(path: Path, dirs: seq<Path>, j: nat, k: nat)
    requires ParentsFirst(path, dirs) && 0 < j <= k < |dirs|
    ensures Parent(dirs[j]) != dirs[k]
  {
    var i :| 0 <= i < j && dirs[..j][i] == Parent(dirs[j]);
    assert dirs[i] == Parent(dirs[j]);
  }

  lemma StillOnStack(path: Path, dirs: seq<Path>, k: nat, q: Path)
    requires ParentsFirst(path, dirs) && k < |dirs| && q in dirs && q != path && q !in dirs[k + 1..]
    ensures Parent(q) != dirs[k]
  {
    forall i | k < i < |dirs|
      ensures dirs[i] in dirs[k + 1..]
    {
      assert dirs[k + 1..][i - k - 1] == dirs[i];
    }
    var j :| 0 <= j < |dirs| && dirs[j] == q;
    ParentIsLower(path, dirs, j, k);
  }

  lemma ChildOfBelow(path: Path, q: Path)
    ensures q != [] && InSubtree(path, Parent(q)) ==> Below(path, q)
  {
    if q != [] && InSubtree(path, Parent(q)) {
      assert q[..|path|] == Parent(q)[..|path|];
    }
  }

  /** When its turn comes, a directory on the stack is empty. */
  lemma TopIsEmpty(t: Tree, now: Tree, path: Path, done: seq<Path>, dirs: seq<Path>, k: nat)
    requires ParentsFirst(path, dirs) && k < |dirs|
    requires Swept(t, now, done, dirs[k + 1..])
    requires forall q :: q in dirs <==> q in t && t[q].Directory? && (q == path || q in done)
    requires forall q :: q in t && Below(path, q) <==> q in done
    ensures IsEmptyDirectory(now, dirs[k])
  {
    var d := dirs[k];
    assert d in dirs && d !in dirs[k + 1..];
    forall q | q in now && q != []
      ensures Parent(q) != d
    {
      ChildOfBelow(path, q);
      if Below(path, q) {
        StillOnStack(path, dirs, k, q);
      }
    }
  }

  /** A path that was returned is not below a directory still to be read. */
  lemma NotPending(e: FileEnumerator, p: Path)
    requires e.Valid() && p in e.done && p in e.tree && e.wantFiles && e.wantDirectories
    ensures !BelowSome(e.pendingPaths, p)
  {
    hide Agree, WellFormed, BelowSome, Scan.OrderOk, PendingOk;
  }

  lemma WellFormedNow(e: FileEnumerator)
    requires e.Valid()
    ensures WellFormed(e.fs.nodes)
  {
  }

  lemma SweptOne(t: Tree, now: Tree, done: seq<Path>, p: Path)
    requires Swept(t, now, done, []) && p in t && p !in done
    ensures t[p].File? ==> p in now && now[p].File? && Swept(t, now - {p}, done + [p], [])
    ensures t[p].Directory? ==> Swept(t, now, done + [p], [])
  {
  }

  lemma SweptNone(t: Tree)
    ensures Swept(t, t, [], [])
  {
  }

  lemma DirectoriesOfOneMore(t: Tree, done: seq<Path>, p: Path)
    requires p in t
    ensures DirectoriesOf(t, done + [p]) == DirectoriesOf(t, done) + if t[p].Directory? then [p] else []
  {
    assert (done + [p])[..|done|] == done;
  }

  lemma LastIsNew(paths: seq<Path>, p: Path)
    requires DistinctPaths(paths + [p])
    ensures p !in paths
  {
    assert forall k :: 0 <= k < |paths| ==> (paths + [p])[k] == paths[k] && (paths + [p])[|paths|] == p;
  }

  lemma NoneToCome(all: set<Path>, done: seq<Path>, todo: set<Path>, start: Path, ordered: bool, complete: bool)
    requires Halfway(all, done, todo, start, ordered, complete) && (complete ==> todo == {})
    ensures Halfway(all, done, {}, start, ordered, complete)
  {
  }

  lemma HalfwayDistinct(all: set<Path>, done: seq<Path>, todo: set<Path>, start: Path, ordered: bool, complete: bool)
    requires Halfway(all, done, todo, start, ordered, complete)
    ensures DistinctPaths(done)
  {
  }

  /** The first loop: unlinks the files below a directory as they are enumerated and
      stacks its directories. `done` is what was enumerated and dealt with. */
  method DeleteFiles(fs: FileSystem, path: Path) returns (success: bool, directories: seq<Path>, ghost done: seq<Path>)
    requires WellFormed(fs.nodes) && IsDirectory(fs.nodes, path)
    modifies fs`nodes
    ensures WellFormed(fs.nodes) && Swept(old(fs.nodes), fs.nodes, done, [])
    ensures forall p :: p in done ==> p in old(fs.nodes) && Below(path, p)
    ensures success ==> ParentsFirst(path, directories) && directories == [path] + DirectoriesOf(old(fs.nodes), done)
    ensures fs.reliable ==> success && forall p :: p in old(fs.nodes) && Below(path, p) ==> p in done
  {
    hide Agree, Scan.Ok, Scan.Todo, Swept, WellFormed, Halfway, DirectoriesOf, ParentsFirst, DistinctPaths, DirectoriesFirst,
         BelowSome, FileEnumerator.Todo, FileEnumerator.From, OneBlock, Walk, Scan.Follows;
    ghost var t := fs.nodes;
    success, directories, done := true, [path], [];
    var traversal := new FileEnumerator(fs, path, true, true);
    ghost var all := traversal.Todo();
    NoneReturned(all, path, true, fs.reliable);
    SweptNone(t);
    DirectoriesOfLast(t, []);
    var current := traversal.Next();
    if current.Some? {
      OneMoreReturned(all, [], all, path, true, fs.reliable, current.value, traversal.Todo());
    } else {
      NoneToCome(all, [], all, path, true, fs.reliable);
    }
    while success && current.Some?
      invariant traversal.Valid() && traversal.fs == fs && traversal.start == path && traversal.tree == t
      invariant fresh(traversal) && traversal.wantFiles && traversal.wantDirectories
      invariant success ==> Halfway(all, traversal.done, traversal.Todo(), path, true, fs.reliable)
      invariant success && current.None? ==> traversal.done == done && traversal.Todo() == {}
      invariant success && current.Some? ==> traversal.done == done + [current.value]
      invariant success && current.Some? ==> current.value in t && Below(path, current.value)
      invariant success && current.Some? ==> traversal.currentDirectoryEntry < |traversal.directoryEntries|
      invariant success && current.Some? ==>
                  t[current.value] == traversal.directoryEntries[traversal.currentDirectoryEntry].kind
      invariant fs.reliable ==> success
      invariant forall p :: p in done ==> p in t && Below(path, p)
      invariant Swept(t, fs.nodes, done, [])
      invariant success ==> directories == [path] + DirectoriesOf(t, done)
      decreases traversal.Todo(), if current.Some? then 1 else 0
    {
      var p := current.value;
      ghost var n, todo := |done|, traversal.Todo();
      HalfwayDistinct(all, traversal.done, todo, path, true, fs.reliable);
      LastIsNew(done, p);
      SweptOne(t, fs.nodes, done, p);
      DirectoriesOfOneMore(t, done, p);
      var isDirectory := traversal.CurrentIsDirectory();
      if isDirectory {
        directories := directories + [p];
      } else {
        NotPending(traversal, p);
        UnlinkKeepsAgree(t, fs.nodes, traversal.pendingPaths, p);
        success := fs.Unlink(p);
      }
      if success {
        done := done + [p];
      }
      assert traversal.Valid();
      assert success ==> directories == [path] + DirectoriesOf(t, done);
      ghost var soFar := traversal.done;
      current := traversal.Next();
      if success {
        if current.Some? {
          OneMoreReturned(all, soFar, todo, path, true, fs.reliable, current.value, traversal.Todo());
        } else {
          NoneToCome(all, soFar, todo, path, true, fs.reliable);
        }
      }
    }
    if success {
      OnlyNoneLeft(all, done, {}, path, true, fs.reliable);
      StackIsParentsFirst(t, path, done);
    }
    WellFormedNow(traversal);
  }

  lemma SweptTop(t: Tree, now: Tree, done: seq<Path>, dirs: seq<Path>, k: nat)
    requires k < |dirs| && Swept(t, now, done, dirs[k + 1..]) && WellFormed(now) && IsEmptyDirectory(now, dirs[k])
    ensures Swept(t, now - {dirs[k]}, done, dirs[k..]) && WellFormed(now - {dirs[k]})
  {
    assert dirs[k..] == [dirs[k]] + dirs[k + 1..];
  }

  /** What is stacked, and that the enumeration saw everything. */
  ghost predicate Complete(t: Tree, path: Path, done: seq<Path>, dirs: seq<Path>) {
    && (forall q :: q in dirs <==> q in t && t[q].Directory? && (q == path || q in done))
    && (forall q :: q in t && Below(path, q) <==> q in done)
  }

  /** The second loop: removes the stacked directories, last found first. If the
      enumeration was complete, each of them is empty when its turn comes. */
  method RemoveDirectories(fs: FileSystem, path: Path, stacked: seq<Path>, ghost t: Tree, ghost done: seq<Path>)
    returns (success: bool, ghost left: nat)
    requires WellFormed(fs.nodes) && ParentsFirst(path, stacked) && Swept(t, fs.nodes, done, [])
    modifies fs`nodes
    ensures left <= |stacked| && Swept(t, fs.nodes, done, stacked[left..]) && WellFormed(fs.nodes)
    ensures success ==> left == 0
    ensures fs.reliable && Complete(t, path, done, stacked) ==> success
  {
    hide Swept, WellFormed, ParentsFirst, Complete, IsEmptyDirectory;
    var directories := stacked;
    success, left := true, |stacked|;
    assert stacked[left..] == [];
    while success && directories != []
      invariant left <= |stacked| && directories == stacked[..if success then left else |directories|]
      invariant success ==> |directories| == left
      invariant Swept(t, fs.nodes, done, stacked[left..]) && WellFormed(fs.nodes)
      invariant fs.reliable && Complete(t, path, done, stacked) ==> success
      decreases |directories|
    {
      var dir := directories[|directories| - 1];
      directories := directories[..|directories| - 1];
      ghost var k := left - 1;
      if Complete(t, path, done, stacked) {
        CompleteTop(t, fs.nodes, path, done, stacked, k);
      }
      ghost var before := fs.nodes;
      success := fs.Rmdir(dir);
      if success {
        SweptTop(t, before, done, stacked, k);
        left := k;
      }
    }
  }

  lemma CompleteTop(t: Tree, now: Tree, path: Path, done: seq<Path>, dirs: seq<Path>, k: nat)
    requires ParentsFirst(path, dirs) && k < |dirs| && Complete(t, path, done, dirs)
    requires Swept(t, now, done, dirs[k + 1..])
    ensures IsEmptyDirectory(now, dirs[k])
  {
    TopIsEmpty(t, now, path, done, dirs, k);
  }

  lemma DeletionIsComplete(t: Tree, path: Path, done: seq<Path>, dirs: seq<Path>)
    requires IsDirectory(t, path) && dirs == [path] + DirectoriesOf(t, done)
    requires forall p :: p in done ==> p in t && Below(path, p)
    requires forall p :: p in t && Below(path, p) ==> p in done
    ensures Complete(t, path, done, dirs)
  {
    DirectoriesOfIs(t, done);
  }

  lemma SweptOnlyLost(t: Tree, now: Tree, path: Path, done: seq<Path>, removed: seq<Path>)
    requires Swept(t, now, done, removed)
    requires forall p :: p in done ==> InSubtree(path, p)
    requires forall p :: p in removed ==> InSubtree(path, p)
    ensures OnlyLost(t, now, path)
  {
  }

  lemma StackIsInSubtree(t: Tree, path: Path, done: seq<Path>)
    requires forall p :: p in done ==> Below(path, p)
    ensures forall p :: p in [path] + DirectoriesOf(t, done) ==> InSubtree(path, p)
  {
    DirectoriesOfIs(t, done);
  }

  /** Without the directory itself, nothing can be left below it. */
  lemma NothingRemains(t: Tree, now: Tree, path: Path)
    requires OnlyLost(t, now, path) && WellFormed(now) && path !in now
    ensures now == Pruned(t, path)
  {
    forall q | q in now
      ensures !Below(path, q)
    {
      if Below(path, q) {
        var _ := StepTowards(now, path, q);
      }
    }
  }

  lemma UnlinkedOrRemoved(t: Tree, path: Path)
    requires WellFormed(t) && path in t && (t[path].File? || IsEmptyDirectory(t, path))
    ensures WellFormed(t - {path}) && OnlyLost(t, t - {path}, path)
  {
  }

  /** Deletes a path. Nothing outside of it is ever lost, success means that nothing of
      it is left, and unless a call fails without a reason, only the plain deletion of a
      nonempty directory fails. */
  method Delete(fs: FileSystem, path: Path, recursive: bool) returns (success: bool)
    requires WellFormed(fs.nodes)
    modifies fs`nodes
    ensures WellFormed(fs.nodes) && OnlyLost(old(fs.nodes), fs.nodes, path)
    ensures success ==> fs.nodes == Pruned(old(fs.nodes), path)
    ensures !success && (!recursive || !IsDirectory(old(fs.nodes), path)) ==> fs.nodes == old(fs.nodes)
    ensures fs.reliable ==>
              (success <==> recursive || !IsDirectory(old(fs.nodes), path) || IsEmptyDirectory(old(fs.nodes), path))
    // nothing changes, and outside the path nothing is lost; success leaves nothing of the path
    ensures forall q :: q in fs.nodes ==> q in old(fs.nodes) && fs.nodes[q] == old(fs.nodes)[q]
    ensures forall q :: q in old(fs.nodes) && !(path <= q) ==> q in fs.nodes
    ensures success ==> forall q :: q in fs.nodes ==> !(path <= q)
    // without failing calls, only a directory with something in it can be in the way
    ensures fs.reliable ==> (success <==> recursive || path !in old(fs.nodes) || old(fs.nodes)[path].File? ||
                                          forall q :: q in old(fs.nodes) && path <= q ==> q == path)
  {
    PlainTerms(fs.nodes, path);
    hide WellFormed, OnlyLost, Pruned, Swept, ParentsFirst, Complete, IsEmptyDirectory, DirectoriesOf, Below;
    ghost var t := fs.nodes;
    NothingLost(t, path);
    var info := fs.Stat(path);
    if !info.Found? {
      if info.NotFound? {
        NothingRemains(t, t, path);
      }
      return info.NotFound?;
    }
    if info.kind.File? {
      UnlinkedOrRemoved(t, path);
      success := fs.Unlink(path);
      if success {
        NothingRemains(t, fs.nodes, path);
      }
      return;
    }
    if !recursive {
      success := fs.Rmdir(path);
      if success {
        UnlinkedOrRemoved(t, path);
        NothingRemains(t, fs.nodes, path);
      }
      return;
    }
    var directories;
    ghost var done;
    success, directories, done := DeleteFiles(fs, path);
    InSubtreeOfBelow(path, done);
    SweptOnlyLost(t, fs.nodes, path, done, []);
    if success {
      if fs.reliable {
        DeletionIsComplete(t, path, done, directories);
      }
      StackIsInSubtree(t, path, done);
      ghost var left;
      success, left := RemoveDirectories(fs, path, directories, t, done);
      SweptOnlyLost(t, fs.nodes, path, done, directories[left..]);
      if success {
        FirstIsGone(t, fs.nodes, path, done, directories);
        NothingRemains(t, fs.nodes, path);
      }
    }
  }

  /** What Delete is about, in terms of prefixes. */
  lemma PlainTerms(t: Tree, path: Path)
    requires WellFormed(t)
    ensures forall q :: InSubtree(path, q) <==> path <= q
    ensures IsDirectory(t, path) <==> path in t && t[path].Directory?
    ensures IsDirectory(t, path) ==> (IsEmptyDirectory(t, path) <==> forall q :: q in t && path <= q ==> q == path)
  {
    hide WellFormed, Below;
    forall q: Path
      ensures InSubtree(path, q) <==> path <= q
    {
      BelowIsProperPrefix(path, q);
    }
    if IsDirectory(t, path) && IsEmptyDirectory(t, path) {
      forall q | q in t && path <= q
        ensures q == path
      {
        if q != path {
          BelowIsProperPrefix(path, q);
          var _ := StepTowards(t, path, q);
        }
      }
    }
    forall q | q in t && q != [] && Parent(q) == path
      ensures path <= q != path
    {
    }
  }

  lemma NothingLost(t: Tree, path: Path)
    ensures OnlyLost(t, t, path)
  {
  }

  lemma InSubtreeOfBelow(path: Path, done: seq<Path>)
    requires forall p :: p in done ==> Below(path, p)
    ensures forall p :: p in done ==> InSubtree(path, p)
  {
  }

  lemma FirstIsGone(t: Tree, now: Tree, path: Path, done: seq<Path>, dirs: seq<Path>)
    requires ParentsFirst(path, dirs) && Swept(t, now, done, dirs[0..])
    ensures path !in now
  {
    assert dirs[0..][0] == path;
  }

  /** In the tree a/x/f, b/y/g a directory with something in it stays, unless it is deleted
      recursively. */
  method DeleteDirectory(fs: FileSystem) returns (plain: bool, recursive: bool)
    requires fs.reliable && fs.nodes == CrossingTree()
    modifies fs`nodes
    ensures !plain && recursive
    ensures ["a"] !in fs.nodes && ["a", "x"] !in fs.nodes && ["a", "x", "f"] !in fs.nodes
    ensures ["b"] in fs.nodes && ["b", "y"] in fs.nodes && ["b", "y", "g"] in fs.nodes
  {
    hide CrossingTree, WellFormed, OnlyLost, Pruned, IsEmptyDirectory, Below, InSubtree, Complete;
    CrossingTreeIs();
    CrossingTreeHas();
    Prefixes();
    plain := Delete(fs, ["a"], false);
    recursive := Delete(fs, ["a"], true);
  }

  /** A file goes, and nothing need be there. */
  method DeleteFile(fs: FileSystem) returns (file: bool, missing: bool)
    requires fs.reliable && fs.nodes == CrossingTree()
    modifies fs`nodes
    ensures file && missing
    ensures ["b", "y", "g"] !in fs.nodes && ["b", "y"] in fs.nodes && ["a", "x", "f"] in fs.nodes
  {
    hide CrossingTree, WellFormed, OnlyLost, Pruned, IsEmptyDirectory, Below, InSubtree, Complete;
    CrossingTreeIs();
    CrossingTreeHas();
    Prefixes();
    file := Delete(fs, ["b", "y", "g"], false);
    missing := Delete(fs, ["c"], false);
  }

  lemma Prefixes()
    ensures ["a"] <= ["a", "x"] && ["a"] <= ["a", "x", "f"] && ["a"] != ["a", "x"]
    ensures !(["a"] <= ["b"]) && !(["a"] <= ["b", "y"]) && !(["a"] <= ["b", "y", "g"])
    ensures !(["b", "y", "g"] <= ["b", "y"]) && !(["b", "y", "g"] <= ["a", "x", "f"])
    ensures !(["c"] <= ["b", "y"]) && !(["c"] <= ["a", "x", "f"])
  {
    assert "a" != "b" && "a" != "c" && "b" != "c";
    OtherTop("b", "a", ["b"]);
    OtherTop("b", "a", ["b", "y"]);
    OtherTop("b", "a", ["b", "y", "g"]);
    OtherTop("b", "c", ["b", "y"]);
    OtherTop("a", "c", ["a", "x", "f"]);
  }
}
