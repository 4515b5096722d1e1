/** The recursive file enumerator: it reads the directories of a stack one after the other. */
module FileEnumerators {
  import opened Prelude
  import opened FileTrees
  import opened DirectoryStacks
  import opened EnumerationOrder

  // ---------- The state of an enumeration ----------

  /** The tree at the start of the enumeration, what is requested, the directory being
      listed with its entries not yet returned, the stack, and what was returned. */
  datatype Scan = Scan(tree: Tree, start: Path, files: bool, directories: bool,
                       root: Path, rest: seq<Entry>, pending: seq<Path>, done: seq<Path>)
  {
    /** The scan after the directory on top of the stack was read, or could not be read. */
    ghost function Read(base: seq<Path>, dir: Path, ok: bool, entries: seq<Entry>): Scan {
      if ok then this.(root := dir, rest := Kept(entries, files, directories), pending := base + Pushed(dir, entries))
      else this.(root := dir, pending := base)
    }

    ghost function Todo(): set<Path> {
      Deep(tree, pending, files, directories) + Near(root, rest)
    }

    /** An entry that was read but not yet returned. */
    ghost predicate EntryOk(e: Entry) {
      var p := root + [e.name];
      && p in tree && tree[p] == e.kind && Wanted(e.kind, files, directories)
      && Below(start, p) && !BelowSome(pending, p)
    }

    /** Everything comes from below the start, and out of a directory that was returned
        before, if directories are returned at all. */
    ghost predicate OrderOk() {
      && (rest != [] ==> root == start || (directories ==> root in done))
      && (forall k :: 0 <= k < |pending| ==> pending[k] == start || Below(start, pending[k]))
      && (forall k :: 0 <= k < |pending| && directories ==>
            pending[k] == start || pending[k] in done || pending[k] in Near(root, rest))
    }

    /** Nothing that was returned lies deeper than a directory that is still to be read. */
    ghost predicate DepthOk() {
      && (forall p :: p in done ==> p != [])
      && (forall p, k :: p in done && p != [] && 0 <= k < |pending| ==> !Below(pending[k], Parent(p)))
      && (rest != [] ==> forall p :: p in done && p != [] ==> !Below(root, Parent(p)))
      && (rest != [] ==> forall k :: 0 <= k < |pending| ==> !Below(pending[k], root))
    }

    /** The stack is nested: what is above another directory on it lies below that one's parent;
        and nothing that was returned lies below any of them. */
    ghost predicate NestOk() {
      && (forall p, k :: p in done && 0 <= k < |pending| ==> !Below(pending[k], p))
      && NestedStack(pending)
      && (rest != [] ==> forall j :: 0 <= j < |pending| ==> pending[j] != [] && InSubtree(Parent(pending[j]), root))
    }

    /** Once something below a directory was returned, nothing else is returned before all
        of it is. */
    ghost predicate OpenOk() {
      forall d: Path, i, j, x :: 0 <= i <= j < |done| && Below(d, done[i]) && x in Todo() && Below(d, x) ==> Below(d, done[j])
    }

    ghost predicate BlockOk() {
      OneBlock(done) && OpenOk() && NestOk()
    }

    ghost predicate Ok() {
      && WellFormed(tree) && PendingOk(pending) && DistinctNames(rest)
      && (forall k :: 0 <= k < |rest| ==> EntryOk(rest[k]))
      && (forall p :: p in done ==> p !in Todo())
      && OrderOk() && DepthOk() && BlockOk()
    }

    lemma OpenAfter(s: Scan)
      requires OpenOk() && s.done == done && s.Todo() <= Todo()
      ensures s.OpenOk()
    {
      hide Todo, Below;
    }

    lemma NestAfterFail(base: seq<Path>, dir: Path)
      requires NestOk() && rest == [] && pending == base + [dir]
      ensures this.(root := dir, pending := base).NestOk()
    {
      hide Below, InSubtree, NestedStack;
      assert forall k :: 0 <= k < |base| ==> base[k] == pending[k];
      NestedPrefix(base, dir);
    }

    lemma NestAfterRead(base: seq<Path>, dir: Path, entries: seq<Entry>)
      requires NestOk() && rest == [] && pending == base + [dir] && Lists(tree, dir, entries)
      ensures this.(root := dir, rest := Kept(entries, files, directories), pending := base + Pushed(dir, entries)).NestOk()
    {
      hide Kept, Pushed, Below, Lists;
      var pushed := Pushed(dir, entries);
      var next, n := base + pushed, |base|;
      PushedInTree(tree, dir, entries);
      assert pending[n] == dir;
      forall k | 0 <= k < |next|
        ensures next[k] != [] && InSubtree(Parent(next[k]), dir)
      {
        if k < n {
          assert next[k] == pending[k];
        } else {
          assert next[k] in pushed;
          ParentOfChild(dir, next[k]);
        }
      }
      forall k | 0 <= k < |next|
        ensures forall p :: p in done ==> !Below(next[k], p)
        ensures forall j :: 0 <= j < k ==> Inside(next[j], next[k])
      {
        if k < n {
          assert next[k] == pending[k] && forall j :: 0 <= j < k ==> next[j] == pending[j];
        } else {
          assert next[k] in pushed;
          NotBelowChild(dir, next[k]);
          ParentOfChild(dir, next[k]);
          forall j | 0 <= j < k
            ensures Inside(next[j], next[k])
          {
            if j < n {
              assert next[j] == pending[j];
              BelowBelow(Parent(next[j]), dir, next[k]);
            } else {
              assert next[j] in pushed;
              ParentOfChild(dir, next[j]);
            }
          }
        }
      }
    }

    /** The next entry lies below every directory that something was returned from below of,
        and from below of which something is still to come. */
    lemma NextIsInside(d: Path, i: nat, x: Path)
      requires NestOk() && rest != [] && i < |done| && Below(d, done[i]) && x in Todo() && Below(d, x)
      ensures Below(d, root + [rest[0].name])
    {
      hide Below, BelowSome;
      ChildPath(root, rest[0].name);
      if x in Near(root, rest) {
        var n :| 0 <= n < |rest| && x == root + [rest[n].name];
        ChildPath(root, rest[n].name);
        BelowChild(root, x, d);
      } else {
        var k := PendingAbove(x);
        TwoAbove(d, pending[k], x);
        if d == pending[k] || Below(pending[k], d) {
          assert done[i] in done && !Below(pending[k], done[i]);
          BelowOrSame(pending[k], d, done[i]);
        } else {
          ParentChain(d, pending[k]);
          SubtreeOfSubtree(d, Parent(pending[k]), root);
        }
      }
      BelowRootChild(d, root, rest[0].name);
    }

    lemma PendingAbove(x: Path) returns (k: nat)
      requires x in Deep(tree, pending, files, directories)
      ensures k < |pending| && Below(pending[k], x)
    {
      k :| k < |pending| && Below(pending[k], x);
    }

    lemma BlockAfterReturn()
      requires Ok() && rest != []
      ensures var p := root + [rest[0].name];
              var s := this.(rest := rest[1..], done := done + [p]);
              s.Todo() <= Todo() ==> s.BlockOk()
    {
      hide Below, OneBlock, Todo, WellFormed, PendingOk, OrderOk, DepthOk;
      var p := root + [rest[0].name];
      var s := this.(rest := rest[1..], done := done + [p]);
      if s.Todo() <= Todo() {
        assert EntryOk(rest[0]);
        PendingNotAbove(p);
        forall d: Path, i, j, x | 0 <= i <= j < |s.done| && Below(d, s.done[i]) && x in s.Todo() && Below(d, x)
          ensures Below(d, s.done[j])
        {
          if j == |done| && i < j {
            NextIsInside(d, i, x);
          }
        }
        NextIsTodo();
        forall d: Path, i | 0 <= i < |done| && Below(d, done[i]) && Below(d, p)
          ensures forall j :: i < j < |done| ==> Below(d, done[j])
        {
        }
        OneBlockAppend(done, p);
      }
    }

    lemma NextIsTodo()
      requires rest != []
      ensures root + [rest[0].name] in Todo()
    {
      assert root + [rest[0].name] in Near(root, rest);
    }

    lemma PendingNotAbove(p: Path)
      requires !BelowSome(pending, p)
      ensures forall k :: 0 <= k < |pending| ==> !Below(pending[k], p)
    {
    }

    lemma DepthAfterFail(base: seq<Path>, dir: Path)
      requires Ok() && rest == [] && pending == base + [dir]
      ensures this.(root := dir, pending := base).DepthOk()
    {
      hide BlockOk, Todo, EntryOk, OrderOk, PendingOk, Below;
      assert forall k :: 0 <= k < |base| ==> base[k] == pending[k];
    }

    lemma DepthAfterRead(base: seq<Path>, dir: Path, entries: seq<Entry>)
      requires Ok() && rest == [] && pending == base + [dir] && Lists(tree, dir, entries)
      ensures this.(root := dir, rest := Kept(entries, files, directories), pending := base + Pushed(dir, entries)).DepthOk()
    {
      hide BlockOk, Kept, Pushed, Todo, EntryOk, OrderOk, WellFormed;
      var pushed := Pushed(dir, entries);
      var next := base + pushed;
      PushedIs(dir, entries);
      assert pending[|base|] == dir;
      forall k | 0 <= k < |next|
        ensures !Below(next[k], dir)
        ensures forall p :: p in done && p != [] ==> !Below(next[k], Parent(p))
      {
        if k < |base| {
          assert next[k] == pending[k] && Unrelated(pending[k], pending[|base|]);
        } else {
          assert next[k] in pushed;
          NotBelowChild(dir, next[k]);
        }
      }
    }

    lemma DepthAfterReturn()
      requires Ok() && rest != []
      ensures this.(rest := rest[1..], done := done + [root + [rest[0].name]]).DepthOk()
    {
      hide BlockOk, Todo, EntryOk, OrderOk, PendingOk, WellFormed, Near;
      var p := root + [rest[0].name];
      assert Parent(p) == root && !Below(root, root);
    }

    /** What was returned, and what is still to come, are the walk for every listing in which
        the directories read so far list their entries as they did. */
    ghost predicate Follows(recorded: Listing) {
      && PendingOk(pending) && PendingOk([start])
      && (forall d :: d in recorded ==> IsDirectory(tree, d) && Lists(tree, d, recorded[d]))
      && (forall d, k :: d in recorded && 0 <= k < |pending| ==> !InSubtree(pending[k], d))
      && (forall listing :: IsListing(tree, listing) && Extends(listing, recorded) ==> Matches(listing))
    }

    ghost predicate Matches(listing: Listing)
      requires IsListing(tree, listing) && PendingOk(pending) && PendingOk([start])
    {
      Walk(tree, listing, [start], files, directories) ==
      done + PathsOf(root, rest) + Walk(tree, listing, pending, files, directories)
    }

    lemma FollowsFail(recorded: Listing, base: seq<Path>, dir: Path)
      requires Follows(recorded) && rest == [] && pending == base + [dir] && !IsDirectory(tree, dir)
      ensures this.(root := dir, pending := base).Follows(recorded)
    {
      hide Walk, PendingOk, IsListing, Lists, InSubtree, Extends;
      PendingPrefix(base, dir);
      var s := this.(root := dir, pending := base);
      forall listing | IsListing(tree, listing) && Extends(listing, recorded)
        ensures s.Matches(listing)
      {
        assert Matches(listing);
        WalkUnfolds(tree, listing, base, dir, files, directories);
        NothingListed(root, dir);
      }
      assert forall k :: 0 <= k < |base| ==> base[k] == pending[k];
    }

    lemma FollowsRead(recorded: Listing, base: seq<Path>, dir: Path, entries: seq<Entry>)
      requires Follows(recorded) && rest == [] && pending == base + [dir] && IsDirectory(tree, dir) && Lists(tree, dir, entries)
      ensures this.(root := dir, rest := Kept(entries, files, directories), pending := base + Pushed(dir, entries))
              .Follows(recorded[dir := entries])
    {
      hide Walk, PendingOk, IsListing, Lists, Pushed, Kept, InSubtree, Extends;
      var s := this.(root := dir, rest := Kept(entries, files, directories), pending := base + Pushed(dir, entries));
      var now := recorded[dir := entries];
      PushedInTree(tree, dir, entries);
      ReplaceTop(base, dir, Pushed(dir, entries));
      RecordedIsNotPending(recorded, base, dir, Pushed(dir, entries));
      forall listing | IsListing(tree, listing) && Extends(listing, now)
        ensures s.Matches(listing)
      {
        ExtendsLess(listing, recorded, dir, entries);
        assert Matches(listing);
        WalkUnfolds(tree, listing, base, dir, files, directories);
        JoinNothing(done, root, PathsOf(dir, s.rest), Walk(tree, listing, s.pending, files, directories));
      }
    }

    lemma RecordedIsNotPending(recorded: Listing, base: seq<Path>, dir: Path, pushed: seq<Path>)
      requires PendingOk(pending) && pending == base + [dir]
      requires forall d, k :: d in recorded && 0 <= k < |pending| ==> !InSubtree(pending[k], d)
      requires forall q :: q in pushed ==> |q| == |dir| + 1 && q[..|dir|] == dir
      ensures dir !in recorded
      ensures forall d, k :: (d in recorded || d == dir) && 0 <= k < |base + pushed| ==> !InSubtree((base + pushed)[k], d)
    {
      hide Below;
      var next := base + pushed;
      assert pending[|base|] == dir && InSubtree(dir, dir);
      forall d, k | (d in recorded || d == dir) && 0 <= k < |next|
        ensures !InSubtree(next[k], d)
      {
        if k < |base| {
          assert next[k] == pending[k] && Unrelated(pending[k], pending[|base|]);
        } else {
          assert next[k] in pushed;
          NotBelowChild(dir, next[k]);
          assert Below(dir, next[k]) by {
            ParentOfChild(dir, next[k]);
          }
          assert !InSubtree(dir, d) || d == dir;
        }
      }
    }

    lemma FollowsReturn(recorded: Listing)
      requires Follows(recorded) && rest != []
      ensures this.(rest := rest[1..], done := done + [root + [rest[0].name]]).Follows(recorded)
    {
      hide Walk, PendingOk, IsListing, Lists, InSubtree, Extends;
      var s := this.(rest := rest[1..], done := done + [root + [rest[0].name]]);
      forall listing | IsListing(tree, listing) && Extends(listing, recorded)
        ensures s.Matches(listing)
      {
        assert Matches(listing);
        OneLess(done, root, rest, Walk(tree, listing, pending, files, directories));
      }
    }

    /** When nothing is left, what was returned is the walk for some listing. */
    lemma FollowsToTheEnd(recorded: Listing) returns (listing: Listing)
      requires WellFormed(tree) && Follows(recorded) && rest == [] && pending == []
      ensures IsListing(tree, listing) && PendingOk([start])
      ensures done == Walk(tree, listing, [start], files, directories)
    {
      hide Walk, PendingOk, InSubtree, WellFormed, Lists;
      var all := SomeListing(tree);
      listing := map d | d in tree && tree[d].Directory? :: if d in recorded then recorded[d] else all[d];
      assert Matches(listing);
      WalkNothing(tree, listing, files, directories);
      assert done + PathsOf(root, []) + [] == done;
    }

    lemma ReadFails(base: seq<Path>, dir: Path)
      requires Ok() && rest == [] && pending == base + [dir]
      ensures var s := this.(root := dir, pending := base);
              && s.Ok() && s.Todo() <= Todo()
              && (!IsDirectory(tree, dir) ==> s.Todo() == Todo())
              && Unread(tree, base) < Unread(tree, pending)
    {
      hide Ok, Todo, Unread, Deep, IsDirectory;
      ReadFailsTodo(base, dir);
      ReadFailsOk(base, dir);
      PendingIsOk();
      UnreadShrinks(tree, base, dir, []);
      assert base + [] == base;
    }

    lemma PendingIsOk()
      requires Ok()
      ensures PendingOk(pending) && WellFormed(tree)
    {
      hide EntryOk, Todo;
    }

    lemma ReadFailsTodo(base: seq<Path>, dir: Path)
      requires Ok() && rest == [] && pending == base + [dir]
      ensures var s := this.(root := dir, pending := base);
              s.Todo() <= Todo() && (!IsDirectory(tree, dir) ==> s.Todo() == Todo())
    {
      hide Ok, BelowSome;
      PendingIsOk();
      forall p: Path {
        BelowSomeOfTwo(base, [dir], p);
      }
      if !IsDirectory(tree, dir) {
        NothingBelow(tree, base, dir, files, directories);
      }
    }

    lemma ReadFailsOk(base: seq<Path>, dir: Path)
      requires Ok() && rest == [] && pending == base + [dir]
      ensures this.(root := dir, pending := base).Ok()
    {
      hide Todo, EntryOk, IsDirectory, Near, DepthOk, OneBlock, OpenOk, NestOk;
      DepthAfterFail(base, dir);
      ReadFailsTodo(base, dir);
      NestAfterFail(base, dir);
      OpenAfter(this.(root := dir, pending := base));
      NearNothing(root);
      forall k | 0 <= k < |base|
        ensures base[k] == pending[k]
      {
      }
    }

    lemma ReadWorks(base: seq<Path>, dir: Path, entries: seq<Entry>)
      requires Ok() && rest == [] && pending == base + [dir] && Lists(tree, dir, entries)
      ensures var s := this.(root := dir, rest := Kept(entries, files, directories), pending := base + Pushed(dir, entries));
              && s.Ok() && s.Todo() == Todo() && Unread(tree, s.pending) < Unread(tree, pending)
    {
      hide Kept, Pushed, DepthOk, OneBlock, OpenOk, NestOk;
      DepthAfterRead(base, dir, entries);
      NestAfterRead(base, dir, entries);
      PushedInTree(tree, dir, entries);
      ReplaceTop(base, dir, Pushed(dir, entries));
      KeptInTree(tree, dir, entries, files, directories);
      ReadTopKeepsTodo(tree, base, dir, entries, files, directories);
      UnreadShrinks(tree, base, dir, Pushed(dir, entries));
      ReadEntriesOk(base, dir, entries);
      ReadOrderOk(base, dir, entries);
      OpenAfter(this.(root := dir, rest := Kept(entries, files, directories), pending := base + Pushed(dir, entries)));
    }

    lemma AfterReading(now: Tree, recorded: Listing, base: seq<Path>, dir: Path, entries: seq<Entry>, reliable: bool)
      requires Ok() && rest == [] && pending == base + [dir] && Agree(tree, now, pending)
      requires IsDirectory(now, dir) && Lists(now, dir, entries) && (reliable ==> Follows(recorded))
      ensures var s := Read(base, dir, true, entries);
              && s.Ok() && s.Todo() == Todo() && Unread(tree, s.pending) < Unread(tree, pending)
              && Agree(tree, now, s.pending) && (reliable ==> s.Follows(recorded[dir := entries]))
    {
      hide Kept, Pushed, Agree, Lists, Ok, Todo, Follows, Unread;
      AgreeLists(tree, now, base, dir, entries);
      ReadWorks(base, dir, entries);
      PushedInTree(tree, dir, entries);
      AgreeAfter(tree, now, base, dir, Pushed(dir, entries));
      if reliable {
        AgreeTop(tree, now, base, dir);
        FollowsRead(recorded, base, dir, entries);
      }
    }

    lemma AfterFailing(recorded: Listing, base: seq<Path>, dir: Path, reliable: bool)
      requires Ok() && rest == [] && pending == base + [dir]
      requires reliable ==> Follows(recorded) && !IsDirectory(tree, dir)
      ensures var s := this.(root := dir, pending := base);
              && s.Ok() && s.Todo() <= Todo() && (reliable ==> s.Todo() == Todo())
              && Unread(tree, base) < Unread(tree, pending) && (reliable ==> s.Follows(recorded))
    {
      hide Ok, Todo, Follows, Unread, IsDirectory;
      ReadFails(base, dir);
      if reliable {
        FollowsFail(recorded, base, dir);
      }
    }

    lemma ReadEntriesOk(base: seq<Path>, dir: Path, entries: seq<Entry>)
      requires Ok() && rest == [] && pending == base + [dir] && Lists(tree, dir, entries)
      ensures var s := this.(root := dir, rest := Kept(entries, files, directories), pending := base + Pushed(dir, entries));
              forall k :: 0 <= k < |s.rest| ==> s.EntryOk(s.rest[k])
    {
      hide Kept, Pushed;
      var kept, pushed := Kept(entries, files, directories), Pushed(dir, entries);
      PushedInTree(tree, dir, entries);
      KeptInTree(tree, dir, entries, files, directories);
      assert pending[|base|] == dir;
      forall k | 0 <= k < |kept|
        ensures Below(start, dir + [kept[k].name]) && !BelowSome(base + pushed, dir + [kept[k].name])
      {
        NotBelowPending(base, dir, pushed, kept[k].name);
        BelowTransitive(start, dir, kept[k].name);
      }
    }

    lemma ReadOrderOk(base: seq<Path>, dir: Path, entries: seq<Entry>)
      requires Ok() && rest == [] && pending == base + [dir] && Lists(tree, dir, entries)
      ensures this.(root := dir, rest := Kept(entries, files, directories), pending := base + Pushed(dir, entries)).OrderOk()
    {
      hide Kept, Pushed, Near, Todo, PendingOk, EntryOk;
      var kept, pushed := Kept(entries, files, directories), Pushed(dir, entries);
      var next := base + pushed;
      assert pending[|base|] == dir && (directories ==> dir == start || dir in done) by {
        NearNothing(root);
      }
      forall k | 0 <= k < |next|
        ensures next[k] == start || Below(start, next[k])
        ensures directories ==> next[k] == start || next[k] in done || next[k] in Near(dir, kept)
      {
        if k < |base| {
          NearNothing(root);
          assert next[k] == pending[k];
        } else {
          assert next[k] in pushed;
          PushedIsNear(dir, entries, next[k]);
          BelowTransitive(start, dir, next[k][|dir|]);
        }
      }
    }

    lemma NearNothing(dir: Path)
      ensures Near(dir, []) == {}
    {
    }

    lemma PushedIsNear(dir: Path, entries: seq<Entry>, p: Path)
      requires Lists(tree, dir, entries) && p in Pushed(dir, entries)
      ensures |p| == |dir| + 1 && p == dir + [p[|dir|]] && (directories ==> p in Near(dir, Kept(entries, files, directories)))
    {
      hide Kept, Pushed;
      PushedIs(dir, entries);
      KeptIs(entries, files, directories);
      assert directories ==> Entry(p[|dir|], Directory) in Kept(entries, files, directories);
    }

    lemma NearFirst()
      requires rest != [] && DistinctNames(rest)
      ensures Near(root, rest) == Near(root, rest[1..]) + {root + [rest[0].name]}
      ensures root + [rest[0].name] !in Near(root, rest[1..])
    {
      forall k | 0 <= k < |rest|
        ensures root + [rest[k].name] in Near(root, rest[1..]) + {root + [rest[0].name]}
      {
        assert k > 0 ==> rest[k] == rest[1..][k - 1];
      }
      forall k | 0 <= k < |rest[1..]|
        ensures rest[1..][k] == rest[k + 1] && root + [rest[1..][k].name] in Near(root, rest)
        ensures root + [rest[1..][k].name] != root + [rest[0].name]
      {
        assert (root + [rest[k + 1].name])[|root|] == rest[k + 1].name;
        assert (root + [rest[0].name])[|root|] == rest[0].name;
      }
    }

    lemma NoneDeeper()
      requires Ok() && rest != []
      ensures forall d :: d in done ==> d != [] && !Below(root, Parent(d))
    {
      hide BlockOk, Todo, EntryOk, OrderOk, PendingOk, WellFormed, Below;
    }

    /** Returning the next entry that was read. */
    lemma ReturnOne()
      requires Ok() && rest != []
      ensures var p := root + [rest[0].name];
              var s := this.(rest := rest[1..], done := done + [p]);
              && s.Ok() && p in Todo() && p !in done && s.Todo() == Todo() - {p}
              && p in tree && tree[p] == rest[0].kind && Below(start, p)
              && (directories ==> Parent(p) == start || Parent(p) in done)
              && forall d :: d in done ==> d != [] && !Below(Parent(p), Parent(d))
    {
      hide BelowSome, WellFormed, DepthOk, BlockOk;
      DepthAfterReturn();
      BlockAfterReturn();
      NoneDeeper();
      var p := root + [rest[0].name];
      var s := this.(rest := rest[1..], done := done + [p]);
      NearFirst();
      assert EntryOk(rest[0]) && Parent(p) == root;
      forall k | 0 <= k < |s.rest|
        ensures s.EntryOk(s.rest[k])
      {
        assert EntryOk(rest[k + 1]);
      }
      assert s.Todo() == Todo() - {p};
    }
  }

  // ---------- The enumerator ----------

  class FileEnumerator {
    var directoryEntries: seq<Entry>
    var currentDirectoryEntry: nat
    var rootPath: Path
    var pendingPaths: seq<Path>   // the top of the stack is at the end
    const wantFiles: bool
    const wantDirectories: bool
    const fs: FileSystem
    ghost const start: Path
    ghost const tree: Tree        // the file system when the enumeration began
    ghost var done: seq<Path>     // what has been returned
    ghost var listing: Listing    // how the directories read so far list their entries

    /** The enumeration with the entries from index `from` on still to be returned. */
    ghost function From(from: nat): Scan
      reads this
    {
      Scan(tree, start, wantFiles, wantDirectories, rootPath,
           if from <= |directoryEntries| then directoryEntries[from..] else [], pendingPaths, done)
    }

    /** What further calls of Next return. */
    ghost function Todo(): set<Path>
      reads this
    {
      From(currentDirectoryEntry + 1).Todo()
    }

    ghost predicate Valid()
      reads this, fs
    {
      && From(currentDirectoryEntry + 1).Ok() && Agree(tree, fs.nodes, pendingPaths)
      && (fs.reliable ==> From(currentDirectoryEntry + 1).Follows(listing))
    }

    constructor (fs: FileSystem, rootPath: Path, wantFiles: bool, wantDirectories: bool)
      requires WellFormed(fs.nodes)
      ensures Valid() && done == [] && this.fs == fs && start == rootPath && tree == fs.nodes
      ensures this.wantFiles == wantFiles && this.wantDirectories == wantDirectories
      ensures Todo() == set p | p in tree && Wanted(tree[p], wantFiles, wantDirectories) && Below(start, p)
    {
      directoryEntries, currentDirectoryEntry := [], 0;
      this.rootPath, start, tree := rootPath, rootPath, fs.nodes;
      this.fs, this.wantFiles, this.wantDirectories := fs, wantFiles, wantDirectories;
      pendingPaths, done, listing := [rootPath], [], map[];
      new;
      hide Scan.Ok, Scan.Follows, Scan.Todo, Agree, WellFormed;
      StartOfScan(From(currentDirectoryEntry + 1));
    }

    /** Sorts the entries of rootPath into those to return and those to read later. */
    method LoadEntries(entries: seq<Entry>)
      modifies this`directoryEntries, this`currentDirectoryEntry, this`pendingPaths
      ensures directoryEntries == Kept(entries, wantFiles, wantDirectories) && currentDirectoryEntry == 0
      ensures pendingPaths == old(pendingPaths) + Pushed(rootPath, entries)
      // what the flags ask for is kept, and all subdirectories are pushed
      ensures forall e :: e in directoryEntries <==>
                e in entries && e.name != "." && e.name != ".." && (if e.kind == Directory then wantDirectories else wantFiles)
      ensures |old(pendingPaths)| <= |pendingPaths| && forall p :: p in pendingPaths[|old(pendingPaths)|..] <==>
                exists k :: 0 <= k < |entries| && entries[k].kind == Directory && entries[k].name != "." &&
                            entries[k].name != ".." && p == rootPath + [entries[k].name]
    {
      SortedOut(rootPath, entries, wantFiles, wantDirectories);
      hide Kept, Pushed;
      directoryEntries, currentDirectoryEntry := [], 0;
      NothingRead(rootPath);
      ghost var base := pendingPaths;
      var i := 0;
      while i < |entries|
        invariant i <= |entries| && currentDirectoryEntry == 0
        invariant directoryEntries == Kept(entries[..i], wantFiles, wantDirectories)
        invariant pendingPaths == base + Pushed(rootPath, entries[..i])
      {
        OneMoreEntry(rootPath, entries, i, wantFiles, wantDirectories);
        var e := entries[i];
        var fullPath := rootPath + [e.name];
        if !IsDots(e.name) {
          if e.kind.Directory? {
            pendingPaths := pendingPaths + [fullPath];
          }
          if (e.kind.Directory? && wantDirectories) || (!e.kind.Directory? && wantFiles) {
            directoryEntries := directoryEntries + [e];
          }
        }
        i := i + 1;
      }
      assert entries[..i] == entries;
    }

    /** Takes the directory on top of the stack and reads it. */
    method ReadNextDirectory()
      requires From(currentDirectoryEntry).Ok() && Agree(tree, fs.nodes, pendingPaths)
      requires fs.reliable ==> From(currentDirectoryEntry).Follows(listing)
      requires currentDirectoryEntry >= |directoryEntries| && pendingPaths != []
      modifies this`directoryEntries, this`currentDirectoryEntry, this`rootPath, this`pendingPaths, this`listing
      ensures From(currentDirectoryEntry).Ok() && Agree(tree, fs.nodes, pendingPaths)
      ensures fs.reliable ==> From(currentDirectoryEntry).Follows(listing)
      ensures From(currentDirectoryEntry).Todo() <= old(From(currentDirectoryEntry).Todo())
      ensures fs.reliable ==> From(currentDirectoryEntry).Todo() == old(From(currentDirectoryEntry).Todo())
      ensures Unread(tree, pendingPaths) < old(Unread(tree, pendingPaths))
    {
      hide Kept, Pushed, Agree, Lists, Scan.Ok, Scan.Todo, Scan.Follows, Unread, WellFormed;
      ghost var before := From(currentDirectoryEntry);
      ghost var base, dir := pendingPaths[..|pendingPaths| - 1], pendingPaths[|pendingPaths| - 1];
      assert pendingPaths == base + [dir];
      rootPath := pendingPaths[|pendingPaths| - 1];
      pendingPaths := pendingPaths[..|pendingPaths| - 1];
      AgreeTop(tree, fs.nodes, base, dir);
      var ok, entries := fs.ReadDirectory(rootPath);
      if ok {
        before.AfterReading(fs.nodes, listing, base, dir, entries, fs.reliable);
        LoadEntries(entries);
        listing := listing[dir := entries];
      } else {
        before.AfterFailing(listing, base, dir, fs.reliable);
      }
      assert From(currentDirectoryEntry) == before.Read(base, dir, ok, entries);
    }

    /** The next path, or None when there are no more results. Each wanted path below
        the start is returned once, out of a directory returned before; and if no call
        fails, all of them are. */
    method Next() returns (r: Option<Path>)
      requires Valid()
      modifies this`directoryEntries, this`currentDirectoryEntry, this`rootPath, this`pendingPaths, this`done, this`listing
      ensures Valid()
      ensures r.None? ==> done == old(done) && Todo() == {} && (fs.reliable ==> old(Todo()) == {})
      ensures r.None? ==> pendingPaths == [] && currentDirectoryEntry >= |directoryEntries|
      ensures r.Some? ==> var p := r.value;
                && done == old(done) + [p] && p in old(Todo()) && p !in old(done)
                && p in tree && Below(start, p) && currentDirectoryEntry < |directoryEntries|
                && tree[p] == directoryEntries[currentDirectoryEntry].kind
                && Todo() <= old(Todo()) - {p} && (fs.reliable ==> Todo() == old(Todo()) - {p})
                && (wantDirectories ==> Parent(p) == start || Parent(p) in old(done))
                && forall d :: d in old(done) ==> d != [] && !Below(Parent(p), Parent(d))
    {
      hide Kept, Pushed, Agree, Scan.Ok, Scan.Todo, Scan.Follows, Unread, WellFormed;
      ghost var todo := Todo();
      currentDirectoryEntry := currentDirectoryEntry + 1;
      while currentDirectoryEntry >= |directoryEntries|
        invariant From(currentDirectoryEntry).Ok() && Agree(tree, fs.nodes, pendingPaths)
        invariant fs.reliable ==> From(currentDirectoryEntry).Follows(listing)
        invariant From(currentDirectoryEntry).Todo() <= todo
        invariant fs.reliable ==> From(currentDirectoryEntry).Todo() == todo
        invariant done == old(done)
        decreases Unread(tree, pendingPaths)
      {
        if pendingPaths == [] {
          NothingLeft(From(currentDirectoryEntry));
          assert From(currentDirectoryEntry + 1) == From(currentDirectoryEntry);
          return None;
        }
        ReadNextDirectory();
      }
      ghost var before := From(currentDirectoryEntry);
      before.ReturnOne();
      if fs.reliable {
        before.FollowsReturn(listing);
      }
      r := Some(rootPath + [directoryEntries[currentDirectoryEntry].name]);
      done := done + [r.value];
      assert From(currentDirectoryEntry + 1) == before.(rest := before.rest[1..], done := done);
    }

    /** What GetFindInfo says about the path that Next returned last. */
    method CurrentIsDirectory() returns (b: bool)
      requires currentDirectoryEntry < |directoryEntries|
      ensures b == directoryEntries[currentDirectoryEntry].kind.Directory?
    {
      b := directoryEntries[currentDirectoryEntry].kind.Directory?;
    }
  }

  lemma StartOfScan(s: Scan)
    requires WellFormed(s.tree) && s.root == s.start && s.rest == [] && s.pending == [s.start] && s.done == []
    ensures s.Ok() && s.Follows(map[]) && Agree(s.tree, s.tree, s.pending)
    ensures s.Todo() == set p | p in s.tree && Wanted(s.tree[p], s.files, s.directories) && Below(s.start, p)
  {
    hide Below, Walk, WellFormed, PendingOk, Wanted, Scan.Follows, Agree, Deep;
    StartIsOk(s);
    StartFollows(s);
    AgreeWithItself(s.tree, s.pending);
    forall p: Path
      ensures p in Deep(s.tree, s.pending, s.files, s.directories) <==>
              p in s.tree && Wanted(s.tree[p], s.files, s.directories) && Below(s.start, p)
    {
      DeepOfOne(s.tree, s.start, s.files, s.directories, p);
    }
    assert Near(s.root, s.rest) == {};
  }

  lemma AgreeWithItself(t: Tree, pending: seq<Path>)
    requires WellFormed(t)
    ensures Agree(t, t, pending)
  {
  }

  lemma StartIsOk(s: Scan)
    requires WellFormed(s.tree) && s.root == s.start && s.rest == [] && s.pending == [s.start] && s.done == []
    ensures s.Ok() && PendingOk(s.pending)
  {
    hide Below, WellFormed, Scan.Todo;
  }

  lemma StartFollows(s: Scan)
    requires PendingOk(s.pending) && s.rest == [] && s.pending == [s.start] && s.done == []
    ensures s.Follows(map[])
  {
    hide Walk, IsListing, PendingOk, InSubtree;
    forall listing | IsListing(s.tree, listing)
      ensures s.Matches(listing)
    {
      assert PathsOf(s.root, []) == [];
      assert [] + [] + Walk(s.tree, listing, s.pending, s.files, s.directories) ==
             Walk(s.tree, listing, s.pending, s.files, s.directories);
    }
  }

  lemma NothingListed(a: Path, b: Path)
    ensures PathsOf(a, []) == PathsOf(b, []) == []
  {
  }

  lemma JoinNothing(done: seq<Path>, root: Path, near: seq<Path>, later: seq<Path>)
    ensures done + PathsOf(root, []) + (near + later) == done + near + later
  {
  }

  lemma OneLess(done: seq<Path>, root: Path, rest: seq<Entry>, later: seq<Path>)
    requires rest != []
    ensures done + PathsOf(root, rest) + later ==
            (done + [root + [rest[0].name]]) + PathsOf(root, rest[1..]) + later
  {
    assert PathsOf(root, rest) == [root + [rest[0].name]] + PathsOf(root, rest[1..]);
  }

  lemma NothingLeft(s: Scan)
    requires s.rest == [] && s.pending == []
    ensures s.Todo() == {}
  {
  }

  /** Of the paths in `all`, some have been returned and the rest is still to come. */
  ghost predicate Halfway(all: set<Path>, done: seq<Path>, todo: set<Path>, start: Path, ordered: bool, complete: bool) {
    && DistinctPaths(done) && (ordered ==> DirectoriesFirst(start, done))
    && (forall p :: p in done ==> p in all && p !in todo)
    && todo <= all && (complete ==> forall p :: p in all ==> p in todo || p in done)
  }

  lemma OneMoreReturned(all: set<Path>, done: seq<Path>, todo: set<Path>, start: Path, ordered: bool, complete: bool,
                        p: Path, todo': set<Path>)
    requires Halfway(all, done, todo, start, ordered, complete)
    requires p in todo && p !in done && todo' <= todo - {p} && (complete ==> todo' == todo - {p})
    requires p != [] && (ordered ==> Parent(p) == start || Parent(p) in done)
    ensures Halfway(all, done + [p], todo', start, ordered, complete)
  {
    var done' := done + [p];
    forall k | 0 <= k < |done'| && ordered
      ensures done'[k] != [] && (Parent(done'[k]) == start || Parent(done'[k]) in done'[..k])
    {
      assert done'[..k] == if k < |done| then done[..k] else done;
    }
    assert forall q :: q in done' <==> q in done || q == p;
  }

  lemma NoneReturned(all: set<Path>, start: Path, ordered: bool, complete: bool)
    ensures Halfway(all, [], all, start, ordered, complete)
  {
  }

  /** Calling Next until there are no more results, while nothing changes. */
  method Enumerate(fs: FileSystem, start: Path, files: bool, directories: bool) returns (paths: seq<Path>)
    requires WellFormed(fs.nodes)
    ensures DistinctPaths(paths)
    ensures ShallowFirst(paths) && OneBlock(paths) && (directories ==> DirectoriesFirst(start, paths))
    ensures Aligned(fs.nodes, start, files, directories) ==> LevelOrder(paths)
    ensures forall p :: p in paths ==> p in fs.nodes && Wanted(fs.nodes[p], files, directories) && Below(start, p)
    ensures fs.reliable ==> PendingOk([start]) && exists listing ::
              IsListing(fs.nodes, listing) && paths == Walk(fs.nodes, listing, [start], files, directories)
    ensures fs.reliable ==>
              forall p :: p in fs.nodes && Wanted(fs.nodes[p], files, directories) && Below(start, p) ==> p in paths
    // what is returned lies below the start, and is a directory or a file as requested; all of
    // it if no call fails
    ensures forall p :: p in paths ==>
              p in fs.nodes && start <= p != start && if fs.nodes[p].Directory? then directories else files
    ensures fs.reliable ==> forall p :: p in fs.nodes && start <= p != start ==>
              (p in paths <==> if fs.nodes[p].Directory? then directories else files)
    ensures forall j, k :: 0 <= j < k < |paths| ==> paths[j] != paths[k]
  {
    hide Halfway, Agree, Scan.Ok, Scan.Todo, WellFormed, DistinctPaths, DirectoriesFirst, FileEnumerator.Valid;
    var e := new FileEnumerator(fs, start, files, directories);
    ghost var all := e.Todo();
    NoneReturned(all, start, directories, fs.reliable);
    paths := [];
    while true
      invariant e.Valid() && e.fs == fs && e.start == start && e.tree == fs.nodes
      invariant e.wantDirectories == directories && e.done == paths && ShallowFirst(paths)
      invariant Halfway(all, paths, e.Todo(), start, directories, fs.reliable)
      decreases e.Todo()
    {
      ghost var todo := e.Todo();
      var r := e.Next();
      if r.None? {
        OnlyNoneLeft(all, paths, todo, start, directories, fs.reliable);
        EndOfEnumeration(e);
        LevelIfAligned(fs.nodes, start, files, directories, paths);
        AsRequested(fs.nodes, start, files, directories, paths, fs.reliable);
        return;
      }
      OneMoreReturned(all, paths, todo, start, directories, fs.reliable, r.value, e.Todo());
      ShallowFirstAppend(paths, r.value);
      paths := paths + [r.value];
    }
  }

  lemma EndOfEnumeration(e: FileEnumerator)
    requires e.Valid() && e.pendingPaths == [] && e.currentDirectoryEntry >= |e.directoryEntries|
    ensures OneBlock(e.done)
    ensures e.fs.reliable ==> PendingOk([e.start]) && exists listing ::
              IsListing(e.tree, listing) && e.done == Walk(e.tree, listing, [e.start], e.wantFiles, e.wantDirectories)
  {
    hide Agree, OneBlock, Walk, IsListing, PendingOk, Scan.OpenOk, Scan.NestOk, Scan.OrderOk, Scan.DepthOk, Scan.EntryOk,
         Scan.Todo, Scan.Follows;
    if e.fs.reliable {
      var listing := e.From(e.currentDirectoryEntry + 1).FollowsToTheEnd(e.listing);
    }
  }

  /** What the flags ask for. */
  lemma AsRequested(t: Tree, start: Path, files: bool, directories: bool, paths: seq<Path>, complete: bool)
    requires DistinctPaths(paths)
    requires complete ==> forall p :: p in t && Wanted(t[p], files, directories) && Below(start, p) ==> p in paths
    requires forall p :: p in paths ==> p in t && Wanted(t[p], files, directories) && Below(start, p)
    ensures forall p :: p in paths ==> p in t && start <= p != start && if t[p].Directory? then directories else files
    ensures complete ==> forall p :: p in t && start <= p != start ==>
              (p in paths <==> if t[p].Directory? then directories else files)
    ensures forall j, k :: 0 <= j < k < |paths| ==> paths[j] != paths[k]
  {
    forall p: Path
      ensures Below(start, p) <==> start <= p != start
    {
      BelowIsProperPrefix(start, p);
    }
  }

  lemma BelowIsProperPrefix(dir: Path, p: Path)
    ensures Below(dir, p) <==> dir <= p != dir
  {
    assert p[..|p|] == p;
  }

  lemma LevelIfAligned(t: Tree, start: Path, files: bool, directories: bool, paths: seq<Path>)
    requires ShallowFirst(paths)
    requires forall p :: p in paths ==> p in t && Wanted(t[p], files, directories) && Below(start, p)
    ensures Aligned(t, start, files, directories) ==> LevelOrder(paths)
  {
    hide Wanted, Below, Aligned, LevelOrder, ShallowFirst;
    if Aligned(t, start, files, directories) {
      forall p | p in paths
        ensures p in Deep(t, [start], files, directories)
      {
        DeepOfOne(t, start, files, directories, p);
      }
      AlignedIsLevel(t, start, files, directories, paths);
    }
  }

  lemma OnlyNoneLeft(all: set<Path>, done: seq<Path>, todo: set<Path>, start: Path, ordered: bool, complete: bool)
    requires Halfway(all, done, todo, start, ordered, complete) && (complete ==> todo == {})
    ensures DistinctPaths(done) && (ordered ==> DirectoriesFirst(start, done))
    ensures (forall p :: p in done ==> p in all) && (complete ==> forall p :: p in all ==> p in done)
  {
  }

  // ---------- A tree that is never enumerated level by level ----------

  function With(t: Tree, dir: Path, name: string, kind: Kind): Tree {
    t[dir + [name] := kind]
  }

  /** The tree a/x/f, b/y/g: two branches of three levels. */
  function Branch(t: Tree, top: string, middle: string, leaf: string): Tree {
    With(With(With(t, [], top, Directory), [top], middle, Directory), [top, middle], leaf, File)
  }

  function CrossingTree(): Tree {
    Branch(Branch(map[[] := Directory], "a", "x", "f"), "b", "y", "g")
  }

  lemma WithKeeps(t: Tree, dir: Path, name: string, kind: Kind)
    requires WellFormed(t) && dir in t && t[dir].Directory? && !IsDots(name)
    requires dir + [name] in t ==> t[dir + [name]] == kind
    ensures WellFormed(With(t, dir, name, kind))
  {
    ChildPath(dir, name);
  }

  lemma BranchKeeps(t: Tree, top: string, middle: string, leaf: string)
    requires WellFormed(t) && [] in t && t[[]].Directory? && !IsDots(top) && !IsDots(middle) && !IsDots(leaf)
    requires [top] !in t && [top, middle] !in t && [top, middle, leaf] !in t
    ensures WellFormed(Branch(t, top, middle, leaf))
    ensures Branch(t, top, middle, leaf) == t[[top] := Directory][[top, middle] := Directory][[top, middle, leaf] := File]
    ensures Below([top], [top, middle]) && Below([top], [top, middle, leaf])
  {
    hide WellFormed, IsDots;
    assert [] + [top] == [top] && [top] + [middle] == [top, middle] && [top, middle] + [leaf] == [top, middle, leaf];
    assert [top, middle][..1] == [top] && [top, middle, leaf][..1] == [top];
    var one := With(t, [], top, Directory);
    var two := With(one, [top], middle, Directory);
    WithKeeps(t, [], top, Directory);
    WithKeeps(one, [top], middle, Directory);
    WithKeeps(two, [top, middle], leaf, File);
  }

  lemma CrossingTreeIs()
    ensures WellFormed(CrossingTree())
    ensures ["a", "x"] in CrossingTree() && ["a", "x", "f"] in CrossingTree()
    ensures ["b", "y"] in CrossingTree() && ["b", "y", "g"] in CrossingTree()
    ensures Below(["a"], ["a", "x"]) && Below(["a"], ["a", "x", "f"])
    ensures Below(["b"], ["b", "y"]) && Below(["b"], ["b", "y", "g"]) && Unrelated(["a"], ["b"])
  {
    hide WellFormed, Branch, Below;
    var root: Tree := map[[] := Directory];
    RootAlone(root);
    var names := ["a", "b"];
    assert names[0] != names[1] && "a" != "b";
    BranchKeeps(root, "a", "x", "f");
    var half := Branch(root, "a", "x", "f");
    assert ["b"] !in half && ["b", "y"] !in half && ["b", "y", "g"] !in half by {
      assert ["b"][0] == ["b", "y"][0] == ["b", "y", "g"][0] == "b";
      assert ["a"][0] == ["a", "x"][0] == ["a", "x", "f"][0] == "a";
    }
    BranchKeeps(half, "b", "y", "g");
    Siblings("a", "b");
  }

  lemma RootAlone(t: Tree)
    requires t == map[[] := Directory]
    ensures WellFormed(t)
  {
  }

  lemma Siblings(a: string, b: string)
    requires a != b
    ensures Unrelated([a], [b])
  {
    assert [a][0] != [b][0];
  }

  lemma BranchHas(t: Tree, top: string, middle: string, leaf: string)
    ensures forall p :: p in Branch(t, top, middle, leaf) <==> p in t || p in [[top], [top, middle], [top, middle, leaf]]
    ensures forall p :: p in t && p !in [[top], [top, middle], [top, middle, leaf]] ==> Branch(t, top, middle, leaf)[p] == t[p]
    ensures Branch(t, top, middle, leaf)[[top]].Directory? && Branch(t, top, middle, leaf)[[top, middle]].Directory?
    ensures Branch(t, top, middle, leaf)[[top, middle, leaf]].File?
  {
    assert [] + [top] == [top] && [top] + [middle] == [top, middle] && [top, middle] + [leaf] == [top, middle, leaf];
  }

  lemma CrossingTreeHas()
    ensures forall p :: p in CrossingTree() <==>
              p in [[], ["a"], ["a", "x"], ["a", "x", "f"], ["b"], ["b", "y"], ["b", "y", "g"]]
    ensures forall p :: p in CrossingTree() && CrossingTree()[p].File? ==> p in [["a", "x", "f"], ["b", "y", "g"]]
    ensures CrossingTree()[["a", "x", "f"]].File? && CrossingTree()[["b", "y", "g"]].File?
  {
    hide Branch;
    var root: Tree := map[[] := Directory];
    var half := Branch(root, "a", "x", "f");
    BranchHas(root, "a", "x", "f");
    BranchHas(half, "b", "y", "g");
    OtherTop("a", "b", ["a"]);
    OtherTop("a", "b", ["a", "x"]);
    OtherTop("a", "b", ["a", "x", "f"]);
  }

  lemma BelowB()
    ensures forall p :: p in CrossingTree() ==> (["b"] <= p <==> p in [["b"], ["b", "y"], ["b", "y", "g"]])
  {
    hide CrossingTree;
    CrossingTreeHas();
    OtherTop("a", "b", ["a"]);
    OtherTop("a", "b", ["a", "x"]);
    OtherTop("a", "b", ["a", "x", "f"]);
  }

  lemma OtherTop(a: string, b: string, p: Path)
    requires p != [] && p[0] == a != b
    ensures !([b] <= p) && forall q: Path :: q != [] && q[0] == b ==> p != q
  {
  }

  /** Of its two upper directories, the one read first is left only when all below it
      was returned: a/x/f comes before b/y, or b/y/g before a/x. */
  method EnumerateCrossing(fs: FileSystem) returns (paths: seq<Path>)
    requires fs.reliable && fs.nodes == CrossingTree()
    ensures !LevelOrder(paths)
    ensures forall p :: p in paths <==> p in CrossingTree() && p != []
  {
    hide CrossingTree, Walk, WellFormed, Unrelated, LevelOrder, OneBlock, DirectoriesFirst, ShallowFirst, DistinctPaths, IsListing;
    CrossingTreeIs();
    paths := Enumerate(fs, [], true, true);
    CrossingDepths(paths, ["a"], ["b"], ["a", "x"], ["a", "x", "f"], ["b", "y"], ["b", "y", "g"]);
  }

  /** Only files, only directories, and everything below one directory of this tree. */
  method EnumerateSome(fs: FileSystem) returns (files: seq<Path>, directories: seq<Path>, below: seq<Path>)
    requires fs.reliable && fs.nodes == CrossingTree()
    ensures forall p :: p in files <==> p in [["a", "x", "f"], ["b", "y", "g"]]
    ensures forall p :: p in directories <==> p in [["a"], ["a", "x"], ["b"], ["b", "y"]]
    ensures forall p :: p in below <==> p in [["b", "y"], ["b", "y", "g"]]
  {
    hide CrossingTree, Walk, WellFormed, LevelOrder, OneBlock, DirectoriesFirst, ShallowFirst, DistinctPaths, IsListing, Aligned, Below;
    CrossingTreeIs();
    CrossingTreeHas();
    BelowB();
    files := Enumerate(fs, [], true, false);
    directories := Enumerate(fs, [], false, true);
    below := Enumerate(fs, ["b"], true, true);
  }
}
