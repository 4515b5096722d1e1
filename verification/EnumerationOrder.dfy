/** The orders in which a tree may be enumerated. */
module EnumerationOrder {
  import opened Prelude
  import opened FileTrees
  import opened DirectoryStacks

  // ---------- Orders ----------

  /** Each path is in `start` or in a directory that comes earlier. */
  ghost predicate DirectoriesFirst(start: Path, paths: seq<Path>) {
    forall k :: 0 <= k < |paths| ==>
      paths[k] != [] && (Parent(paths[k]) == start || Parent(paths[k]) in paths[..k])
  }

  /** Whatever is in a directory comes before anything further below that directory. */
  ghost predicate ShallowFirst(paths: seq<Path>) {
    forall j, k :: 0 <= j < k < |paths| ==>
      paths[j] != [] && paths[k] != [] && !Below(Parent(paths[k]), Parent(paths[j]))
  }

  lemma ShallowFirstAppend(paths: seq<Path>, p: Path)
    requires ShallowFirst(paths) && p != []
    requires forall d :: d in paths ==> d != [] && !Below(Parent(p), Parent(d))
    ensures ShallowFirst(paths + [p])
  {
    hide Below;
    assert forall j :: 0 <= j < |paths| ==> paths[j] in paths;
  }

  /** Depth first: whatever lies below one directory comes in one block. */
  ghost predicate OneBlock(paths: seq<Path>) {
    forall d: Path, i, j, k :: 0 <= i < j < k < |paths| && Below(d, paths[i]) && Below(d, paths[k]) ==> Below(d, paths[j])
  }

  lemma OneBlockAppend(paths: seq<Path>, p: Path)
    requires OneBlock(paths)
    requires forall d: Path, i, j :: 0 <= i < j < |paths| && Below(d, paths[i]) && Below(d, p) ==> Below(d, paths[j])
    ensures OneBlock(paths + [p])
  {
    hide Below;
  }

  lemma OneBlockNothing()
    ensures OneBlock([])
  {
  }

  /** Breadth first: level by level. */
  ghost predicate LevelOrder(paths: seq<Path>) {
    forall j, k :: 0 <= j < k < |paths| ==> |paths[j]| <= |paths[k]|
  }

  /** Two directories with paths at crossing depths rule each other's level order out. */
  lemma CrossingDepths(paths: seq<Path>, a: Path, b: Path, p1: Path, q1: Path, p2: Path, q2: Path)
    requires OneBlock(paths) && Unrelated(a, b) && p1 in paths && q1 in paths && p2 in paths && q2 in paths
    requires Below(a, p1) && Below(a, q1) && Below(b, p2) && Below(b, q2)
    requires |q1| > |p2| && |q2| > |p1|
    ensures !LevelOrder(paths)
  {
    var i1 :| 0 <= i1 < |paths| && paths[i1] == p1;
    var j1 :| 0 <= j1 < |paths| && paths[j1] == q1;
    var i2 :| 0 <= i2 < |paths| && paths[i2] == p2;
    var j2 :| 0 <= j2 < |paths| && paths[j2] == q2;
    CrossingPlaces(paths, a, b, i1, j1, i2, j2);
  }

  lemma CrossingPlaces(paths: seq<Path>, a: Path, b: Path, i1: nat, j1: nat, i2: nat, j2: nat)
    requires OneBlock(paths) && Unrelated(a, b) && i1 < |paths| && j1 < |paths| && i2 < |paths| && j2 < |paths|
    requires Below(a, paths[i1]) && Below(a, paths[j1]) && Below(b, paths[i2]) && Below(b, paths[j2])
    requires |paths[j1]| > |paths[i2]| && |paths[j2]| > |paths[i1]|
    ensures !LevelOrder(paths)
  {
    hide Below, Unrelated, OneBlock;
    NotBelowBoth(a, b, paths[i1]);
    NotBelowBoth(a, b, paths[i2]);
    if i1 < i2 && i2 < j1 {
      Between(paths, a, i1, i2, j1);
    } else if i2 < i1 && i1 < j2 {
      Between(paths, b, i2, i1, j2);
    }
  }

  lemma Between(paths: seq<Path>, d: Path, i: nat, j: nat, k: nat)
    requires OneBlock(paths) && i < j < k < |paths| && Below(d, paths[i]) && Below(d, paths[k])
    ensures Below(d, paths[j])
  {
  }

  lemma NotBelowBoth(a: Path, b: Path, p: Path)
    requires Unrelated(a, b)
    ensures !(Below(a, p) && Below(b, p))
  {
    hide Below;
    if Below(a, p) && Below(b, p) {
      TwoAbove(a, b, p);
    }
  }

  /** The orders, spelled out. */
  lemma OrdersSpelledOut(start: Path, paths: seq<Path>)
    ensures LevelOrder(paths) <==> forall j, k :: 0 <= j < k < |paths| ==> |paths[j]| <= |paths[k]|
    ensures OneBlock(paths) <==>
            forall d: Path, i, j, k :: 0 <= i < j < k < |paths| && Below(d, paths[i]) && Below(d, paths[k]) ==> Below(d, paths[j])
    ensures (forall k :: 0 <= k < |paths| ==> paths[k] != []) ==>
              (ShallowFirst(paths) <==> forall j, k :: 0 <= j < k < |paths| ==> !Below(Parent(paths[k]), Parent(paths[j])))
  {
    hide Below;
  }

  lemma DirectoriesFirstSpelledOut(start: Path, paths: seq<Path>)
    ensures DirectoriesFirst(start, paths) <==>
            forall k :: 0 <= k < |paths| ==>
              paths[k] != [] && (Parent(paths[k]) == start || exists j :: 0 <= j < k && paths[j] == Parent(paths[k]))
  {
    hide Below;
    forall k | 0 <= k < |paths| && paths[k] != []
      ensures Parent(paths[k]) in paths[..k] <==> exists j :: 0 <= j < k && paths[j] == Parent(paths[k])
    {
      assert forall j :: 0 <= j < k ==> paths[..k][j] == paths[j];
    }
  }

  // ---------- The order of a stack, for given listings ----------

  type Listing = map<Path, seq<Entry>>

  /** The order in which each directory lists its entries. */
  ghost predicate IsListing(t: Tree, listing: Listing) {
    forall d :: IsDirectory(t, d) ==> d in listing && Lists(t, d, listing[d])
  }

  ghost predicate Extends(listing: Listing, recorded: Listing) {
    forall d :: d in recorded ==> d in listing && listing[d] == recorded[d]
  }

  lemma ExtendsLess(listing: Listing, recorded: Listing, dir: Path, entries: seq<Entry>)
    requires dir !in recorded && Extends(listing, recorded[dir := entries])
    ensures Extends(listing, recorded) && dir in listing && listing[dir] == entries
  {
  }

  function PathsOf(dir: Path, entries: seq<Entry>): (paths: seq<Path>)
    ensures |paths| == |entries| && forall k :: 0 <= k < |paths| ==> paths[k] == dir + [entries[k].name]
  {
    seq(|entries|, k requires 0 <= k < |entries| => dir + [entries[k].name])
  }

  lemma PopTop(t: Tree, listing: Listing, base: seq<Path>, dir: Path)
    requires IsListing(t, listing) && PendingOk(base + [dir])
    ensures PendingOk(base) && Unread(t, base) < Unread(t, base + [dir])
    ensures IsDirectory(t, dir) ==> var next := base + Pushed(dir, listing[dir]);
              PendingOk(next) && Unread(t, next) < Unread(t, base + [dir])
  {
    hide Unread, Lists, Pushed;
    PendingPrefix(base, dir);
    UnreadShrinks(t, base, dir, []);
    assert base + [] == base;
    if IsDirectory(t, dir) {
      PushedInTree(t, dir, listing[dir]);
      ReplaceTop(base, dir, Pushed(dir, listing[dir]));
      UnreadShrinks(t, base, dir, Pushed(dir, listing[dir]));
    }
  }

  lemma PendingPrefix(base: seq<Path>, dir: Path)
    requires PendingOk(base + [dir])
    ensures PendingOk(base)
  {
    var all := base + [dir];
    assert forall k :: 0 <= k < |base| ==> base[k] == all[k];
  }

  /** What is enumerated from a stack, when the directories list their entries like this. */
  ghost function Walk(t: Tree, listing: Listing, pending: seq<Path>, files: bool, directories: bool): seq<Path>
    requires IsListing(t, listing) && PendingOk(pending)
    decreases Unread(t, pending)
  {
    if pending == [] then []
    else
      var base, dir := pending[..|pending| - 1], pending[|pending| - 1];
      assert pending == base + [dir];
      PopTop(t, listing, base, dir);
      if IsDirectory(t, dir) then
        PathsOf(dir, Kept(listing[dir], files, directories)) +
        Walk(t, listing, base + Pushed(dir, listing[dir]), files, directories)
      else Walk(t, listing, base, files, directories)
  }

  lemma WalkUnfolds(t: Tree, listing: Listing, base: seq<Path>, dir: Path, files: bool, directories: bool)
    requires IsListing(t, listing) && PendingOk(base + [dir])
    ensures PendingOk(base) && (IsDirectory(t, dir) ==> PendingOk(base + Pushed(dir, listing[dir])))
    ensures Walk(t, listing, base + [dir], files, directories) ==
            if IsDirectory(t, dir) then
              PathsOf(dir, Kept(listing[dir], files, directories)) +
              Walk(t, listing, base + Pushed(dir, listing[dir]), files, directories)
            else Walk(t, listing, base, files, directories)
  {
    hide Kept, Pushed, PendingOk, IsListing;
    var all := base + [dir];
    assert all[..|all| - 1] == base && all[|all| - 1] == dir;
    PopTop(t, listing, base, dir);
  }

  lemma PendingParts(base: seq<Path>, top: seq<Path>)
    requires PendingOk(base + top)
    ensures PendingOk(base) && PendingOk(top)
  {
    var all := base + top;
    assert forall k :: 0 <= k < |base| ==> base[k] == all[k];
    assert forall k :: 0 <= k < |top| ==> top[k] == all[|base| + k];
  }

  lemma JoinStack(base: seq<Path>, top: seq<Path>, more: seq<Path>)
    ensures base + (top + more) == (base + top) + more
  {
  }

  /** The top of the stack is dealt with before the rest. */
  lemma {:induction false} WalkSplits(t: Tree, listing: Listing, base: seq<Path>, top: seq<Path>,
                                      files: bool, directories: bool)
    requires IsListing(t, listing) && PendingOk(base + top)
    ensures PendingOk(base) && PendingOk(top)
    ensures Walk(t, listing, base + top, files, directories) ==
            Walk(t, listing, top, files, directories) + Walk(t, listing, base, files, directories)
    decreases Unread(t, base + top)
  {
    hide Walk, PendingOk, Lists, Pushed, Kept, Unread;
    PendingParts(base, top);
    if top == [] {
      assert base + top == base;
      WalkNothing(t, listing, files, directories);
    } else {
      var front, dir := top[..|top| - 1], top[|top| - 1];
      assert top == front + [dir];
      JoinStack(base, front, [dir]);
      PopTop(t, listing, base + front, dir);
      WalkUnfolds(t, listing, base + front, dir, files, directories);
      WalkUnfolds(t, listing, front, dir, files, directories);
      if IsDirectory(t, dir) {
        JoinStack(base, front, Pushed(dir, listing[dir]));
        WalkSplits(t, listing, base, front + Pushed(dir, listing[dir]), files, directories);
      } else {
        WalkSplits(t, listing, base, front, files, directories);
      }
    }
  }

  lemma WalkNothing(t: Tree, listing: Listing, files: bool, directories: bool)
    requires IsListing(t, listing)
    ensures PendingOk([]) && Walk(t, listing, [], files, directories) == []
  {
  }

  /** A stack leads to exactly the wanted paths below its directories. */
  lemma {:induction false} WalkHas(t: Tree, listing: Listing, pending: seq<Path>, files: bool, directories: bool)
    requires WellFormed(t) && IsListing(t, listing) && PendingOk(pending)
    ensures forall p :: p in Walk(t, listing, pending, files, directories) <==> p in Deep(t, pending, files, directories)
    decreases Unread(t, pending)
  {
    hide Walk, PendingOk, Pushed, Kept, Unread, Deep, Lists, WellFormed;
    if pending == [] {
      WalkNothing(t, listing, files, directories);
      DeepNothing(t, files, directories);
    } else {
      var base, dir := pending[..|pending| - 1], pending[|pending| - 1];
      assert pending == base + [dir];
      PopTop(t, listing, base, dir);
      WalkUnfolds(t, listing, base, dir, files, directories);
      if IsDirectory(t, dir) {
        WalkHas(t, listing, base + Pushed(dir, listing[dir]), files, directories);
        ReadTopKeepsTodo(t, base, dir, listing[dir], files, directories);
        NearIsPathsOf(dir, Kept(listing[dir], files, directories));
      } else {
        WalkHas(t, listing, base, files, directories);
        NothingBelow(t, base, dir, files, directories);
      }
    }
  }

  lemma DeepNothing(t: Tree, files: bool, directories: bool)
    ensures Deep(t, [], files, directories) == {}
  {
  }

  lemma NearIsPathsOf(dir: Path, entries: seq<Entry>)
    ensures forall p :: p in Near(dir, entries) <==> p in PathsOf(dir, entries)
  {
    forall k | 0 <= k < |entries|
      ensures PathsOf(dir, entries)[k] in Near(dir, entries)
    {
    }
    forall p | p in Near(dir, entries)
      ensures p in PathsOf(dir, entries)
    {
      var k :| 0 <= k < |entries| && p == dir + [entries[k].name];
      assert PathsOf(dir, entries)[k] == p;
    }
  }

  // ---------- Level order ----------

  /** The wanted path p lies below one of these directories, so its own directory does too. */
  lemma ParentOfDeep(t: Tree, pending: seq<Path>, files: bool, directories: bool, p: Path)
    requires p in Deep(t, pending, files, directories)
    ensures p != [] && exists k :: 0 <= k < |pending| && InSubtree(pending[k], Parent(p))
  {
    var k :| 0 <= k < |pending| && Below(pending[k], p);
    ParentChain(pending[k], p);
  }

  /** What is read later is not above what was read before. */
  lemma LaterIsNotAbove(base: seq<Path>, dir: Path, pushed: seq<Path>, k: nat, d: Path)
    requires PendingOk(base + [dir]) && k < |base + pushed| && InSubtree((base + pushed)[k], d)
    requires forall q :: q in pushed ==> |q| == |dir| + 1 && q[..|dir|] == dir
    ensures !Below(d, dir)
  {
    var all, e := base + [dir], (base + pushed)[k];
    if k < |base| {
      assert e == all[k] && Unrelated(all[k], all[|base|]);
    } else {
      assert e in pushed;
    }
    if Below(d, dir) && Below(e, d) {
      BelowBelow(e, d, dir);
    }
  }

  lemma {:induction false} WalkIsShallowFirst(t: Tree, listing: Listing, pending: seq<Path>, files: bool, directories: bool)
    requires WellFormed(t) && IsListing(t, listing) && PendingOk(pending)
    ensures ShallowFirst(Walk(t, listing, pending, files, directories))
    decreases Unread(t, pending)
  {
    hide Walk, PendingOk, Pushed, Kept, Unread, Deep, Lists, WellFormed, ShallowFirst, InSubtree;
    if pending == [] {
      WalkNothing(t, listing, files, directories);
      ShallowFirstNothing();
    } else {
      var base, dir := pending[..|pending| - 1], pending[|pending| - 1];
      assert pending == base + [dir];
      PopTop(t, listing, base, dir);
      WalkUnfolds(t, listing, base, dir, files, directories);
      if IsDirectory(t, dir) {
        var pushed := Pushed(dir, listing[dir]);
        var later := Walk(t, listing, base + pushed, files, directories);
        WalkIsShallowFirst(t, listing, base + pushed, files, directories);
        WalkHas(t, listing, base + pushed, files, directories);
        PushedInTree(t, dir, listing[dir]);
        forall p | p in later
          ensures p != [] && !Below(Parent(p), dir)
        {
          ParentOfDeep(t, base + pushed, files, directories, p);
          var k :| 0 <= k < |base + pushed| && InSubtree((base + pushed)[k], Parent(p));
          LaterIsNotAbove(base, dir, pushed, k, Parent(p));
        }
        ShallowFirstJoins(dir, Kept(listing[dir], files, directories), later);
      } else {
        WalkIsShallowFirst(t, listing, base, files, directories);
      }
    }
  }

  lemma ShallowFirstNothing()
    ensures ShallowFirst([])
  {
  }

  lemma ShallowFirstJoins(dir: Path, entries: seq<Entry>, later: seq<Path>)
    requires ShallowFirst(later) && forall p :: p in later ==> p != [] && !Below(Parent(p), dir)
    ensures ShallowFirst(PathsOf(dir, entries) + later)
  {
    hide Below;
    var near := PathsOf(dir, entries);
    var all := near + later;
    NotBelowItself(dir);
    forall k | 0 <= k < |near|
      ensures near[k] != [] && Parent(near[k]) == dir
    {
      ChildPath(dir, entries[k].name);
    }
    forall j, k | 0 <= j < k < |all|
      ensures all[j] != [] && all[k] != [] && !Below(Parent(all[k]), Parent(all[j]))
    {
      if k < |near| {
        assert all[j] == near[j] && all[k] == near[k];
      } else {
        assert all[k] == later[k - |near|] && later[k - |near|] in later;
        assert if j < |near| then all[j] == near[j] else all[j] == later[j - |near|];
      }
    }
  }

  lemma NotBelowItself(dir: Path)
    ensures !Below(dir, dir)
  {
  }

  /** Of two wanted paths at different depths, the directory of the upper one is that of
      the lower one, or above it. */
  ghost predicate Aligned(t: Tree, start: Path, files: bool, directories: bool) {
    forall p, q :: p in Deep(t, [start], files, directories) && q in Deep(t, [start], files, directories) && |p| < |q|
      ==> p != [] && q != [] && InSubtree(Parent(p), Parent(q))
  }

  lemma AlignedSpelledOut(t: Tree, start: Path, files: bool, directories: bool)
    ensures Aligned(t, start, files, directories) <==>
            forall p, q :: p in t && Below(start, p) && (if t[p].Directory? then directories else files) &&
                           q in t && Below(start, q) && (if t[q].Directory? then directories else files) && |p| < |q| ==>
              p != [] && q != [] && InSubtree(Parent(p), Parent(q))
  {
    hide Below, InSubtree, Deep;
    forall p: Path {
      DeepOfOne(t, start, files, directories, p);
    }
  }

  /** Of a tree whose wanted paths are aligned, whatever is returned comes level by level. */
  lemma AlignedIsLevel(t: Tree, start: Path, files: bool, directories: bool, paths: seq<Path>)
    requires Aligned(t, start, files, directories) && ShallowFirst(paths)
    requires forall p :: p in paths ==> p in Deep(t, [start], files, directories)
    ensures LevelOrder(paths)
  {
    hide Deep;
    forall j, k | 0 <= j < k < |paths|
      ensures |paths[j]| <= |paths[k]|
    {
      assert paths[j] in paths && paths[k] in paths;
      assert |paths[k]| < |paths[j]| ==> InSubtree(Parent(paths[k]), Parent(paths[j]));
    }
  }

  lemma AlignedWalkIsLevel(t: Tree, listing: Listing, start: Path, files: bool, directories: bool)
    requires WellFormed(t) && IsListing(t, listing) && Aligned(t, start, files, directories)
    ensures PendingOk([start]) && LevelOrder(Walk(t, listing, [start], files, directories))
  {
    hide Walk, WellFormed, IsListing, Deep, ShallowFirst, LevelOrder, Aligned;
    WalkHas(t, listing, [start], files, directories);
    WalkIsShallowFirst(t, listing, [start], files, directories);
    AlignedIsLevel(t, start, files, directories, Walk(t, listing, [start], files, directories));
  }

  // ---------- Any other tree has an order that is not level by level ----------

  lemma {:induction false} ListingFrom(t: Tree, dir: Path, entries: seq<Entry>, rest: set<Path>) returns (all: seq<Entry>)
    requires WellFormed(t) && ListsExcept(t, dir, entries, rest) && rest <= t.Keys
    ensures Lists(t, dir, all)
    decreases rest
  {
    hide ListsExcept, Lists, WellFormed;
    if p :| p in rest {
      ListsOneMore(t, dir, entries, rest, p);
      var more := if p != [] && Parent(p) == dir then entries + [Entry(p[|p| - 1], t[p])] else entries;
      all := ListingFrom(t, dir, more, rest - {p});
    } else {
      assert rest == {};
      ListsAll(t, dir, entries);
      all := entries;
    }
  }

  lemma ListingExists(t: Tree, dir: Path)
    requires WellFormed(t)
    ensures exists entries :: Lists(t, dir, entries)
  {
    ListsNothing(t, dir);
    var _ := ListingFrom(t, dir, [Entry("..", Directory), Entry(".", Directory)], t.Keys);
  }

  ghost function ListingOf(t: Tree, dir: Path): (entries: seq<Entry>)
    requires WellFormed(t)
    ensures Lists(t, dir, entries)
  {
    ListingExists(t, dir);
    var entries :| Lists(t, dir, entries);
    entries
  }

  ghost function SomeListing(t: Tree): (listing: Listing)
    requires WellFormed(t)
    ensures IsListing(t, listing)
  {
    map d | d in t && t[d].Directory? :: ListingOf(t, d)
  }

  lemma ReversedLists(t: Tree, dir: Path, entries: seq<Entry>)
    requires Lists(t, dir, entries)
    ensures Lists(t, dir, Reversed(entries))
  {
    var r, n := Reversed(entries), |entries|;
    forall j, k | 0 <= j < k < n
      ensures r[j].name != r[k].name
    {
      assert r[j] == entries[n - 1 - j] && r[k] == entries[n - 1 - k];
    }
    forall e | e in entries
      ensures e in r
    {
      var k :| 0 <= k < n && entries[k] == e;
      assert r[n - 1 - k] == e;
    }
  }

  predicate IsPushed(e: Entry) {
    !IsDots(e.name) && e.kind.Directory?
  }

  /** Directories are pushed in the order of their entries. */
  lemma {:induction false} PushedInOrder(dir: Path, entries: seq<Entry>, i: nat, j: nat) returns (a: nat, b: nat)
    requires i < j < |entries| && IsPushed(entries[i]) && IsPushed(entries[j])
    ensures var pushed := Pushed(dir, entries);
            a < b < |pushed| && pushed[a] == dir + [entries[i].name] && pushed[b] == dir + [entries[j].name]
  {
    hide Pushed, IsDots;
    var n := |entries| - 1;
    var before := Pushed(dir, entries[..n]);
    PushedLast(dir, entries);
    if j < n {
      a, b := PushedInOrder(dir, entries[..n], i, j);
    } else {
      PushedSomewhere(dir, entries[..n], i);
      a :| 0 <= a < |before| && before[a] == dir + [entries[i].name];
      b := |before|;
    }
  }

  lemma PushedLast(dir: Path, entries: seq<Entry>)
    requires entries != []
    ensures var n, e := |entries| - 1, entries[|entries| - 1];
            Pushed(dir, entries) == Pushed(dir, entries[..n]) + if IsPushed(e) then [dir + [e.name]] else []
  {
  }

  lemma PushedSomewhere(dir: Path, entries: seq<Entry>, i: nat)
    requires i < |entries| && IsPushed(entries[i])
    ensures dir + [entries[i].name] in Pushed(dir, entries)
  {
    hide Pushed;
    PushedMembers(dir, entries);
    assert entries[i] == Entry(entries[i].name, Directory) && entries[i] in entries;
  }

  /** Some listing of a directory has one subdirectory before another. */
  lemma ListingInOrder(t: Tree, dir: Path, x: string, y: string) returns (entries: seq<Entry>, a: nat, b: nat)
    requires WellFormed(t) && x != y && IsDirectory(t, dir + [x]) && IsDirectory(t, dir + [y])
    ensures Lists(t, dir, entries)
    ensures var pushed := Pushed(dir, entries);
            a < b < |pushed| && pushed[a] == dir + [x] && pushed[b] == dir + [y]
  {
    hide WellFormed, Pushed, Lists, IsDots, Reversed;
    var first := ListingOf(t, dir);
    ChildIsNoDots(t, dir, x);
    ChildIsNoDots(t, dir, y);
    var i, j := PlaceOf(t, dir, first, x), PlaceOf(t, dir, first, y);
    entries := if i < j then first else Reversed(first);
    var n := |first|;
    if i < j {
      a, b := PushedInOrder(dir, entries, i, j);
    } else {
      ReversedLists(t, dir, first);
      a, b := PushedInOrder(dir, entries, n - 1 - i, n - 1 - j);
    }
  }

  lemma ChildIsNoDots(t: Tree, dir: Path, x: string)
    requires WellFormed(t) && dir + [x] in t
    ensures !IsDots(x)
  {
    ChildPath(dir, x);
    LastIsNoDots(t, dir + [x]);
  }

  ghost function PlaceOf(t: Tree, dir: Path, entries: seq<Entry>, x: string): (k: nat)
    requires Lists(t, dir, entries) && IsDirectory(t, dir + [x])
    ensures k < |entries| && entries[k] == Entry(x, Directory)
  {
    assert Entry(x, Directory) in entries;
    var k :| 0 <= k < |entries| && entries[k] == Entry(x, Directory);
    k
  }

  /** Everything above a path of the tree is a directory. */
  lemma {:induction false} PrefixIsDirectory(t: Tree, p: Path, n: nat)
    requires WellFormed(t) && p in t && n < |p|
    ensures IsDirectory(t, p[..n])
    decreases |p|
  {
    if n < |p| - 1 {
      assert Parent(p) in t;
      PrefixIsDirectory(t, Parent(p), n);
      assert Parent(p)[..n] == p[..n];
    }
  }

  /** Where two paths part. */
  lemma Parting(d: Path, e: Path) returns (i: nat)
    requires |d| <= |e| && !InSubtree(d, e)
    ensures i < |d| && d[..i] == e[..i] && d[i] != e[i]
  {
    i := 0;
    while i < |d| && d[i] == e[i]
      invariant i <= |d| && d[..i] == e[..i]
    {
      assert d[..i + 1] == d[..i] + [d[i]] && e[..i + 1] == e[..i] + [e[i]];
      i := i + 1;
    }
    assert d[..|d|] == d && e[..|e|] == e;
  }

  /** The walk below a directory is one piece of every walk that passes through it. */
  lemma WalkThrough(t: Tree, listing: Listing, dir: Path, pushed: seq<Path>, k: nat, files: bool, directories: bool)
    returns (pre: seq<Path>, post: seq<Path>)
    requires IsListing(t, listing) && PendingOk(pushed) && k < |pushed|
    ensures PendingOk([pushed[k]])
    ensures Walk(t, listing, pushed, files, directories) ==
            pre + Walk(t, listing, [pushed[k]], files, directories) + post
  {
    hide Walk, IsListing;
    var u, c, v := pushed[..k], [pushed[k]], pushed[k + 1..];
    assert pushed == (u + c) + v;
    WalkSplits(t, listing, u + c, v, files, directories);
    WalkSplits(t, listing, u, c, files, directories);
    pre, post := Walk(t, listing, v, files, directories), Walk(t, listing, u, files, directories);
  }

  lemma OneDirectory(dir: Path)
    ensures PendingOk([dir]) && [] + [dir] == [dir]
  {
  }

  lemma {:induction false} WalkReaches(t: Tree, listing: Listing, start: Path, dir: Path, files: bool, directories: bool)
    returns (pre: seq<Path>, post: seq<Path>)
    requires WellFormed(t) && IsListing(t, listing) && InSubtree(start, dir) && IsDirectory(t, dir)
    ensures PendingOk([start]) && PendingOk([dir])
    ensures Walk(t, listing, [start], files, directories) == pre + Walk(t, listing, [dir], files, directories) + post
    decreases |dir| - |start|
  {
    hide Walk, WellFormed, Pushed, Kept, PendingOk, Lists;
    OneDirectory(start);
    OneDirectory(dir);
    if start == dir {
      pre, post := [], [];
      assert [] + Walk(t, listing, [dir], files, directories) + [] == Walk(t, listing, [dir], files, directories);
    } else {
      var child := StepTowards(t, start, dir);
      var name := child[|start|];
      WalkUnfolds(t, listing, [], start, files, directories);
      var pushed := Pushed(start, listing[start]);
      assert [] + pushed == pushed;
      ChildIsPushed(t, start, listing[start], name);
      var k :| 0 <= k < |pushed| && pushed[k] == child;
      var pre1, post1 := WalkThrough(t, listing, start, pushed, k, files, directories);
      var pre2, post2 := WalkReaches(t, listing, child, dir, files, directories);
      var near := PathsOf(start, Kept(listing[start], files, directories));
      pre, post := near + pre1 + pre2, post2 + post1;
      JoinFive(near, pre1, pre2, Walk(t, listing, [dir], files, directories), post2, post1);
    }
  }

  lemma JoinFive<T>(a: seq<T>, b: seq<T>, c: seq<T>, m: seq<T>, d: seq<T>, e: seq<T>)
    ensures a + (b + (c + m + d) + e) == (a + b + c) + m + (d + e)
  {
  }

  lemma ChildIsPushed(t: Tree, dir: Path, entries: seq<Entry>, name: string)
    requires WellFormed(t) && Lists(t, dir, entries) && IsDirectory(t, dir + [name])
    ensures dir + [name] in Pushed(dir, entries)
  {
    hide WellFormed, Pushed;
    ChildIsNoDots(t, dir, name);
    PushedMembers(dir, entries);
    var k := PlaceOf(t, dir, entries, name);
    assert entries[k] in entries;
  }

  lemma NotLevel(a: seq<Path>, lower: seq<Path>, b: seq<Path>, upper: seq<Path>, c: seq<Path>, p: Path, q: Path)
    requires q in lower && p in upper && |p| < |q|
    ensures !LevelOrder(a + lower + b + upper + c)
  {
    var all := a + lower + b + upper + c;
    var j :| 0 <= j < |lower| && lower[j] == q;
    var k :| 0 <= k < |upper| && upper[k] == p;
    assert all[|a| + j] == q && all[|a + lower + b| + k] == p;
  }

  lemma NotLevelInside(pre: seq<Path>, near: seq<Path>, u: seq<Path>, lower: seq<Path>, v: seq<Path>, upper: seq<Path>,
                       w: seq<Path>, post: seq<Path>, p: Path, q: Path)
    requires q in lower && p in upper && |p| < |q|
    ensures !LevelOrder(pre + (near + (u + lower + v + upper + w)) + post)
  {
    hide LevelOrder;
    NotLevel(pre + near + u, lower, v, upper, w + post, p, q);
    assert pre + (near + (u + lower + v + upper + w)) + post == (pre + near + u) + lower + v + upper + (w + post);
  }

  /** The subdirectory pushed last is read first. */
  lemma WrongWayRound(t: Tree, listing: Listing, dir: Path, pushed: seq<Path>, a: nat, b: nat,
                      files: bool, directories: bool, p: Path, q: Path)
    requires WellFormed(t) && IsListing(t, listing) && PendingOk(pushed) && a < b < |pushed| && |p| < |q|
    requires p in t && q in t && Wanted(t[p], files, directories) && Wanted(t[q], files, directories)
    requires Below(pushed[a], p) && Below(pushed[b], q)
    ensures exists u, lower, v, upper, w ::
              Walk(t, listing, pushed, files, directories) == u + lower + v + upper + w && q in lower && p in upper
  {
    hide Walk, WellFormed, PendingOk, Deep, Below, BelowSome;
    var s1, s2 := pushed[..b], pushed[b..];
    assert pushed == s1 + s2 && s1[a] == pushed[a] && s2[0] == pushed[b];
    WalkSplits(t, listing, s1, s2, files, directories);
    var pre1, post1 := WalkThrough(t, listing, dir, s2, 0, files, directories);
    var pre2, post2 := WalkThrough(t, listing, dir, s1, a, files, directories);
    var lower, upper := Walk(t, listing, [pushed[b]], files, directories), Walk(t, listing, [pushed[a]], files, directories);
    WalkHasBelow(t, listing, pushed[b], files, directories, q);
    WalkHasBelow(t, listing, pushed[a], files, directories, p);
    assert (pre1 + lower + post1) + (pre2 + upper + post2) == pre1 + lower + (post1 + pre2) + upper + post2;
  }

  lemma WalkHasBelow(t: Tree, listing: Listing, dir: Path, files: bool, directories: bool, p: Path)
    requires WellFormed(t) && IsListing(t, listing) && p in t && Wanted(t[p], files, directories) && Below(dir, p)
    ensures PendingOk([dir]) && p in Walk(t, listing, [dir], files, directories)
  {
    hide Walk, WellFormed, IsListing;
    WalkHas(t, listing, [dir], files, directories);
    BelowSomeOfOne(dir, p);
  }

  /** Two wanted paths that are not aligned come in the wrong order for some listing. */
  lemma MisalignedIsNotLevel(t: Tree, start: Path, files: bool, directories: bool, p: Path, q: Path)
    returns (listing: Listing)
    requires WellFormed(t) && |p| < |q| && p in Deep(t, [start], files, directories) && q in Deep(t, [start], files, directories)
    requires p != [] && q != [] && !InSubtree(Parent(p), Parent(q))
    ensures IsListing(t, listing) && PendingOk([start])
    ensures !LevelOrder(Walk(t, listing, [start], files, directories))
  {
    hide Walk, WellFormed, Pushed, Kept, PendingOk, Lists, Deep, Wanted, Below, InSubtree, LevelOrder;
    OneDirectory(start);
    var i := Parting(Parent(p), Parent(q));
    var dir, x, y := p[..i], p[i], q[i];
    PartedParents(p, q, i);
    PartedPaths(t, start, files, directories, p, q, i);
    var entries, a, b := ListingInOrder(t, dir, x, y);
    listing := SomeListing(t)[dir := entries];
    OneDirectory(dir);
    var pre, post := WalkReaches(t, listing, start, dir, files, directories);
    WalkUnfolds(t, listing, [], dir, files, directories);
    var pushed := Pushed(dir, entries);
    assert [] + pushed == pushed;
    WrongWayRound(t, listing, dir, pushed, a, b, files, directories, p, q);
    var u, lower, v, upper, w :| Walk(t, listing, pushed, files, directories) == u + lower + v + upper + w &&
                                 q in lower && p in upper;
    NotLevelInside(pre, PathsOf(dir, Kept(entries, files, directories)), u, lower, v, upper, w, post, p, q);
  }

  lemma PartedParents(p: Path, q: Path, i: nat)
    requires p != [] && q != [] && i < |Parent(p)| <= |Parent(q)|
    requires Parent(p)[..i] == Parent(q)[..i] && Parent(p)[i] != Parent(q)[i]
    ensures i + 1 < |p| && i + 1 < |q| && p[..i] == q[..i] && p[i] != q[i]
  {
    assert Parent(p)[..i] == p[..i] && Parent(q)[..i] == q[..i];
  }

  /** What two wanted paths that part at depth i say about the tree. */
  lemma PartedPaths(t: Tree, start: Path, files: bool, directories: bool, p: Path, q: Path, i: nat)
    requires WellFormed(t) && p in Deep(t, [start], files, directories) && q in Deep(t, [start], files, directories)
    requires i + 1 < |p| && i + 1 < |q| && p[..i] == q[..i] && p[i] != q[i]
    ensures var dir := p[..i];
            && InSubtree(start, dir) && IsDirectory(t, dir)
            && IsDirectory(t, dir + [p[i]]) && IsDirectory(t, dir + [q[i]])
            && Below(dir + [p[i]], p) && Below(dir + [q[i]], q)
            && Wanted(t[p], files, directories) && Wanted(t[q], files, directories) && p in t && q in t
  {
    hide Deep, Wanted, WellFormed, Below, InSubtree;
    DeepOfOne(t, start, files, directories, p);
    DeepOfOne(t, start, files, directories, q);
    PartOf(t, p, i);
    PartOf(t, q, i);
    StartIsAbove(start, p, q, i);
  }

  lemma DeepOfOne(t: Tree, start: Path, files: bool, directories: bool, p: Path)
    ensures p in Deep(t, [start], files, directories) <==> p in t && Wanted(t[p], files, directories) && Below(start, p)
  {
    hide Below, Wanted;
    BelowSomeOfOne(start, p);
  }

  lemma PartOf(t: Tree, p: Path, i: nat)
    requires WellFormed(t) && p in t && i + 1 < |p|
    ensures IsDirectory(t, p[..i]) && IsDirectory(t, p[..i] + [p[i]]) && Below(p[..i] + [p[i]], p)
  {
    hide WellFormed;
    PrefixIsDirectory(t, p, i);
    PrefixIsDirectory(t, p, i + 1);
    assert p[..i + 1] == p[..i] + [p[i]];
  }

  lemma StartIsAbove(start: Path, p: Path, q: Path, i: nat)
    requires Below(start, p) && Below(start, q) && i < |p| && i < |q| && p[i] != q[i]
    ensures InSubtree(start, p[..i])
  {
    forall k | 0 <= k < |start|
      ensures p[k] == q[k]
    {
      assert p[..|start|][k] == q[..|start|][k];
    }
    SliceOfFront(p, i, |start|);
  }

  lemma SliceOfFront(p: Path, i: nat, n: nat)
    requires n <= i <= |p|
    ensures p[..i][..n] == p[..n] && (n == i ==> p[..i] == p[..n])
  {
  }

  /** The exact condition: a tree is enumerated level by level, however its directories
      list their entries, exactly if all wanted paths are aligned. */
  lemma LevelOrderExactly(t: Tree, start: Path, files: bool, directories: bool)
    requires WellFormed(t) && PendingOk([start])
    ensures (forall listing :: IsListing(t, listing) ==> LevelOrder(Walk(t, listing, [start], files, directories)))
            <==> Aligned(t, start, files, directories)
  {
    hide Walk, WellFormed, PendingOk, IsListing, Deep, LevelOrder, InSubtree;
    if Aligned(t, start, files, directories) {
      forall listing | IsListing(t, listing)
        ensures LevelOrder(Walk(t, listing, [start], files, directories))
      {
        AlignedWalkIsLevel(t, listing, start, files, directories);
      }
    } else {
      var p, q := Misaligned(t, start, files, directories);
      var listing := MisalignedIsNotLevel(t, start, files, directories, p, q);
    }
  }

  lemma Misaligned(t: Tree, start: Path, files: bool, directories: bool) returns (p: Path, q: Path)
    requires !Aligned(t, start, files, directories)
    ensures p in Deep(t, [start], files, directories) && q in Deep(t, [start], files, directories) && |p| < |q|
    ensures p != [] && q != [] && !InSubtree(Parent(p), Parent(q))
  {
    hide InSubtree;
    p, q :| p in Deep(t, [start], files, directories) && q in Deep(t, [start], files, directories) && |p| < |q| &&
            !(p != [] && q != [] && InSubtree(Parent(p), Parent(q)));
    BelowSomeOfOne(start, p);
    BelowSomeOfOne(start, q);
  }
}
