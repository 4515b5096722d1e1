/** A finite file system as a map from paths to kinds, and the calls that list a
    directory and remove entries. A path is the sequence of names from the root. */
module FileTrees {

  type Path = seq<string>

  datatype Kind = File | Directory

  type Tree = map<Path, Kind>

  /** What a directory listing says about one entry. */
  datatype Entry = Entry(name: string, kind: Kind)

  predicate IsDots(name: string) {
    name == "." || name == ".."
  }

  predicate Below(dir: Path, p: Path) {
    |dir| < |p| && p[..|dir|] == dir
  }

  predicate InSubtree(path: Path, q: Path) {
    q == path || Below(path, q)
  }

  function Parent(p: Path): Path
    requires p != []
  {
    p[..|p| - 1]
  }

  /** Everything lies in a directory of the tree. */
  ghost predicate WellFormed(t: Tree) {
    forall p :: p in t && p != [] ==>
      Parent(p) in t && t[Parent(p)].Directory? && !IsDots(p[|p| - 1])
  }

  lemma WellFormedSpelledOut(t: Tree)
    ensures WellFormed(t) <==>
            forall p :: p in t && p != [] ==>
              p[..|p| - 1] in t && t[p[..|p| - 1]] == Directory && p[|p| - 1] != "." && p[|p| - 1] != ".."
  {
  }

  /** The entry is a child of dir, or one of the two names every directory lists. */
  predicate IsEntryOf(t: Tree, dir: Path, e: Entry) {
    if IsDots(e.name) then e.kind.Directory? else dir + [e.name] in t && t[dir + [e.name]] == e.kind
  }

  /** The entries of a directory, each once, in whatever order. */
  ghost predicate Lists(t: Tree, dir: Path, entries: seq<Entry>) {
    && (forall k :: 0 <= k < |entries| ==> IsEntryOf(t, dir, entries[k]))
    && (forall j, k :: 0 <= j < k < |entries| ==> entries[j].name != entries[k].name)
    && (forall name :: dir + [name] in t ==> Entry(name, t[dir + [name]]) in entries)
  }

  /** A listing, spelled out. */
  lemma ListsSpelledOut(t: Tree, dir: Path, entries: seq<Entry>)
    requires Lists(t, dir, entries)
    ensures forall j, k :: 0 <= j < k < |entries| ==> entries[j].name != entries[k].name
    ensures forall k :: 0 <= k < |entries| ==>
              || (entries[k].name in [".", ".."] && entries[k].kind == Directory)
              || (dir + [entries[k].name] in t && t[dir + [entries[k].name]] == entries[k].kind)
    ensures forall name :: dir + [name] in t ==> exists k :: 0 <= k < |entries| && entries[k] == Entry(name, t[dir + [name]])
  {
  }

  /** A listing from which the paths in `rest` may be missing. */
  ghost predicate ListsExcept(t: Tree, dir: Path, entries: seq<Entry>, rest: set<Path>) {
    && (forall k :: 0 <= k < |entries| ==> IsEntryOf(t, dir, entries[k]))
    && (forall k :: 0 <= k < |entries| ==> IsDots(entries[k].name) || dir + [entries[k].name] !in rest)
    && (forall j, k :: 0 <= j < k < |entries| ==> entries[j].name != entries[k].name)
    && (forall name :: dir + [name] in t && dir + [name] !in rest ==> Entry(name, t[dir + [name]]) in entries)
  }

  lemma ListsOneMore(t: Tree, dir: Path, entries: seq<Entry>, rest: set<Path>, p: Path)
    requires WellFormed(t) && ListsExcept(t, dir, entries, rest) && p in rest && p in t
    ensures p != [] && Parent(p) == dir ==>
              ListsExcept(t, dir, entries + [Entry(p[|p| - 1], t[p])], rest - {p})
    ensures !(p != [] && Parent(p) == dir) ==> ListsExcept(t, dir, entries, rest - {p})
  {
    hide ListsExcept, WellFormed;
    if p != [] && Parent(p) == dir {
      LastIsNoDots(t, p);
      assert p == dir + [p[|p| - 1]];
      ListsChild(t, dir, entries, rest, p[|p| - 1]);
    } else {
      ListsOther(t, dir, entries, rest, p);
    }
  }

  lemma LastIsNoDots(t: Tree, p: Path)
    requires WellFormed(t) && p in t && p != []
    ensures !IsDots(p[|p| - 1])
  {
  }

  lemma ListsOther(t: Tree, dir: Path, entries: seq<Entry>, rest: set<Path>, p: Path)
    requires ListsExcept(t, dir, entries, rest) && !(p != [] && Parent(p) == dir)
    ensures ListsExcept(t, dir, entries, rest - {p})
  {
    assert forall name :: Parent(dir + [name]) == dir;
  }

  lemma ListsChild(t: Tree, dir: Path, entries: seq<Entry>, rest: set<Path>, name: string)
    requires ListsExcept(t, dir, entries, rest) && dir + [name] in rest && dir + [name] in t && !IsDots(name)
    ensures ListsExcept(t, dir, entries + [Entry(name, t[dir + [name]])], rest - {dir + [name]})
  {
    var e := Entry(name, t[dir + [name]]);
    var more := entries + [e];
    forall other | dir + [other] in t && dir + [other] !in rest - {dir + [name]}
      ensures Entry(other, t[dir + [other]]) in more
    {
      if other == name {
        assert more[|entries|] == e;
      } else {
        assert (dir + [other])[|dir|] == other && (dir + [name])[|dir|] == name;
        assert Entry(other, t[dir + [other]]) in entries;
      }
    }
    forall k | 0 <= k < |entries|
      ensures entries[k].name != name
    {
      assert IsDots(entries[k].name) || dir + [entries[k].name] !in rest;
    }
  }

  lemma ListsNothing(t: Tree, dir: Path)
    ensures ListsExcept(t, dir, [Entry("..", Directory), Entry(".", Directory)], t.Keys)
  {
  }

  lemma ListsAll(t: Tree, dir: Path, entries: seq<Entry>)
    requires ListsExcept(t, dir, entries, {})
    ensures Lists(t, dir, entries)
  {
  }

  ghost predicate IsEmptyDirectory(t: Tree, p: Path) {
    p in t && t[p].Directory? && forall q :: q in t ==> !(q != [] && Parent(q) == p)
  }

  /** Something below a directory lies in it, or below one of its directories. */
  lemma {:induction false} StepTowards(t: Tree, dir: Path, p: Path) returns (child: Path)
    requires WellFormed(t) && p in t && Below(dir, p)
    ensures child in t && child == p[..|dir| + 1] && child == dir + [child[|dir|]]
    ensures child != p ==> Below(child, p) && t[child].Directory?
    ensures dir in t && t[dir].Directory?
    decreases |p|
  {
    child := p[..|dir| + 1];
    ChildSlices(dir, p);
    if |p| > |dir| + 1 {
      var c := StepTowards(t, dir, Parent(p));
    }
  }

  lemma ChildSlices(dir: Path, p: Path)
    requires Below(dir, p)
    ensures p[..|dir| + 1] == dir + [p[|dir|]]
    ensures |p| == |dir| + 1 ==> p[..|dir| + 1] == p && Parent(p) == dir
    ensures |p| > |dir| + 1 ==> Below(dir, Parent(p)) && Parent(p)[..|dir| + 1] == p[..|dir| + 1] && Below(p[..|dir| + 1], p)
  {
  }

  datatype Info = Found(kind: Kind) | NotFound | Unknown

  class FileSystem {
    var nodes: Tree
    const reliable: bool   // no call fails without a reason in the tree

    method Stat(p: Path) returns (info: Info)
      ensures info.Found? ==> p in nodes && info.kind == nodes[p]
      ensures info.NotFound? ==> p !in nodes
      ensures reliable ==> !info.Unknown?
    {
      var refused := *;
      if refused && !reliable {
        return Unknown;
      }
      info := if p in nodes then Found(nodes[p]) else NotFound;
    }

    method ReadDirectory(dir: Path) returns (ok: bool, entries: seq<Entry>)
      requires WellFormed(nodes)
      ensures ok ==> dir in nodes && nodes[dir].Directory? && Lists(nodes, dir, entries)
      ensures reliable && dir in nodes && nodes[dir].Directory? ==> ok
    {
      hide ListsExcept, Lists, WellFormed;
      var refused := *;
      if dir !in nodes || nodes[dir].File? || (refused && !reliable) {
        return false, [];
      }
      entries := [Entry("..", Directory), Entry(".", Directory)];
      ListsNothing(nodes, dir);
      var rest := nodes.Keys;
      ok := true;
      while |rest| != 0
        invariant rest <= nodes.Keys && ListsExcept(nodes, dir, entries, rest)
        invariant |rest| == 0 ==> rest == {}
        decreases rest
      {
        var p: Path :| p in rest;
        ListsOneMore(nodes, dir, entries, rest, p);
        if p != [] && Parent(p) == dir {
          entries := entries + [Entry(p[|p| - 1], nodes[p])];
        }
        rest := rest - {p};
      }
      ListsAll(nodes, dir, entries);
    }

    method Unlink(p: Path) returns (ok: bool)
      modifies this`nodes
      ensures ok ==> p in old(nodes) && old(nodes)[p].File? && nodes == old(nodes) - {p}
      ensures !ok ==> nodes == old(nodes)
      ensures reliable && p in old(nodes) && old(nodes)[p].File? ==> ok
    {
      var refused := *;
      ok := p in nodes && nodes[p].File? && !(refused && !reliable);
      if ok {
        nodes := nodes - {p};
      }
    }

    /** Only an empty directory can be removed. */
    method Rmdir(p: Path) returns (ok: bool)
      modifies this`nodes
      ensures ok ==> IsEmptyDirectory(old(nodes), p) && nodes == old(nodes) - {p}
      ensures !ok ==> nodes == old(nodes)
      ensures reliable && IsEmptyDirectory(old(nodes), p) ==> ok
    {
      var refused := *;
      ok := p in nodes && nodes[p].Directory? && (forall q :: q in nodes ==> !(q != [] && Parent(q) == p))
            && !(refused && !reliable);
      if ok {
        nodes := nodes - {p};
      }
    }
  }
}
