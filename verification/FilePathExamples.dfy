/** The examples in the unit tests of the path algebra, worked out. */
module FilePathExamples {
  import opened Prelude
  import opened PathStrings
  import opened FilePaths

  // ---------- Directory and base names ----------

  lemma Trimmed(path: string, r: string, separators: string)
    requires path == r + separators && AreAllSeparators(separators) && !EndsInSeparator(r)
    ensures RightTrim(path) == r
  {
    assert path[|r|..] == separators;
    RightTrimIs(path, r);
  }

  /** Paths of separators only, and the empty path. */
  lemma Roots()
    ensures StripTrailingSeparators("") == "" && DirName("") == "." && BaseName("") == ""
    ensures StripTrailingSeparators("/") == DirName("/") == BaseName("/") == "/"
    ensures StripTrailingSeparators("//") == DirName("//") == BaseName("//") == "//"
    ensures StripTrailingSeparators("///") == DirName("///") == BaseName("///") == "/"
    ensures StripTrailingSeparators("////") == DirName("////") == BaseName("////") == "/"
  {
    hide DirName, BaseName, StripTrailingSeparators;
    NoPath();
    AllSeparatorsStep("/");
    AllSeparatorsStep("//");
    AllSeparatorsStep("///");
    AllSeparatorsStep("////");
  }

  lemma NoPath()
    ensures StripTrailingSeparators("") == "" && DirName("") == "." && BaseName("") == ""
  {
    Trimmed("", "", "");
  }

  lemma InTheRoot()
    ensures DirName("a") == "." && BaseName("a") == "a"
    ensures DirName("/a") == "/" && BaseName("/a") == "a"
    ensures DirName("//a/") == "//" && BaseName("//a/") == "a" && StripTrailingSeparators("//a/") == "//a"
    ensures DirName("///a") == "//" && DirName("////a") == "/"
  {
    hide DirName, BaseName, StripTrailingSeparators, RightTrim;
    PathParts("a", "", "a", "");
    PathParts("/a", "/", "a", "");
    PathParts("//a/", "//", "a", "/");
    PathParts("///a", "///", "a", "");
    PathParts("////a", "////", "a", "");
  }

  lemma FurtherDown()
    ensures DirName("/a/b") == "/a" && BaseName("/a/b") == "b"
    ensures DirName("a//b//") == "a" && BaseName("a//b//") == "b" && StripTrailingSeparators("a//b//") == "a//b"
  {
    hide DirName, BaseName, StripTrailingSeparators, RightTrim;
    PathParts("/a/b", "/a/", "b", "");
    Trimmed("/a/", "/a", "/");
    PathParts("a//b//", "a//", "b", "//");
    Trimmed("a//", "a", "//");
  }

  // ---------- Appending ----------

  /** Appending nothing strips the path. */
  lemma AppendNothing(path: string)
    ensures Append(path, "") == if path == "." then "" else StripTrailingSeparators(path)
  {
    hide StripTrailingSeparators;
    assert StripTrailingSeparators(path) + "" == StripTrailingSeparators(path);
  }

  lemma Appended()
    ensures Append("", "c") == "c" && Append(".", "c") == "c"
    ensures Append("/", "c") == "/c" && Append("//", "c") == "//c" && Append("///", "c") == "/c"
    ensures Append("/a/", "") == "/a" && Append("/a/", "b/c") == "/a/b/c" && Append("/a", "b") == "/a/b"
  {
    hide StripTrailingSeparators;
    NoPath();
    Roots();
    PathParts("/a/", "/", "a", "/");
    PathParts("/a", "/", "a", "");
  }

  // ---------- Components ----------

  /** One component more than the directory. */
  lemma OneComponent(path: string, dir: string, base: string, components: seq<string>)
    requires path != dir && path != "" && DirName(path) == dir && BaseName(path) == base && Components(dir) == components
    requires base != "" && NoSeparator(base)
    ensures Components(path) == components + [base]
  {
    hide DirName, BaseName, Components;
    ComponentsStep(path);
    assert !IsSeparator(base[0]);
  }

  lemma SomeComponents()
    ensures Components("") == [] && Components(".") == [] && Components("/") == ["/"] && Components("///") == ["/"]
    ensures Components("//") == ["//"] && Components("//a") == ["//", "a"] && Components("///a") == ["//", "a"]
    ensures Components("/a/b") == ["/", "a", "b"] && Components("a//b//") == ["a", "b"] && Components("./a") == ["a"]
  {
    hide DirName, BaseName, Components, StripTrailingSeparators, RightTrim;
    EmptyComponents();
    DotComponents();
    AllSeparatorsStep("/");
    AllSeparatorsStep("//");
    AllSeparatorsStep("///");
    PathParts("//a", "//", "a", "");
    OneComponent("//a", "//", "a", ["//"]);
    PathParts("///a", "///", "a", "");
    OneComponent("///a", "//", "a", ["//"]);
    InTheRoot();
    FurtherDown();
    OneComponent("/a", "/", "a", ["/"]);
    OneComponent("/a/b", "/a", "b", ["/"] + ["a"]);
    OneComponent("a", ".", "a", []);
    OneComponent("a//b//", "a", "b", [] + ["a"]);
    PathParts("./a", "./", "a", "");
    Trimmed("./", ".", "/");
    OneComponent("./a", ".", "a", []);
  }

  // ---------- Parents ----------

  lemma SomeParents()
    ensures IsParent("/", "/a/b") && IsParent("/a", "/a/b") && IsParent("a", "a//b//")
    ensures !IsParent("/a", "/a") && !IsParent("/a/b", "/a") && !IsParent("", "a") && !IsParent("a", "/a/b")
  {
    hide Components;
    SomeComponents();
    MoreComponents();
    assert ["/", "a", "b"][..1] == ["/"] && ["/", "a", "b"][..2] == ["/", "a"] && ["a", "b"][..1] == ["a"];
    assert ["a"][0] == "a" != "/" == ["/", "a", "b"][..1][0];
  }

  lemma MoreComponents()
    ensures Components("/a") == ["/", "a"] && Components("a") == ["a"]
  {
    hide DirName, BaseName, Components, StripTrailingSeparators, RightTrim;
    InTheRoot();
    AllSeparatorsStep("/");
    DotComponents();
    OneComponent("/a", "/", "a", ["/"]);
    OneComponent("a", ".", "a", []);
  }

  /** The path from a parent to its child is appended; a path to something else is left alone. */
  method AppendToAnother() returns (ok: bool, appended: Option<string>, refused: bool, left: Option<string>)
    ensures ok && appended == Some("c/a/b") && !refused && left == Some("c")
  {
    hide Components, Append, StripTrailingSeparators;
    SomeComponents();
    MoreComponents();
    SomeParents();
    var rest := ["/", "a", "b"][1..];
    assert rest == ["a", "b"] && rest[..1] == ["a"] && ["a"][..0] == [];
    AppendedToAnother();
    ok, appended := AppendRelativePath("/", "/a/b", Some("c"));
    refused, left := AppendRelativePath("/a/b", "/a", Some("c"));
  }

  /** A component is put after a separator. */
  lemma Joined(path: string, dir: string, name: string, component: string)
    requires path == dir + name && name != "" && NoSeparator(name) && (dir == "" || EndsInSeparator(dir))
    requires path != "." && component != ""
    ensures Append(path, component) == path + "/" + component
  {
    hide StripTrailingSeparators, DirName, BaseName, RightTrim;
    assert dir + name + "" == path;
    PathParts(path, dir, name, "");
    assert path[|path| - 1] == name[|name| - 1];
  }

  lemma AppendedToAnother()
    ensures Append("c", "a") == "c/a" && Append("c/a", "b") == "c/a/b"
  {
    hide Append;
    Joined("c", "", "c", "a");
    Joined("c/a", "c/", "a", "b");
  }

  // ---------- Extensions ----------

  lemma SomeExtensions()
    ensures Extension("/f/b.e") == ".e" && Extension("/f/b.") == "." && Extension("f..") == "." && Extension("a.b.c") == ".c"
    ensures Extension("/f/b") == "" && Extension(".") == "" && Extension("..") == "" && Extension("./f") == ""
    ensures Extension("/f.b/..") == "" && Extension("/f.b//") == ".b" && Extension("") == ""
  {
    hide Extension, RemoveExtension, BaseName;
    assert "b" + "." + "" == "b." && "f." + "." + "" == "f..";
    ExtensionParts("/f/b.e", "/f/", "b", "e", "");
    ExtensionParts("/f/b.", "/f/", "b", "", "");
    ExtensionParts("f..", "", "f.", "", "");
    ExtensionParts("a.b.c", "", "a.b", "c", "");
    NoExtension("/f/b", "/f/", "b", "");
    NoExtension(".", "", ".", "");
    NoExtension("..", "", "..", "");
    NoExtension("./f", "./", "f", "");
    NoExtension("/f.b/..", "/f.b/", "..", "");
    ExtensionParts("/f.b//", "/", "f", "b", "//");
    ExtensionOfSeparators("");
  }

  lemma SomeArePlain()
    ensures IsPlainExtension("txt") && IsPlainExtension(".txt") && !IsPlainExtension("") && !IsPlainExtension(".")
    ensures !IsPlainExtension("a.b") && !IsPlainExtension("a/b") && !IsPlainExtension("..")
  {
    assert Body("a.b")[1] == '.' && Body("a/b")[1] == '/' && Body("..")[0] == '.';
  }

  lemma SomeReplacements()
    ensures ReplaceExtension("foo.dll", "") == "foo" && ReplaceExtension("foo.dll", ".") == "foo"
    ensures ReplaceExtension("foo.dll", "txt") == "foo.txt" && ReplaceExtension("foo.dll", ".txt") == "foo.txt"
    ensures ReplaceExtension("foo", "") == "foo" && ReplaceExtension("foo", ".") == "foo" && ReplaceExtension("foo", "txt") == "foo.txt"
  {
    hide Extension, RemoveExtension, BaseName;
    ExtensionParts("foo.dll", "", "foo", "dll", "");
    NoExtension("foo", "", "foo", "");
    assert "foo" + "." + "txt" == "foo.txt" && "foo" + ".txt" == "foo.txt";
  }

  lemma NothingReplaced()
    ensures ReplaceExtension("", "txt") == "" && ReplaceExtension(".", "") == "" && ReplaceExtension("..", "txt") == ""
    ensures ReplaceExtension("/f.b/..//", "txt") == "" && ReplaceExtension("f..", "txt") == "f..txt"
  {
    hide Extension, RemoveExtension, BaseName;
    NoExtension(".", "", ".", "");
    NoExtension("..", "", "..", "");
    NoExtension("/f.b/..//", "/f.b/", "..", "//");
    ExtensionParts("f..", "", "f.", "", "");
    assert "f." + "." + "txt" == "f..txt";
  }
}
