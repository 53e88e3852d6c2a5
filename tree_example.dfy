/** `buildTree` on a small selection: a folder holding two files, and a
    file beside it. */
module TreeExample {
  import opened Strings
  import opened Results
  import opened Order
  import opened Tree

  const Selection: seq<string> := ["a/b.js", "a/c.js", "d.js"]

  const ExampleNodes: map<string, Kind> :=
    map["a" := Folder, "a/b.js" := File, "a/c.js" := File, "d.js" := File]

  lemma SplitNone(s: string)
    requires '/' !in s
    ensures Split(s, '/') == [s]
  {
  }

  lemma SplitOnce(a: string, b: string)
    requires '/' !in a && '/' !in b
    ensures Split(a + "/" + b, '/') == [a, b]
    ensures Prefix(a + "/" + b, 1) == a
  {
    SplitAppend(a, '/', b);
    assert a + "/" + b == a + ['/'] + b;
    SplitNone(a);
    SplitNone(b);
    assert [a, b][..1] == [a];
  }

  lemma ExampleSplits()
    ensures Split("a/b.js", '/') == ["a", "b.js"] && Prefix("a/b.js", 1) == "a"
    ensures Split("a/c.js", '/') == ["a", "c.js"] && Prefix("a/c.js", 1) == "a"
    ensures Split("d.js", '/') == ["d.js"]
    ensures Split("a", '/') == ["a"]
  {
    assert "a/b.js" == "a" + "/" + "b.js";
    assert "a/c.js" == "a" + "/" + "c.js";
    assert '/' !in "b.js" && '/' !in "c.js" && '/' !in "d.js" && '/' !in "a";
    SplitOnce("a", "b.js");
    SplitOnce("a", "c.js");
    SplitNone("d.js");
    SplitNone("a");
  }

  lemma ExampleAncestors()
    ensures Ancestors("a/b.js") == {"a"}
    ensures Ancestors("a/c.js") == {"a"}
    ensures Ancestors("d.js") == {}
  {
    ExampleSplits();
  }

  lemma ExampleFolders()
    ensures FoldersOf({"a/b.js", "a/c.js", "d.js"}) == {"a"}
  {
    ExampleAncestors();
    assert "a" in Ancestors("a/b.js");
    FoldersOfAre({"a/b.js", "a/c.js", "d.js"}, {"a"});
  }

  lemma FoldersOfAre(paths: set<string>, folders: set<string>)
    requires forall s :: s in paths ==> Ancestors(s) <= folders
    requires forall a :: a in folders ==> exists s :: s in paths && a in Ancestors(s)
    ensures FoldersOf(paths) == folders
  {
  }

  /** The nodes: the folder `a` and the three files. */
  lemma ExampleNodesAre()
    ensures Nodes(Elements(Selection)) == ExampleNodes
  {
    SelectedPaths();
    ExampleFolders();
    ExampleBuilt();
  }

  lemma SelectedPaths()
    ensures Elements(Selection) == {"a/b.js", "a/c.js", "d.js"}
  {
  }

  lemma ExampleBuilt()
    ensures Build({"a/b.js", "a/c.js", "d.js"}, {"a"}) == ExampleNodes
  {
    var m := Build({"a/b.js", "a/c.js", "d.js"}, {"a"});
    assert m.Keys == ExampleNodes.Keys;
    assert m["a"] == Folder && m["d.js"] == File;
  }

  /** A node map with the nodes of the example: the folder `a` and the
      three files. */
  predicate ExampleShaped(nodes: map<string, Kind>) {
    nodes.Keys == {"a", "a/b.js", "a/c.js", "d.js"}
    && nodes["a"] == Folder && nodes["d.js"] == File
    && nodes["a/b.js"] == File && nodes["a/c.js"] == File
  }

  lemma ExampleLookups()
    ensures ExampleShaped(ExampleNodes)
  {
    assert |"a"| == 1 && |"d.js"| == 4 && |"a/b.js"| == 6 && |"a/c.js"| == 6;
    assert "a/b.js"[2] != "a/c.js"[2];
  }

  lemma RootFolders(nodes: map<string, Kind>)
    requires ExampleShaped(nodes)
    ensures Children(nodes, "", Folder) == {"a"}
  {
    ExampleSplits();
    assert IsChild("a", "");
  }

  lemma RootFiles(nodes: map<string, Kind>)
    requires ExampleShaped(nodes)
    ensures Children(nodes, "", File) == {"d.js"}
  {
    ExampleSplits();
    assert !IsChild("a/b.js", "") && !IsChild("a/c.js", "") && IsChild("d.js", "");
  }

  lemma InnerFolders(nodes: map<string, Kind>)
    requires ExampleShaped(nodes)
    ensures Children(nodes, "a", Folder) == {}
  {
  }

  lemma InnerFiles(nodes: map<string, Kind>)
    requires ExampleShaped(nodes)
    ensures Children(nodes, "a", File) == {"a/b.js", "a/c.js"}
  {
    ExampleSplits();
    assert StartsWith("a/b.js", "a" + "/") && StartsWith("a/c.js", "a" + "/");
    assert IsChild("a/b.js", "a") && IsChild("a/c.js", "a") && !IsChild("d.js", "a");
  }

  /** The listing of a parent without folders: its files in order. */
  lemma LeafListing(nodes: map<string, Kind>, parent: string, files: set<string>)
    requires Terminates(nodes)
    requires Children(nodes, parent, Folder) == {}
    requires Children(nodes, parent, File) == files
    ensures Listing(nodes, parent) == FileEntries(SortedPaths(files))
  {
    assert SortedPaths({}) == [];
    ListingUnfold(nodes, parent);
  }

  /** The listing of a parent with one folder `f`: the folder, its listing,
      then the parent's files in order. */
  lemma OneFolderListing(nodes: map<string, Kind>, parent: string, f: string, files: set<string>)
    requires Terminates(nodes)
    requires Children(nodes, parent, Folder) == {f}
    requires Children(nodes, parent, File) == files
    ensures Listing(nodes, parent) ==
      [Entry(f, Folder)] + Listing(nodes, f) + FileEntries(SortedPaths(files))
  {
    SortedOne(f);
    ListingUnfold(nodes, parent);
    assert [f][..0] == [];
    assert ListFolders(nodes, parent, [f]) == [Entry(f, Folder)] + Listing(nodes, f);
  }

  lemma SortedOne(x: string)
    ensures SortedPaths({x}) == [x]
  {
    SortedPathsShape({x});
    var r := SortedPaths({x});
    assert r[0] in Elements(r);
  }

  lemma SortedFiles()
    ensures SortedPaths({"a/b.js", "a/c.js"}) == ["a/b.js", "a/c.js"]
  {
    SortedPathsShape({"a/b.js", "a/c.js"});
    assert LexLess("a/b.js", "a/c.js") by {
      assert "a/b.js"[1..] == "/b.js" && "a/c.js"[1..] == "/c.js";
      assert "/b.js"[1..] == "b.js" && "/c.js"[1..] == "c.js";
    }
    assert Elements(["a/b.js", "a/c.js"]) == {"a/b.js", "a/c.js"};
    SortedUnique(SortedPaths({"a/b.js", "a/c.js"}), ["a/b.js", "a/c.js"]);
  }

  lemma ExampleListingOfA(nodes: map<string, Kind>)
    requires ExampleShaped(nodes)
    ensures Listing(nodes, "a") == [Entry("a/b.js", File), Entry("a/c.js", File)]
  {
    InnerFolders(nodes);
    InnerFiles(nodes);
    LeafListing(nodes, "a", {"a/b.js", "a/c.js"});
    SortedFiles();
    FileEntriesOf("a/b.js", "a/c.js");
  }

  lemma FileEntriesOf(x: string, y: string)
    ensures FileEntries([x]) == [Entry(x, File)]
    ensures FileEntries([x, y]) == [Entry(x, File), Entry(y, File)]
  {
  }

  lemma ExampleListingOfRoot(nodes: map<string, Kind>)
    requires ExampleShaped(nodes)
    ensures Listing(nodes, "") ==
      [Entry("a", Folder), Entry("a/b.js", File), Entry("a/c.js", File), Entry("d.js", File)]
  {
    RootFolders(nodes);
    RootFiles(nodes);
    OneFolderListing(nodes, "", "a", {"d.js"});
    SortedOne("d.js");
    FileEntriesOf("d.js", "d.js");
    ExampleListingOfA(nodes);
    Spliced(Entry("a", Folder), Entry("a/b.js", File), Entry("a/c.js", File), Entry("d.js", File));
  }

  lemma Spliced<T>(a: T, b: T, c: T, d: T)
    ensures [a] + [b, c] + [d] == [a, b, c, d]
  {
  }

  /** The folder first, then what it holds, then the file beside it. */
  lemma TreeOfExample()
    ensures TreeOf(Elements(Selection)) ==
      Some([Entry("a", Folder), Entry("a/b.js", File), Entry("a/c.js", File), Entry("d.js", File)])
  {
    ExampleNodesAre();
    ExampleLookups();
    ExampleListingOfRoot(ExampleNodes);
  }
}
