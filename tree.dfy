/** `buildTree` of parse-frames.js: the file-explorer listing of every path
    selected so far, with the folders those paths live in, in pre-order,
    folders before files at each level and each group sorted. */
module Tree {
  import opened Strings
  import opened Results
  import opened Order

  datatype Kind = File | Folder

  /** One row of the listing: `{ path, type }`. */
  datatype Entry = Entry(path: string, kind: Kind)

  // ── Paths and their folders ────────────────────────────────────────────────

  /** `parts.slice(0, i).join('/')` with `parts = path.split('/')`. */
  function Prefix(path: string, i: nat): string
    requires i <= |Split(path, '/')|
  {
    Join(Split(path, '/')[..i], '/')
  }

  /** The prefixes made of the first `1 .. n - 1` parts of `path`. */
  function PrefixesBelow(path: string, n: nat): set<string>
    requires n <= |Split(path, '/')|
  {
    set i | 1 <= i < n :: Prefix(path, i)
  }

  /** The folders `buildTree` adds for `path`: every proper prefix of it that
      ends just before a `/`. */
  function Ancestors(path: string): set<string> {
    PrefixesBelow(path, |Split(path, '/')|)
  }

  lemma PrefixParts(path: string, i: nat)
    requires 1 <= i <= |Split(path, '/')|
    ensures Split(Prefix(path, i), '/') == Split(path, '/')[..i]
  {
    var P := Split(path, '/');
    assert forall k :: 0 <= k < i ==> P[..i][k] == P[k];
    SplitJoin(P[..i], '/');
  }

  lemma PrefixWhole(path: string)
    ensures Prefix(path, |Split(path, '/')|) == path
  {
    var P := Split(path, '/');
    assert P[..|P|] == P;
    JoinSplit(path, '/');
  }

  /** A shorter prefix, followed by `/`, starts every longer one. */
  lemma PrefixNested(path: string, i: nat, j: nat)
    requires 1 <= i < j <= |Split(path, '/')|
    ensures StartsWith(Prefix(path, j), Prefix(path, i) + "/")
  {
    var P := Split(path, '/');
    assert P[..j] == P[..i] + P[i..j];
    JoinAppend(P[..i], P[i..j], '/');
    var a := Prefix(path, i);
    var b := Join(P[i..j], '/');
    assert Prefix(path, j) == a + ['/'] + b;
    assert (a + ['/'] + b)[..|a| + 1] == a + "/";
  }

  /** The parts of a path below `f` are the parts of `f` followed by the
      parts of the rest. */
  lemma SplitUnder(p: string, f: string)
    requires StartsWith(p, f + "/")
    ensures Split(p, '/') == Split(f, '/') + Split(p[|f| + 1..], '/')
  {
    var rest := p[|f| + 1..];
    assert p == p[..|f| + 1] + rest;
    assert p == f + ['/'] + rest;
    SplitAppend(f, '/', rest);
  }

  /** `c` is one of the folders of `p` exactly when `p` starts with `c/`. */
  lemma AncestorIff(p: string, c: string)
    ensures c in Ancestors(p) <==> StartsWith(p, c + "/")
  {
    var P := Split(p, '/');
    if StartsWith(p, c + "/") {
      SplitUnder(p, c);
      var i := |Split(c, '/')|;
      assert P[..i] == Split(c, '/');
      JoinSplit(c, '/');
      assert Prefix(p, i) == c;
    }
    if c in Ancestors(p) {
      var i :| 1 <= i < |P| && Prefix(p, i) == c;
      PrefixNested(p, i, |P|);
      PrefixWhole(p);
    }
  }

  lemma StartsWithTrans(x: string, c: string, f: string)
    requires StartsWith(x, c + "/") && StartsWith(c, f + "/")
    ensures StartsWith(x, f + "/")
  {
    assert x[..|f| + 1] == x[..|c| + 1][..|f| + 1];
    assert (c + "/")[..|f| + 1] == c[..|f| + 1];
  }

  // ── The node map ──────────────────────────────────────────────────────────

  /** The folders of all of `paths`. */
  function FoldersOf(paths: set<string>): set<string> {
    set s, a | s in paths && a in Ancestors(s) :: a
  }

  /** A node map in which `files` are files and the rest of `folders` are
      folders. */
  function Build(files: set<string>, folders: set<string>): map<string, Kind> {
    map p | p in files + folders :: if p in files then File else Folder
  }

  /** The node map `buildTree` fills for the selected `paths`. */
  function Nodes(paths: set<string>): map<string, Kind> {
    Build(paths, FoldersOf(paths))
  }

  /** The nodes are the selected paths and their folders; a node is a file
      exactly when it was selected, whatever the order of selection. */
  lemma NodesShape(paths: set<string>)
    ensures forall p :: p in Nodes(paths) <==> p in paths || exists s :: s in paths && StartsWith(s, p + "/")
    ensures forall p :: p in Nodes(paths) ==> (Nodes(paths)[p] == File <==> p in paths)
  {
    forall p ensures p in FoldersOf(paths) <==> exists s :: s in paths && StartsWith(s, p + "/") {
      forall s | s in paths ensures p in Ancestors(s) <==> StartsWith(s, p + "/") {
        AncestorIff(s, p);
      }
    }
  }

  lemma BuildFile(files: set<string>, folders: set<string>, x: string)
    ensures Build(files + {x}, folders) == Build(files, folders)[x := File]
  {
  }

  lemma BuildFolder(files: set<string>, folders: set<string>, x: string)
    ensures x in Build(files, folders) ==> Build(files, folders + {x}) == Build(files, folders)
    ensures x !in Build(files, folders) ==> Build(files, folders + {x}) == Build(files, folders)[x := Folder]
  {
    if x in Build(files, folders) {
      assert files + (folders + {x}) == files + folders;
    }
  }

  lemma FoldersOfAdd(paths: set<string>, x: string)
    ensures FoldersOf(paths + {x}) == FoldersOf(paths) + Ancestors(x)
  {
  }

  /** The loop of `buildTree` over the selected paths and their parts. */
  method CollectNodes(selected: seq<string>) returns (nodes: map<string, Kind>)
    ensures nodes == Nodes(Elements(selected))
  {
    nodes := map[];
    for k := 0 to |selected|
      invariant nodes == Nodes(Elements(selected[..k]))
    {
      var filePath := selected[k];
      ghost var seen := Elements(selected[..k]);
      assert Elements(selected[..k + 1]) == seen + {filePath} by {
        assert selected[..k + 1] == selected[..k] + [filePath];
      }
      BuildFile(seen, FoldersOf(seen), filePath);
      nodes := nodes[filePath := File];
      var parts := Split(filePath, '/');
      assert FoldersOf(seen) + PrefixesBelow(filePath, 1) == FoldersOf(seen);
      for i := 1 to |parts|
        invariant nodes == Build(seen + {filePath}, FoldersOf(seen) + PrefixesBelow(filePath, i))
      {
        var folderPath := Join(parts[..i], '/');
        assert folderPath == Prefix(filePath, i);
        assert PrefixesBelow(filePath, i + 1) == PrefixesBelow(filePath, i) + {folderPath};
        ghost var folders := FoldersOf(seen) + PrefixesBelow(filePath, i);
        BuildFolder(seen + {filePath}, folders, folderPath);
        assert folders + {folderPath} == FoldersOf(seen) + PrefixesBelow(filePath, i + 1);
        if folderPath !in nodes {
          nodes := nodes[folderPath := Folder];
        }
      }
      FoldersOfAdd(seen, filePath);
    }
    assert selected[..|selected|] == selected;
  }

  // ── Children and the traversal ───────────────────────────────────────────

  /** `parentDepth`: the number of parts of `parent`, 0 for the root `""`. */
  function Depth(parent: string): nat {
    if parent == "" then 0 else |Split(parent, '/')|
  }

  /** The test `getChildren` applies to each node. */
  predicate IsChild(p: string, parent: string) {
    |Split(p, '/')| == Depth(parent) + 1 && (parent == "" || StartsWith(p, parent + "/"))
  }

  /** The paths `getChildren(parent)` returns with type `kind`. */
  function Children(nodes: map<string, Kind>, parent: string, kind: Kind): set<string> {
    set p | p in nodes && nodes[p] == kind && IsChild(p, parent)
  }

  /** A child of the root is a node without a `/`. */
  lemma RootChild(p: string)
    ensures IsChild(p, "") <==> Ancestors(p) == {}
  {
    if |Split(p, '/')| >= 2 { assert Prefix(p, 1) in Ancestors(p); }
  }

  /** A child of a folder is a node whose last `/` ends that folder. */
  lemma FolderChild(p: string, parent: string)
    requires parent != ""
    ensures IsChild(p, parent) <==> |Split(p, '/')| >= 2 && Prefix(p, |Split(p, '/')| - 1) == parent
  {
    if IsChild(p, parent) {
      ChildPrefix(p, parent);
    }
    if |Split(p, '/')| >= 2 && Prefix(p, |Split(p, '/')| - 1) == parent {
      PrefixChildOf(p, parent);
    }
  }

  lemma ChildPrefix(p: string, parent: string)
    requires StartsWith(p, parent + "/") && |Split(p, '/')| == |Split(parent, '/')| + 1
    ensures |Split(p, '/')| >= 2 && Prefix(p, |Split(p, '/')| - 1) == parent
  {
    SplitUnder(p, parent);
    JoinSplit(parent, '/');
    LastPartDropped(Split(p, '/'), Split(parent, '/'), Split(p[|parent| + 1..], '/'), parent);
  }

  lemma LastPartDropped(whole: seq<string>, front: seq<string>, last: seq<string>, parent: string)
    requires whole == front + last && |front| >= 1 && |last| == 1 && Join(front, '/') == parent
    ensures |whole| >= 2 && Join(whole[..|whole| - 1], '/') == parent
  {
    assert whole[..|whole| - 1] == front;
  }

  lemma PrefixChildOf(p: string, parent: string)
    requires parent != "" && |Split(p, '/')| >= 2 && Prefix(p, |Split(p, '/')| - 1) == parent
    ensures IsChild(p, parent)
  {
    var P := Split(p, '/');
    PrefixParts(p, |P| - 1);
    PrefixNested(p, |P| - 1, |P|);
    PrefixWhole(p);
  }

  /** `p` lies inside `parent`; every node lies inside the root. */
  predicate Under(p: string, parent: string) {
    parent == "" || StartsWith(p, parent + "/")
  }

  /** The nodes inside `parent`: what `dfs(parent)` has left to visit. */
  function Below(nodes: map<string, Kind>, parent: string): set<string> {
    set p | p in nodes && Under(p, parent)
  }

  /** `dfs('')` comes back: the root is not also a folder node, which it
      becomes when a selected path starts with `/`. */
  predicate Terminates(nodes: map<string, Kind>) {
    "" in nodes ==> nodes[""] == File
  }

  /** Visiting a child folder leaves strictly less to visit. */
  lemma BelowShrinks(nodes: map<string, Kind>, parent: string, c: string)
    requires Terminates(nodes) && c in Children(nodes, parent, Folder)
    ensures Below(nodes, c) < Below(nodes, parent)
  {
    assert c != "";
    assert c in Below(nodes, parent);
    assert c !in Below(nodes, c);
    forall x | x in Below(nodes, c) ensures x in Below(nodes, parent) {
      if parent != "" { StartsWithTrans(x, c, parent); }
    }
  }

  /** The listing that `dfs(parent)` pushes. */
  function Listing(nodes: map<string, Kind>, parent: string): seq<Entry>
    requires Terminates(nodes)
    decreases Below(nodes, parent), 1, 0
  {
    SortedPathsShape(Children(nodes, parent, Folder));
    ListFolders(nodes, parent, SortedPaths(Children(nodes, parent, Folder)))
    + FileEntries(SortedPaths(Children(nodes, parent, File)))
  }

  /** Each of the folders `fs`, followed by its own listing. */
  function ListFolders(nodes: map<string, Kind>, parent: string, fs: seq<string>): seq<Entry>
    requires Terminates(nodes)
    requires forall i :: 0 <= i < |fs| ==> fs[i] in Children(nodes, parent, Folder)
    decreases Below(nodes, parent), 0, |fs|
  {
    if fs == [] then []
    else
      BelowShrinks(nodes, parent, fs[|fs| - 1]);
      ListFolders(nodes, parent, fs[..|fs| - 1]) + [Entry(fs[|fs| - 1], Folder)] + Listing(nodes, fs[|fs| - 1])
  }

  function FileEntries(fs: seq<string>): (r: seq<Entry>)
    ensures |r| == |fs| && forall i :: 0 <= i < |fs| ==> r[i] == Entry(fs[i], File)
  {
    seq(|fs|, i requires 0 <= i < |fs| => Entry(fs[i], File))
  }

  /** The listing of a parent is its folders with their listings, then its
      files. */
  lemma ListingUnfold(nodes: map<string, Kind>, parent: string)
    requires Terminates(nodes)
    ensures forall i :: 0 <= i < |SortedPaths(Children(nodes, parent, Folder))| ==>
      SortedPaths(Children(nodes, parent, Folder))[i] in Children(nodes, parent, Folder)
    ensures Listing(nodes, parent) == ListFolders(nodes, parent, SortedPaths(Children(nodes, parent, Folder)))
      + FileEntries(SortedPaths(Children(nodes, parent, File)))
  {
    SortedPathsShape(Children(nodes, parent, Folder));
  }

  /** `dfs(parent)`, pushing onto `acc`. */
  method Dfs(nodes: map<string, Kind>, parent: string, acc: seq<Entry>) returns (result: seq<Entry>)
    requires Terminates(nodes)
    ensures result == acc + Listing(nodes, parent)
    decreases Below(nodes, parent), 1
  {
    ListingUnfold(nodes, parent);
    var folders := SortedPaths(Children(nodes, parent, Folder));
    var files := SortedPaths(Children(nodes, parent, File));
    var pushed := PushFolders(nodes, parent, folders, acc);
    result := PushFiles(files, pushed);
    AppendAssoc(acc, ListFolders(nodes, parent, folders), FileEntries(files));
  }

  lemma AppendAssoc(a: seq<Entry>, b: seq<Entry>, c: seq<Entry>)
    ensures a + b + c == a + (b + c)
  {
  }

  method PushFolders(nodes: map<string, Kind>, parent: string, folders: seq<string>, acc: seq<Entry>) returns (result: seq<Entry>)
    requires Terminates(nodes)
    requires forall i :: 0 <= i < |folders| ==> folders[i] in Children(nodes, parent, Folder)
    ensures result == acc + ListFolders(nodes, parent, folders)
    decreases Below(nodes, parent), 0
  {
    result := acc;
    for k := 0 to |folders|
      invariant result == acc + ListFolders(nodes, parent, folders[..k])
    {
      assert folders[..k + 1][..k] == folders[..k];
      result := result + [Entry(folders[k], Folder)];
      BelowShrinks(nodes, parent, folders[k]);
      result := Dfs(nodes, folders[k], result);
    }
    assert folders[..|folders|] == folders;
  }

  /** The second loop of `dfs`: each file pushed in turn. */
  method PushFiles(files: seq<string>, acc: seq<Entry>) returns (result: seq<Entry>)
    ensures result == acc + FileEntries(files)
  {
    result := acc;
    for k := 0 to |files|
      invariant result == acc + FileEntries(files[..k])
    {
      assert FileEntries(files[..k + 1]) == FileEntries(files[..k]) + [Entry(files[k], File)];
      result := result + [Entry(files[k], File)];
    }
    assert files[..|files|] == files;
  }

  /** What `buildTree(paths)` returns; `None` when `dfs('')` recurses
      without end. */
  function TreeOf(paths: set<string>): Option<seq<Entry>> {
    var nodes := Nodes(paths);
    if Terminates(nodes) then Some(Listing(nodes, "")) else None
  }

  /** `buildTree`. */
  method BuildTree(selected: seq<string>) returns (tree: Option<seq<Entry>>)
    ensures tree == TreeOf(Elements(selected))
  {
    var nodes := CollectNodes(selected);
    if "" in nodes && nodes[""] == Folder {
      return None;
    }
    assert Terminates(nodes);
    var result := Dfs(nodes, "", []);
    assert result == Listing(nodes, "");
    return Some(result);
  }

  // ── What the listing holds ───────────────────────────────────────────────

  /** Each of the folders `fs`, followed by what `sub` lists for it: the
      shape of `ListFolders`, for any listing of the subfolders. */
  function Blocks(fs: seq<string>, sub: string -> seq<Entry>): seq<Entry> {
    if fs == [] then []
    else Blocks(fs[..|fs| - 1], sub) + [Entry(fs[|fs| - 1], Folder)] + sub(fs[|fs| - 1])
  }

  lemma {:induction false} BlocksElements(fs: seq<string>, sub: string -> seq<Entry>)
    ensures forall e :: e in Blocks(fs, sub) <==>
      exists i :: 0 <= i < |fs| && (e == Entry(fs[i], Folder) || e in sub(fs[i]))
  {
    if fs != [] {
      var n := |fs| - 1;
      var init := fs[..n];
      BlocksElements(init, sub);
      assert forall i :: 0 <= i < n ==> init[i] == fs[i];
      forall e | e in Blocks(fs, sub)
        ensures exists i :: 0 <= i < |fs| && (e == Entry(fs[i], Folder) || e in sub(fs[i]))
      {
        if e in Blocks(init, sub) {
          var i :| 0 <= i < n && (e == Entry(init[i], Folder) || e in sub(init[i]));
          assert init[i] == fs[i];
        }
      }
      forall e, i | 0 <= i < |fs| && (e == Entry(fs[i], Folder) || e in sub(fs[i]))
        ensures e in Blocks(fs, sub)
      {
        if i < n {
          assert init[i] == fs[i];
          assert e in Blocks(init, sub);
        }
      }
    }
  }

  /** The listing of each subfolder, as a value. */
  function Sublisting(nodes: map<string, Kind>): string -> seq<Entry> {
    c => if Terminates(nodes) then Listing(nodes, c) else []
  }

  lemma {:induction false} ListFoldersBlocks(nodes: map<string, Kind>, parent: string, fs: seq<string>)
    requires Terminates(nodes)
    requires forall i :: 0 <= i < |fs| ==> fs[i] in Children(nodes, parent, Folder)
    ensures ListFolders(nodes, parent, fs) == Blocks(fs, Sublisting(nodes))
  {
    if fs != [] {
      ListFoldersBlocks(nodes, parent, fs[..|fs| - 1]);
      assert Sublisting(nodes)(fs[|fs| - 1]) == Listing(nodes, fs[|fs| - 1]);
    }
  }

  lemma ListFoldersElements(nodes: map<string, Kind>, parent: string, fs: seq<string>)
    requires Terminates(nodes)
    requires forall i :: 0 <= i < |fs| ==> fs[i] in Children(nodes, parent, Folder)
    ensures forall e :: e in ListFolders(nodes, parent, fs) <==>
      exists i :: 0 <= i < |fs| && (e == Entry(fs[i], Folder) || e in Listing(nodes, fs[i]))
  {
    ListFoldersBlocks(nodes, parent, fs);
    BlocksElements(fs, Sublisting(nodes));
    assert forall i :: 0 <= i < |fs| ==> Sublisting(nodes)(fs[i]) == Listing(nodes, fs[i]);
  }

  lemma ListingFrom(nodes: map<string, Kind>, parent: string, e: Entry)
    requires Terminates(nodes) && e in Listing(nodes, parent)
    ensures e.path in Children(nodes, parent, e.kind)
      || (exists c :: c in Children(nodes, parent, Folder) && e in Listing(nodes, c))
  {
    var folders := SortedPaths(Children(nodes, parent, Folder));
    var files := SortedPaths(Children(nodes, parent, File));
    SortedPathsShape(Children(nodes, parent, Folder));
    SortedPathsShape(Children(nodes, parent, File));
    ListingUnfold(nodes, parent);
    if e in ListFolders(nodes, parent, folders) {
      ListFoldersElements(nodes, parent, folders);
      var i :| 0 <= i < |folders| && (e == Entry(folders[i], Folder) || e in Listing(nodes, folders[i]));
    } else {
      var j :| 0 <= j < |files| && FileEntries(files)[j] == e;
    }
  }

  lemma ListsChild(nodes: map<string, Kind>, parent: string, e: Entry)
    requires Terminates(nodes) && e.path in Children(nodes, parent, e.kind)
    ensures e in Listing(nodes, parent)
  {
    var folders := SortedPaths(Children(nodes, parent, Folder));
    var files := SortedPaths(Children(nodes, parent, File));
    SortedPathsShape(Children(nodes, parent, Folder));
    SortedPathsShape(Children(nodes, parent, File));
    ListingUnfold(nodes, parent);
    if e.kind == Folder {
      ListFoldersElements(nodes, parent, folders);
      var i :| 0 <= i < |folders| && folders[i] == e.path;
      assert e in ListFolders(nodes, parent, folders);
    } else {
      var j :| 0 <= j < |files| && files[j] == e.path;
      assert FileEntries(files)[j] == e;
    }
  }

  lemma ListsSubtree(nodes: map<string, Kind>, parent: string, c: string, e: Entry)
    requires Terminates(nodes) && c in Children(nodes, parent, Folder) && e in Listing(nodes, c)
    ensures e in Listing(nodes, parent)
  {
    var folders := SortedPaths(Children(nodes, parent, Folder));
    SortedPathsShape(Children(nodes, parent, Folder));
    ListingUnfold(nodes, parent);
    ListFoldersElements(nodes, parent, folders);
    var i :| 0 <= i < |folders| && folders[i] == c;
    assert e in ListFolders(nodes, parent, folders);
  }

  /** What is listed under `parent`: its child folders and child files, and
      what is listed under each child folder. */
  lemma ListingElements(nodes: map<string, Kind>, parent: string)
    requires Terminates(nodes)
    ensures forall e :: e in Listing(nodes, parent) <==>
      (e.path in Children(nodes, parent, e.kind))
      || (exists c :: c in Children(nodes, parent, Folder) && e in Listing(nodes, c))
  {
    forall e | e in Listing(nodes, parent)
      ensures e.path in Children(nodes, parent, e.kind)
        || (exists c :: c in Children(nodes, parent, Folder) && e in Listing(nodes, c))
    {
      ListingFrom(nodes, parent, e);
    }
    forall e: Entry | e.path in Children(nodes, parent, e.kind) ensures e in Listing(nodes, parent) {
      ListsChild(nodes, parent, e);
    }
    forall e: Entry, c | c in Children(nodes, parent, Folder) && e in Listing(nodes, c)
      ensures e in Listing(nodes, parent)
    {
      ListsSubtree(nodes, parent, c, e);
    }
  }

  /** Everything listed under `parent` is a node inside it, with its kind. */
  lemma {:induction false} ListingSound(nodes: map<string, Kind>, parent: string)
    requires Terminates(nodes)
    ensures forall e :: e in Listing(nodes, parent) ==>
      e.path in nodes && nodes[e.path] == e.kind && Under(e.path, parent)
    decreases Below(nodes, parent)
  {
    ListingElements(nodes, parent);
    forall e | e in Listing(nodes, parent)
      ensures e.path in nodes && nodes[e.path] == e.kind && Under(e.path, parent)
    {
      if e.path !in Children(nodes, parent, e.kind) {
        var c :| c in Children(nodes, parent, Folder) && e in Listing(nodes, c);
        BelowShrinks(nodes, parent, c);
        ListingSound(nodes, c);
        if parent != "" { StartsWithTrans(e.path, c, parent); }
      }
    }
  }

  /** Every folder of every node is itself a folder node. */
  ghost predicate Closed(nodes: map<string, Kind>) {
    forall p, a :: p in nodes && a in Ancestors(p) ==> a in nodes && nodes[a] == Folder
  }

  /** A path inside a folder has more parts than the folder and starts with
      them. */
  lemma UnderParts(p: string, parent: string)
    requires parent != "" && StartsWith(p, parent + "/")
    ensures |Split(p, '/')| > Depth(parent)
    ensures Prefix(p, Depth(parent)) == parent
  {
    SplitUnder(p, parent);
    assert Split(p, '/')[..Depth(parent)] == Split(parent, '/');
    JoinSplit(parent, '/');
  }

  /** The prefix of `p` one part longer than `parent` is a child of it. */
  lemma PrefixChild(p: string, parent: string)
    requires Under(p, parent) && |Split(p, '/')| > Depth(parent) + 1
    ensures IsChild(Prefix(p, Depth(parent) + 1), parent)
  {
    PrefixParts(p, Depth(parent) + 1);
    if parent != "" {
      PrefixInside(p, parent);
    }
  }

  lemma PrefixInside(p: string, parent: string)
    requires parent != "" && StartsWith(p, parent + "/") && |Split(p, '/')| > Depth(parent) + 1
    ensures StartsWith(Prefix(p, Depth(parent) + 1), parent + "/")
  {
    UnderParts(p, parent);
    PrefixNested(p, Depth(parent), Depth(parent) + 1);
  }

  /** A path inside `parent` that is not one of its children lies inside one
      of them. */
  lemma Branch(p: string, parent: string) returns (c: string)
    requires Under(p, parent) && !IsChild(p, parent)
    ensures c in Ancestors(p) && IsChild(c, parent) && StartsWith(p, c + "/")
  {
    var d := Depth(parent);
    if parent != "" {
      ParentParts(p, parent);
    }
    assert |Split(p, '/')| > d + 1;
    c := Prefix(p, d + 1);
    PrefixAncestor(p, d + 1);
    AncestorIff(p, c);
    PrefixChild(p, parent);
  }

  lemma PrefixAncestor(p: string, i: nat)
    requires 1 <= i < |Split(p, '/')|
    ensures Prefix(p, i) in Ancestors(p)
  {
  }

  /** When every folder of a node is a folder node, every node inside
      `parent` is listed under it, with its kind. */
  lemma {:induction false} ListingComplete(nodes: map<string, Kind>, parent: string)
    requires Terminates(nodes) && Closed(nodes)
    ensures forall p :: p in nodes && Under(p, parent) ==> Entry(p, nodes[p]) in Listing(nodes, parent)
    decreases Below(nodes, parent)
  {
    ListingElements(nodes, parent);
    forall p | p in nodes && Under(p, parent) ensures Entry(p, nodes[p]) in Listing(nodes, parent) {
      if IsChild(p, parent) {
        assert p in Children(nodes, parent, nodes[p]);
      } else {
        var c := Branch(p, parent);
        assert c in Children(nodes, parent, Folder);
        BelowShrinks(nodes, parent, c);
        ListingComplete(nodes, c);
      }
    }
  }

  // ── The order of the listing ──────────────────────────────────────────────

  /** The number of leading parts two paths share. */
  function CommonLen(a: seq<string>, b: seq<string>): (m: nat)
    ensures m <= |a| && m <= |b|
  {
    if a == [] || b == [] || a[0] != b[0] then 0 else 1 + CommonLen(a[1..], b[1..])
  }

  lemma {:induction false} CommonLenIs(a: seq<string>, b: seq<string>, m: nat)
    requires m <= |a| && m <= |b| && a[..m] == b[..m]
    requires m == |a| || m == |b| || a[m] != b[m]
    ensures CommonLen(a, b) == m
  {
    if m > 0 {
      assert a[0] == a[..m][0] && b[0] == b[..m][0];
      assert a[1..][..m - 1] == a[..m][1..] && b[1..][..m - 1] == b[..m][1..];
      CommonLenIs(a[1..], b[1..], m - 1);
    }
  }

  /** The kind of the branch of `x` made of its first `n` parts: `x`'s own
      kind when that is all of `x`, a folder otherwise. */
  function BranchKind(nodes: map<string, Kind>, x: string, n: nat): Kind {
    if n == |Split(x, '/')| && x in nodes then nodes[x] else Folder
  }

  /** `x` is listed before `y`: `x` is a folder `y` lies in, or, where their
      paths part, the branch of `x` is a folder and that of `y` a file, or
      the two branches are of one kind and the path of `x`'s sorts first. */
  predicate Before(nodes: map<string, Kind>, x: string, y: string) {
    PartedBefore(nodes, x, y, CommonLen(Split(x, '/'), Split(y, '/')))
  }

  /** `Before`, for paths that share their first `m` parts. */
  predicate PartedBefore(nodes: map<string, Kind>, x: string, y: string, m: nat)
    requires m <= |Split(x, '/')| && m <= |Split(y, '/')|
  {
    if m == |Split(x, '/')| || m == |Split(y, '/')| then m == |Split(x, '/')| < |Split(y, '/')|
    else
      (BranchKind(nodes, x, m + 1) == Folder && BranchKind(nodes, y, m + 1) == File)
      || (BranchKind(nodes, x, m + 1) == BranchKind(nodes, y, m + 1)
          && LexLess(Join(Split(x, '/')[..m + 1], '/'), Join(Split(y, '/')[..m + 1], '/')))
  }

  /** Every entry of `listing` is listed before every later one. */
  predicate SortedBy(nodes: map<string, Kind>, listing: seq<Entry>) {
    forall i, j :: 0 <= i < j < |listing| ==> Before(nodes, listing[i].path, listing[j].path)
  }

  lemma BeforeIrreflexive(nodes: map<string, Kind>, x: string)
    ensures !Before(nodes, x, x)
  {
    var a := Split(x, '/');
    CommonLenIs(a, a, |a|);
  }

  /** A listing in that order names no path twice. */
  lemma SortedDistinct(nodes: map<string, Kind>, listing: seq<Entry>)
    requires SortedBy(nodes, listing)
    ensures forall i, j :: 0 <= i < j < |listing| ==> listing[i].path != listing[j].path
  {
    forall i, j | 0 <= i < j < |listing| ensures listing[i].path != listing[j].path {
      BeforeIrreflexive(nodes, listing[i].path);
    }
  }

  lemma SortedConcat(nodes: map<string, Kind>, a: seq<Entry>, b: seq<Entry>)
    requires SortedBy(nodes, a) && SortedBy(nodes, b)
    requires forall x, y :: x in a && y in b ==> Before(nodes, x.path, y.path)
    ensures SortedBy(nodes, a + b)
  {
    var ab := a + b;
    forall i, j | 0 <= i < j < |ab| ensures Before(nodes, ab[i].path, ab[j].path) {
      if j < |a| {
        assert ab[i] == a[i] && ab[j] == a[j];
      } else if i >= |a| {
        assert ab[i] == b[i - |a|] && ab[j] == b[j - |a|];
      } else {
        assert ab[i] == a[i] && ab[j] == b[j - |a|];
        assert a[i] in a && b[j - |a|] in b;
      }
    }
  }

  /** A folder is listed before what lies in it. */
  lemma BeforeInside(nodes: map<string, Kind>, x: string, y: string)
    requires StartsWith(y, x + "/")
    ensures Before(nodes, x, y)
  {
    SplitUnder(y, x);
    var a := Split(x, '/');
    var b := Split(y, '/');
    assert b[..|a|] == a;
    CommonLenIs(a, b, |a|);
  }

  /** The first parts of a path inside a child `c` are the parts of `c`. */
  lemma BranchParts(c: string, x: string)
    requires x == c || StartsWith(x, c + "/")
    ensures |Split(x, '/')| >= |Split(c, '/')|
    ensures Split(x, '/')[..|Split(c, '/')|] == Split(c, '/')
    ensures x != c ==> |Split(x, '/')| > |Split(c, '/')|
  {
    if x != c {
      SplitUnder(x, c);
    }
  }

  /** Two children of one parent share its parts and differ in their last. */
  lemma SiblingParts(parent: string, cx: string, cy: string)
    requires IsChild(cx, parent) && IsChild(cy, parent) && cx != cy
    ensures var d := Depth(parent);
      Split(cx, '/')[..d] == Split(cy, '/')[..d] && Split(cx, '/')[d] != Split(cy, '/')[d]
  {
    var d := Depth(parent);
    var X := Split(cx, '/');
    var Y := Split(cy, '/');
    if parent != "" {
      ParentParts(cx, parent);
      ParentParts(cy, parent);
    }
    if X[d] == Y[d] {
      LastPartEqual(X, Y, d);
      JoinSplit(cx, '/');
      JoinSplit(cy, '/');
    }
  }

  /** The first parts of a path below `parent` are the parts of `parent`. */
  lemma ParentParts(p: string, parent: string)
    requires parent != "" && StartsWith(p, parent + "/")
    ensures Depth(parent) < |Split(p, '/')|
    ensures Split(p, '/')[..Depth(parent)] == Split(parent, '/')
  {
    SplitUnder(p, parent);
  }

  lemma LastPartEqual(X: seq<string>, Y: seq<string>, d: nat)
    requires |X| == d + 1 && |Y| == d + 1 && X[..d] == Y[..d] && X[d] == Y[d]
    ensures X == Y
  {
    assert X == X[..d] + [X[d]] && Y == Y[..d] + [Y[d]];
  }

  /** Paths in two different children of one parent part at the children:
      their order is the order of the two branches. */
  lemma Parted(nodes: map<string, Kind>, parent: string, cx: string, x: string, cy: string, y: string)
    requires IsChild(cx, parent) && IsChild(cy, parent) && cx != cy
    requires x == cx || StartsWith(x, cx + "/")
    requires y == cy || StartsWith(y, cy + "/")
    ensures CommonLen(Split(x, '/'), Split(y, '/')) == Depth(parent)
    ensures Depth(parent) < |Split(x, '/')| && Depth(parent) < |Split(y, '/')|
    ensures Join(Split(x, '/')[..Depth(parent) + 1], '/') == cx
    ensures Join(Split(y, '/')[..Depth(parent) + 1], '/') == cy
  {
    BranchParts(cx, x);
    BranchParts(cy, y);
    SiblingParts(parent, cx, cy);
    JoinSplit(cx, '/');
    JoinSplit(cy, '/');
    PartsParted(Split(x, '/'), Split(y, '/'), Split(cx, '/'), Split(cy, '/'), Depth(parent), cx, cy);
  }

  lemma PartsParted(X: seq<string>, Y: seq<string>, CX: seq<string>, CY: seq<string>, d: nat, cx: string, cy: string)
    requires |CX| == d + 1 && |CY| == d + 1 && |CX| <= |X| && |CY| <= |Y|
    requires X[..|CX|] == CX && Y[..|CY|] == CY
    requires CX[..d] == CY[..d] && CX[d] != CY[d]
    requires Join(CX, '/') == cx && Join(CY, '/') == cy
    ensures CommonLen(X, Y) == d && d < |X| && d < |Y|
    ensures Join(X[..d + 1], '/') == cx && Join(Y[..d + 1], '/') == cy
  {
    assert X[..d] == CX[..d] && X[d] == CX[d];
    assert Y[..d] == CY[..d] && Y[d] == CY[d];
    CommonLenIs(X, Y, d);
  }

  /** The order of two paths in different children of one parent. */
  lemma BeforeSiblings(nodes: map<string, Kind>, parent: string, cx: string, x: string, cy: string, y: string)
    requires IsChild(cx, parent) && IsChild(cy, parent) && cx != cy
    requires cx in nodes && cy in nodes
    requires x == cx || (StartsWith(x, cx + "/") && nodes[cx] == Folder)
    requires y == cy || (StartsWith(y, cy + "/") && nodes[cy] == Folder)
    ensures Before(nodes, x, y) <==>
      (nodes[cx] == Folder && nodes[cy] == File) || (nodes[cx] == nodes[cy] && LexLess(cx, cy))
  {
    var d := Depth(parent);
    Parted(nodes, parent, cx, x, cy, y);
    BranchKindOf(nodes, cx, x, d);
    BranchKindOf(nodes, cy, y, d);
    assert Before(nodes, x, y) == PartedBefore(nodes, x, y, d);
  }

  /** The branch of a path in child `c`, `d + 1` parts deep, is `c`'s kind. */
  lemma BranchKindOf(nodes: map<string, Kind>, c: string, x: string, d: nat)
    requires |Split(c, '/')| == d + 1 && c in nodes
    requires x == c || (StartsWith(x, c + "/") && nodes[c] == Folder)
    ensures BranchKind(nodes, x, d + 1) == nodes[c]
  {
    BranchParts(c, x);
  }

  /** Child files in ascending order are listed in that order. */
  lemma FilesSorted(nodes: map<string, Kind>, parent: string, files: seq<string>)
    requires StrictlySorted(files)
    requires forall i :: 0 <= i < |files| ==> files[i] in Children(nodes, parent, File)
    ensures SortedBy(nodes, FileEntries(files))
  {
    var es := FileEntries(files);
    forall i, j | 0 <= i < j < |es| ensures Before(nodes, es[i].path, es[j].path) {
      assert files[i] in Children(nodes, parent, File) && files[j] in Children(nodes, parent, File);
      LexIrreflexive(files[i]);
      BeforeSiblings(nodes, parent, files[i], files[i], files[j], files[j]);
    }
  }

  /** A folder followed by a listing in order of what lies in it is in
      order. */
  lemma BlockSorted(nodes: map<string, Kind>, c: string, sub: seq<Entry>)
    requires SortedBy(nodes, sub)
    requires forall e :: e in sub ==> StartsWith(e.path, c + "/")
    ensures SortedBy(nodes, [Entry(c, Folder)] + sub)
  {
    forall y | y in sub ensures Before(nodes, c, y.path) {
      BeforeInside(nodes, c, y.path);
    }
    SortedConcat(nodes, [Entry(c, Folder)], sub);
  }

  lemma ListFoldersSnoc(nodes: map<string, Kind>, parent: string, fs: seq<string>)
    requires Terminates(nodes) && fs != []
    requires forall i :: 0 <= i < |fs| ==> fs[i] in Children(nodes, parent, Folder)
    ensures ListFolders(nodes, parent, fs) ==
      ListFolders(nodes, parent, fs[..|fs| - 1]) + ([Entry(fs[|fs| - 1], Folder)] + Listing(nodes, fs[|fs| - 1]))
  {
  }

  /** What `ListFoldersSorted` needs of each folder `c`: it is a child
      folder of `parent`, and its listing is in order and lies inside it. */
  ghost predicate SortedChild(nodes: map<string, Kind>, parent: string, c: string)
    requires Terminates(nodes)
  {
    c in Children(nodes, parent, Folder) && SortedBy(nodes, Listing(nodes, c))
    && forall e :: e in Listing(nodes, c) ==> StartsWith(e.path, c + "/")
  }

  /** What comes from an earlier child folder is listed before what comes
      from a later one. */
  lemma FoldersApart(nodes: map<string, Kind>, parent: string, fs: seq<string>, block: seq<Entry>)
    requires Terminates(nodes) && StrictlySorted(fs) && fs != []
    requires forall i :: 0 <= i < |fs| ==> fs[i] in Children(nodes, parent, Folder)
    requires forall i :: 0 <= i < |fs| ==> SortedChild(nodes, parent, fs[i])
    requires forall e :: e in block ==> e.path == fs[|fs| - 1] || StartsWith(e.path, fs[|fs| - 1] + "/")
    ensures forall a, b :: a in ListFolders(nodes, parent, fs[..|fs| - 1]) && b in block ==> Before(nodes, a.path, b.path)
  {
    var n := |fs| - 1;
    var init := fs[..n];
    assert forall i :: 0 <= i < n ==> init[i] == fs[i];
    EarlierFoldersBefore(nodes, parent, init, fs[n], block);
  }

  lemma EarlierFoldersBefore(nodes: map<string, Kind>, parent: string, init: seq<string>, y: string, block: seq<Entry>)
    requires Terminates(nodes) && SortedChild(nodes, parent, y)
    requires forall i :: 0 <= i < |init| ==> init[i] in Children(nodes, parent, Folder)
    requires forall i :: 0 <= i < |init| ==> LexLess(init[i], y) && SortedChild(nodes, parent, init[i])
    requires forall e :: e in block ==> e.path == y || StartsWith(e.path, y + "/")
    ensures forall a, b :: a in ListFolders(nodes, parent, init) && b in block ==> Before(nodes, a.path, b.path)
  {
    ListFoldersElements(nodes, parent, init);
    forall a, b | a in ListFolders(nodes, parent, init) && b in block ensures Before(nodes, a.path, b.path) {
      var i :| 0 <= i < |init| && (a == Entry(init[i], Folder) || a in Listing(nodes, init[i]));
      EarlierFolderBefore(nodes, parent, init[i], y, a, b);
    }
  }

  /** What comes from a child folder is listed before what comes from a
      later child folder. */
  lemma EarlierFolderBefore(nodes: map<string, Kind>, parent: string, x: string, y: string, a: Entry, b: Entry)
    requires Terminates(nodes) && LexLess(x, y)
    requires SortedChild(nodes, parent, x) && SortedChild(nodes, parent, y)
    requires a == Entry(x, Folder) || a in Listing(nodes, x)
    requires b.path == y || StartsWith(b.path, y + "/")
    ensures Before(nodes, a.path, b.path)
  {
    LexIrreflexive(x);
    BeforeSiblings(nodes, parent, x, a.path, y, b.path);
  }

  /** Child folders in ascending order, each followed by its listing, are
      listed in order when each listing is. */
  lemma {:induction false} ListFoldersSorted(nodes: map<string, Kind>, parent: string, fs: seq<string>)
    requires Terminates(nodes) && StrictlySorted(fs)
    requires forall i :: 0 <= i < |fs| ==> fs[i] in Children(nodes, parent, Folder)
    requires forall i :: 0 <= i < |fs| ==> SortedChild(nodes, parent, fs[i])
    ensures SortedBy(nodes, ListFolders(nodes, parent, fs))
    decreases |fs|
  {
    if fs != [] {
      var n := |fs| - 1;
      var init := fs[..n];
      var last := fs[n];
      assert forall i :: 0 <= i < n ==> init[i] == fs[i];
      ListFoldersSorted(nodes, parent, init);
      var block := [Entry(last, Folder)] + Listing(nodes, last);
      BlockSorted(nodes, last, Listing(nodes, last));
      FoldersApart(nodes, parent, fs, block);
      SortedConcat(nodes, ListFolders(nodes, parent, init), block);
      ListFoldersSnoc(nodes, parent, fs);
    }
  }

  /** What comes from a child folder is listed before the child files. */
  lemma FoldersBeforeFiles(nodes: map<string, Kind>, parent: string, folders: seq<string>, files: seq<string>)
    requires Terminates(nodes)
    requires forall i :: 0 <= i < |folders| ==> folders[i] in Children(nodes, parent, Folder)
    requires forall i :: 0 <= i < |files| ==> files[i] in Children(nodes, parent, File)
    requires forall i :: 0 <= i < |folders| ==> SortedChild(nodes, parent, folders[i])
    ensures forall a, b :: a in ListFolders(nodes, parent, folders) && b in FileEntries(files) ==> Before(nodes, a.path, b.path)
  {
    ListFoldersElements(nodes, parent, folders);
    forall a, b | a in ListFolders(nodes, parent, folders) && b in FileEntries(files)
      ensures Before(nodes, a.path, b.path)
    {
      var i :| 0 <= i < |folders| && (a == Entry(folders[i], Folder) || a in Listing(nodes, folders[i]));
      var j :| 0 <= j < |files| && FileEntries(files)[j] == b;
      assert SortedChild(nodes, parent, folders[i]);
      BeforeSiblings(nodes, parent, folders[i], a.path, files[j], b.path);
    }
  }

  /** The listing under each child folder is in order and lies in it. */
  lemma {:induction false} SubListingsSorted(nodes: map<string, Kind>, parent: string, folders: seq<string>)
    requires Terminates(nodes)
    requires forall i :: 0 <= i < |folders| ==> folders[i] in Children(nodes, parent, Folder)
    ensures forall i :: 0 <= i < |folders| ==> SortedChild(nodes, parent, folders[i])
    decreases Below(nodes, parent), 0
  {
    forall i | 0 <= i < |folders| ensures SortedChild(nodes, parent, folders[i]) {
      var c := folders[i];
      BelowShrinks(nodes, parent, c);
      ListingSorted(nodes, c);
      ListingSound(nodes, c);
    }
  }

  /** The listing under `parent` is in listing order. */
  lemma {:induction false} ListingSorted(nodes: map<string, Kind>, parent: string)
    requires Terminates(nodes)
    ensures SortedBy(nodes, Listing(nodes, parent))
    decreases Below(nodes, parent), 1
  {
    var folders := SortedPaths(Children(nodes, parent, Folder));
    var files := SortedPaths(Children(nodes, parent, File));
    SortedPathsShape(Children(nodes, parent, Folder));
    SortedPathsShape(Children(nodes, parent, File));
    SubListingsSorted(nodes, parent, folders);
    ListFoldersSorted(nodes, parent, folders);
    FilesSorted(nodes, parent, files);
    FoldersBeforeFiles(nodes, parent, folders, files);
    SortedConcat(nodes, ListFolders(nodes, parent, folders), FileEntries(files));
    ListingUnfold(nodes, parent);
  }

  // ── What `buildTree` promises ─────────────────────────────────────────────

  /** No selected path starts with `/`, and none lies inside another. */
  predicate WellFormed(paths: set<string>) {
    (forall s :: s in paths ==> !StartsWith(s, "/"))
    && (forall s, t :: s in paths && t in paths ==> !StartsWith(t, s + "/"))
  }

  /** An ancestor of a node of a well-formed selection is a folder node. */
  lemma AncestorNode(paths: set<string>, p: string, a: string)
    requires WellFormed(paths)
    requires p in Nodes(paths) && a in Ancestors(p)
    ensures a in Nodes(paths) && Nodes(paths)[a] == Folder
  {
    NodesShape(paths);
    AncestorIff(p, a);
    if p in paths {
      assert a !in paths;
    } else {
      var s :| s in paths && StartsWith(s, p + "/");
      StartsWithTrans(s, p, a);
      assert a !in paths;
    }
  }

  lemma WellFormedNodes(paths: set<string>)
    requires WellFormed(paths)
    ensures Terminates(Nodes(paths)) && Closed(Nodes(paths))
  {
    WellFormedRoot(paths);
    NodesClosed(paths);
  }

  lemma ClosedWhen(nodes: map<string, Kind>)
    requires forall p, a :: p in nodes && a in Ancestors(p) ==> a in nodes && nodes[a] == Folder
    ensures Closed(nodes)
  {
  }

  lemma NodesClosed(paths: set<string>)
    requires WellFormed(paths)
    ensures Closed(Nodes(paths))
  {
    forall p, a | p in Nodes(paths) && a in Ancestors(p)
      ensures a in Nodes(paths) && Nodes(paths)[a] == Folder
    {
      AncestorNode(paths, p, a);
    }
    ClosedWhen(Nodes(paths));
  }

  /** Without a path starting with `/` the empty path is no folder. */
  lemma WellFormedRoot(paths: set<string>)
    requires WellFormed(paths)
    ensures Terminates(Nodes(paths))
  {
    NodesShape(paths);
    assert "" + "/" == "/";
  }

  /** `buildTree` diverges exactly when a selected path starts with `/` and
      the empty path is not selected itself. */
  lemma TreeDiverges(paths: set<string>)
    ensures TreeOf(paths).None? <==> "" !in paths && exists s :: s in paths && StartsWith(s, "/")
  {
    NodesShape(paths);
    assert "" + "/" == "/";
  }

  /** For well-formed selections the listing holds every selected path as a
      file and every folder of one as a folder, nothing else, and each path
      once. */
  lemma TreeMembers(paths: set<string>)
    requires WellFormed(paths)
    ensures TreeOf(paths).Some?
    ensures forall e :: e in TreeOf(paths).value <==>
      (e.kind == File && e.path in paths)
      || (e.kind == Folder && exists s :: s in paths && StartsWith(s, e.path + "/"))
    ensures var listing := TreeOf(paths).value;
      forall i, j :: 0 <= i < j < |listing| ==> listing[i].path != listing[j].path
  {
    WellFormedNodes(paths);
    NodesShape(paths);
    var nodes := Nodes(paths);
    ListingSound(nodes, "");
    ListingComplete(nodes, "");
    ListingSorted(nodes, "");
    SortedDistinct(nodes, Listing(nodes, ""));
  }

  /** The listing is in listing order: each folder before what lies in it
      and, at each level, folders before files and each group by path. */
  lemma TreeOrdered(paths: set<string>)
    requires TreeOf(paths).Some?
    ensures SortedBy(Nodes(paths), TreeOf(paths).value)
  {
    ListingSorted(Nodes(paths), "");
  }

  /** Selecting more paths keeps every row of the listing. */
  lemma TreeGrows(paths: set<string>, more: set<string>)
    requires paths <= more && WellFormed(more)
    ensures TreeOf(paths).Some? && TreeOf(more).Some?
    ensures forall e :: e in TreeOf(paths).value ==> e in TreeOf(more).value
  {
    TreeMembers(paths);
    TreeMembers(more);
  }
}
