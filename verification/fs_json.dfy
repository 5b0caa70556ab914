/**
 The three JSON views of the path trie the user interface asks for: the
 nested `rows` maps of `list_directory_as_json`, the name/rows tree of
 `subtree_json` and the name/path/rows forest of `subtree_as_json`. JSON
 arrays are built by iterating a hash map, so their order is unspecified
 and they are modelled as multisets.
 */
module FsJson {
  import opened Options
  import opened Text
  import opened FileTypes
  import opened FsTree
  import opened FsListing

  datatype Json = Null | Str(s: string) | Object(fields: map<string, Json>) | Array(items: multiset<Json>)

  /* ---------------------------------------------------------------------- */
  /* list_directory_as_json                                                 */
  /* ---------------------------------------------------------------------- */

  /**
   The inner `node_to_json` of `list_directory_as_json`: a directory with
   children becomes `{"rows": {name: child}}`, anything else `null`.
   */
  function DirectoryJson(n: FSNode): (j: Json)
    ensures j == Null <==> n.fileType != Directory || |n.children| == 0
    ensures j != Null ==> (j.Object? && j.fields.Keys == {"rows"} && j.fields["rows"].Object?
      && j.fields["rows"].fields.Keys == n.children.Keys)
    decreases n
  {
    if n.fileType == Directory && |n.children| > 0 then
      Object(map["rows" := Object(map k | k in n.children :: DirectoryJson(n.children[k]))])
    else Null
  }

  /** `list_directory_as_json(path)`: `null` for a path that is not there. */
  function ListDirectoryAsJson(root: FSNode, path: string): (j: Json)
    ensures GetChild(root, path).None? ==> j == Null
    ensures GetChild(root, path).Some? ==> j == DirectoryJson(GetChild(root, path).value)
  {
    match GetChild(root, path)
    case None => Null
    case Some(n) => DirectoryJson(n)
  }

  /** The value reached by following `rows` and then a name, once per component. */
  function RowsAt(j: Json, r: Route): Option<Json>
    decreases |r|
  {
    if |r| == 0 then Some(j)
    else if j.Object? && "rows" in j.fields && j.fields["rows"].Object? && r[0] in j.fields["rows"].fields then
      RowsAt(j.fields["rows"].fields[r[0]], r[1..])
    else None
  }

  /** Every node on the way to the end of `r` is a directory (the end itself may be anything). */
  predicate ThroughDirectories(n: FSNode, r: Route)
    decreases |r|
  {
    r == [] || (n.fileType == Directory && r[0] in n.children && ThroughDirectories(n.children[r[0]], r[1..]))
  }

  /**
   The nested maps mirror the tree: a route is present in the JSON exactly
   when it leads through directories in the tree, and it holds the JSON of
   the node it leads to.
   */
  lemma {:induction false} DirectoryJsonMirrorsTree(n: FSNode, r: Route)
    ensures RowsAt(DirectoryJson(n), r).Some? <==> ThroughDirectories(n, r)
    ensures ThroughDirectories(n, r) ==>
      Lookup(n, r).Some? && RowsAt(DirectoryJson(n), r) == Some(DirectoryJson(Lookup(n, r).value))
    decreases |r|
  {
    if |r| > 0 && n.fileType == Directory && r[0] in n.children {
      DirectoryJsonMirrorsTree(n.children[r[0]], r[1..]);
    }
  }

  /* ---------------------------------------------------------------------- */
  /* subtree_json and subtree_as_json                                       */
  /* ---------------------------------------------------------------------- */

  /** The name field of a row, "" when there is none. */
  function NameOf(j: Json): string
  {
    if j.Object? && "name" in j.fields && j.fields["name"].Str? then j.fields["name"].s else ""
  }

  /** The path field of a row, "" when there is none. */
  function PathOf(j: Json): string
  {
    if j.Object? && "path" in j.fields && j.fields["path"].Str? then j.fields["path"].s else ""
  }

  /** The rows array of a value, empty when there is none. */
  function RowsOf(j: Json): multiset<Json>
  {
    if j.Object? && "rows" in j.fields && j.fields["rows"].Array? then j.fields["rows"].items else multiset{}
  }

  /** The `full_path` of a child: "/" is not doubled. */
  function ChildPath(full: string, name: string): (p: string)
    ensures full == "/" ==> p == "/" + name
    ensures full != "/" ==> p == full + "/" + name
  {
    if full == "/" then "/" + name else full + "/" + name
  }

  /** The path of a child row, when rows carry paths at all. */
  function ChildFull(full: Option<string>, name: string): Option<string>
  {
    if full.Some? then Some(ChildPath(full.value, name)) else None
  }

  /** The directory children of a node, or none when the node is not a directory. */
  function Subdirectories(n: FSNode): (ks: set<string>)
    ensures forall k :: k in ks <==> n.fileType == Directory && k in n.children && n.children[k].fileType == Directory
  {
    if n.fileType == Directory then set k | k in n.children && n.children[k].fileType == Directory else {}
  }

  /**
   The inner `node_to_json` of `subtree_json` (no path) and of
   `subtree_as_json` (with a path): a row named `name` whose rows are the
   directory children, and only when the node itself is a directory.
   */
  function RowNode(name: string, full: Option<string>, n: FSNode): (j: Json)
    ensures j.Object? && "rows" in j.fields && j.fields["rows"].Array? && NameOf(j) == name
    ensures j.fields.Keys == if full.Some? then {"name", "path", "rows"} else {"name", "rows"}
    ensures full.Some? ==> j.fields["path"] == Str(full.value)
    decreases n
  {
    var rows := multiset(set k | k in Subdirectories(n) :: RowNode(k, ChildFull(full, k), n.children[k]));
    var shown := map["name" := Str(name), "rows" := Array(rows)];
    Object(if full.Some? then shown["path" := Str(full.value)] else shown)
  }

  /** Each directory child of a node is a row of its row tree. */
  lemma RowOfSubdirectory(name: string, full: Option<string>, n: FSNode, k: string)
    requires k in Subdirectories(n)
    ensures RowNode(k, ChildFull(full, k), n.children[k]) in RowsOf(RowNode(name, full, n))
  {
  }

  /** Each row of a row tree is that of a directory child. */
  lemma SubdirectoryOfRow(name: string, full: Option<string>, n: FSNode, c: Json) returns (k: string)
    requires c in RowsOf(RowNode(name, full, n))
    ensures k in Subdirectories(n) && c == RowNode(k, ChildFull(full, k), n.children[k])
  {
    k :| k in Subdirectories(n) && c == RowNode(k, ChildFull(full, k), n.children[k]);
  }

  /** The name shown for the subtree root: the last normal component, else "[ROOT]". */
  function DisplayName(path: string): (name: string)
    ensures path == "" ==> name == "[ROOT]"
    ensures FileName(path).None? ==> name == "[ROOT]"
    ensures path != "" && FileName(path).Some? ==> name == FileName(path).value
  {
    if path == "" then "[ROOT]" else FileName(path).GetOr("[ROOT]")
  }

  /** `subtree_json(path)`: `null` for a path that is not there. */
  function SubtreeJson(root: FSNode, path: string): (j: Json)
    ensures GetChild(root, path).None? ==> j == Null
    ensures GetChild(root, path).Some? ==> j.Object? && j.fields.Keys == {"name", "rows"} && NameOf(j) == DisplayName(path)
  {
    match GetChild(root, path)
    case None => Null
    case Some(n) => RowNode(DisplayName(path), None, n)
  }

  /** `to_tree_json`: the whole tree under the name "[ROOT]". */
  function ToTreeJson(root: FSNode): (j: Json)
    ensures j == RowNode("[ROOT]", None, root)
  {
    SubtreeJson(root, "")
  }

  /** The path the child rows of the subtree root start from: the empty path counts as "/". */
  function TopPath(path: string): (p: string)
    ensures forall name :: ChildPath(p, name) == if path == "" || path == "/" then "/" + name else path + "/" + name
  {
    if path == "" then "/" else path
  }

  /**
   `subtree_as_json(path)`: the directory children of the node at `path`,
   each with its subfolders and their paths, as an array; empty when the
   path is not there or is not a directory.
   */
  function SubtreeAsJson(root: FSNode, path: string): (j: Json)
    ensures j.Array?
    ensures GetChild(root, path).None? ==> j.items == multiset{}
    ensures GetChild(root, path).Some? ==> forall c :: c in j.items <==>
      exists k :: k in Subdirectories(GetChild(root, path).value)
        && c == RowNode(k, Some(ChildPath(TopPath(path), k)), GetChild(root, path).value.children[k])
  {
    match GetChild(root, path)
    case None => Array(multiset{})
    case Some(n) => Array(multiset(set k | k in Subdirectories(n) :: RowNode(k, Some(ChildPath(TopPath(path), k)), n.children[k])))
  }

  /** Whether a name/rows tree has a row at the end of route `x`. */
  predicate HasRow(j: Json, x: Route)
    decreases |x|
  {
    x == [] || exists c :: c in RowsOf(j) && NameOf(c) == x[0] && HasRow(c, x[1..])
  }

  /** Whether a name/path/rows tree has a row at the end of route `x` whose path is `p`. */
  predicate HasPath(j: Json, x: Route, p: string)
    decreases |x|
  {
    if x == [] then PathOf(j) == p else exists c :: c in RowsOf(j) && NameOf(c) == x[0] && HasPath(c, x[1..], p)
  }

  /** Whether one of the trees of a forest has a row at the end of route `x`, below its own name. */
  predicate InForest(j: Json, x: Route)
  {
    j.Array? && x != [] && exists c :: c in j.items && NameOf(c) == x[0] && HasRow(c, x[1..])
  }

  /**
   The folders of a node: the empty route, and when the node is a
   directory every route through directory children, the ones
   `list_folders_tree` expands.
   */
  ghost predicate Folder(n: FSNode, x: Route)
  {
    x == [] || (n.fileType == Directory && Expandable(n, x))
  }

  /** `full` extended by each component of `r` in turn. */
  function SlashPath(full: string, r: Route): string
    decreases |r|
  {
    if |r| == 0 then full else SlashPath(ChildPath(full, r[0]), r[1..])
  }

  /** One step down the folders, from the point of view of a route's first component. */
  lemma FolderStep(n: FSNode, x: Route)
    requires x != []
    ensures Folder(n, x) <==> x[0] in Subdirectories(n) && Folder(n.children[x[0]], x[1..])
  {
    assert x[0] in Subdirectories(n) <==> n.fileType == Directory && x[0] in n.children && n.children[x[0]].fileType == Directory;
    if x[0] in n.children {
      assert Expandable(n, x) <==> n.children[x[0]].fileType == Directory && Expandable(n.children[x[0]], x[1..]);
    }
    if |x| == 1 && x[0] in n.children {
      assert Expandable(n.children[x[0]], x[1..]) by { assert x[1..] == []; }
    }
  }

  /**
   A route is in a row tree exactly when it is one of the node's folders:
   `subtree_json` and `subtree_as_json` hold precisely the folders
   reachable through folders.
   */
  lemma {:induction false} RowNodeRoutes(name: string, full: Option<string>, n: FSNode, x: Route)
    ensures HasRow(RowNode(name, full, n), x) <==> Folder(n, x)
    decreases |x|
  {
    if x != [] {
      var j := RowNode(name, full, n);
      FolderStep(n, x);
      if HasRow(j, x) {
        var c :| c in RowsOf(j) && NameOf(c) == x[0] && HasRow(c, x[1..]);
        var k := SubdirectoryOfRow(name, full, n, c);
        RowNodeRoutes(k, ChildFull(full, k), n.children[k], x[1..]);
      }
      if Folder(n, x) {
        var k := x[0];
        RowNodeRoutes(k, ChildFull(full, k), n.children[k], x[1..]);
        RowOfSubdirectory(name, full, n, k);
      }
    }
  }

  /**
   Every row of `subtree_as_json` records as its path the path of the row
   above it extended by its own name, so a row reached along `x` from a
   row with path `full` has path `SlashPath(full, x)`.
   */
  lemma {:induction false} RowNodePaths(name: string, full: string, n: FSNode, x: Route, p: string)
    ensures HasPath(RowNode(name, Some(full), n), x, p) <==> Folder(n, x) && p == SlashPath(full, x)
    decreases |x|
  {
    var j := RowNode(name, Some(full), n);
    if x != [] {
      FolderStep(n, x);
      if HasPath(j, x, p) {
        var c :| c in RowsOf(j) && NameOf(c) == x[0] && HasPath(c, x[1..], p);
        var k := SubdirectoryOfRow(name, Some(full), n, c);
        RowNodePaths(k, ChildPath(full, k), n.children[k], x[1..], p);
      }
      if Folder(n, x) && p == SlashPath(full, x) {
        var k := x[0];
        RowNodePaths(k, ChildPath(full, k), n.children[k], x[1..], p);
        RowOfSubdirectory(name, Some(full), n, k);
      }
    } else {
      assert PathOf(j) == full;
    }
  }

  /** The folders of a node are the routes the directory-only walk of `list_folders_tree` queues. */
  lemma FoldersAreQueued(n: FSNode, x: Route)
    requires n.fileType == Directory
    ensures Folder(n, x) <==> x in DirRoutes(n)
  {
    if Folder(n, x) {
      ExpandableInDirRoutes(n, x);
    }
    if x in DirRoutes(n) {
      DirRoutesExpandable(n, x);
    }
  }

  /** Each route the directory-only walk queues leads through directory children. */
  lemma {:induction false} DirRoutesExpandable(n: FSNode, x: Route)
    requires x in DirRoutes(n)
    ensures Expandable(n, x)
    decreases |x|
  {
    if x != [] {
      var k, r :| k in n.children && n.children[k].fileType == Directory && r in DirRoutes(n.children[k]) && x == [k] + r;
      assert x[0] == k && x[1..] == r;
      DirRoutesExpandable(n.children[k], r);
    }
  }

  /** `subtree_json(path)` holds exactly the folders of the node at `path`. */
  lemma SubtreeJsonFolders(root: FSNode, path: string, x: Route)
    requires GetChild(root, path).Some?
    ensures HasRow(SubtreeJson(root, path), x) <==> Folder(GetChild(root, path).value, x)
  {
    RowNodeRoutes(DisplayName(path), None, GetChild(root, path).value, x);
  }

  /**
   `subtree_as_json(path)` covers the same folders as `subtree_json(path)`
   except the subtree root itself, and records for each the path reached
   from the requested one.
   */
  lemma SubtreeAsJsonFolders(root: FSNode, path: string, x: Route)
    requires GetChild(root, path).Some?
    ensures InForest(SubtreeAsJson(root, path), x) <==> x != [] && HasRow(SubtreeJson(root, path), x)
  {
    var n := GetChild(root, path).value;
    var top := SubtreeAsJson(root, path);
    var j := RowNode(DisplayName(path), Some(TopPath(path)), n);
    assert top.items == RowsOf(j);
    SubtreeJsonFolders(root, path, x);
    RowNodeRoutes(DisplayName(path), Some(TopPath(path)), n, x);
  }

  /** The row reached along `x` in `subtree_as_json(path)` has the path `x` spells out below `path`. */
  lemma SubtreeAsJsonPaths(root: FSNode, path: string, x: Route, p: string)
    requires GetChild(root, path).Some? && x != []
    ensures (exists c :: c in SubtreeAsJson(root, path).items && NameOf(c) == x[0] && HasPath(c, x[1..], p))
      <==> Folder(GetChild(root, path).value, x) && p == SlashPath(TopPath(path), x)
  {
    var n := GetChild(root, path).value;
    var j := RowNode(DisplayName(path), Some(TopPath(path)), n);
    assert SubtreeAsJson(root, path).items == RowsOf(j);
    RowNodePaths(DisplayName(path), TopPath(path), n, x, p);
  }
}
