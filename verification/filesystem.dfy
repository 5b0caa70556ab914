/**
 The `FileSystem` wrapper: a path trie rebuilt from the device's `stat`
 listing on every refresh, with a running count of the nodes created.
 */
module FileSystems {
  import opened Options
  import opened FileTypes
  import opened Adb
  import opened FsTree
  import opened Seqs

  datatype FileSystem = FileSystem(root: FSNode, adb: AdbHelper, count: nat)

  /** `FileSystem::new`: an empty root directory and a helper that runs commands through `su`. */
  function NewFileSystem(deviceSerial: Option<string>): (fs: FileSystem)
    ensures fs.root == NewNode(DefaultInfo()) && fs.count == 0
    ensures fs.adb.root && fs.adb.deviceSerial == deviceSerial && fs.adb.adbPath == "adb"
  {
    FileSystem(NewNode(DefaultInfo()), WithRoot(NewHelper(deviceSerial)), 0)
  }

  /** The node type a listing entry gets: from the first permission character, `?` when there is none. */
  function EntryType(e: (string, FileInfo)): FileType
  {
    TypeOfPermissions(e.1.permissions)
  }

  /** `add_child` of each entry in turn, adding up the nodes created. */
  function InsertAll(n: FSNode, es: seq<(string, FileInfo)>): (res: (FSNode, nat))
    ensures es == [] ==> res == (n, 0)
    decreases |es|
  {
    if |es| == 0 then (n, 0)
    else
      var first := AddChild(n, es[0].0, EntryType(es[0]), es[0].1);
      var rest := InsertAll(first.0, es[1..]);
      (rest.0, first.1 + rest.1)
  }

  /**
   `refresh`: the root is reset before the listing is read, so a failed
   listing (`None`) leaves an empty tree and reports failure; otherwise
   every parsed entry is added and the count grows by the nodes created.
   */
  function Refresh(fs: FileSystem, output: Option<seq<string>>): (res: (FileSystem, bool))
    ensures res.0.adb == fs.adb
    ensures res.1 <==> output.Some?
    ensures output.None? ==> res.0.root == NewNode(DefaultInfo()) && res.0.count == fs.count
    ensures output.Some? ==> res.0.count == fs.count + |Prefixes(LoadAll(output.value))|
  {
    match output
    case None => (fs.(root := NewNode(DefaultInfo())), false)
    case Some(lines) =>
      var empty := NewNode(DefaultInfo());
      var built := InsertAll(empty, LoadAll(lines));
      InsertAllCount(empty, LoadAll(lines));
      assert Missing(empty, LoadAll(lines)) == Prefixes(LoadAll(lines));
      (fs.(root := built.0, count := fs.count + built.1), true)
  }

  /** Whether `q` leads to one of the entries' paths or to a directory on the way to one. */
  ghost predicate Covered(es: seq<(string, FileInfo)>, q: Route)
  {
    exists j :: 0 <= j < |es| && IsPrefix(q, Components(es[j].0))
  }

  /** One `add_child` leaves a node it does not name as it was, and creates it as a plain directory. */
  lemma AddChildOthers(n: FSNode, path: string, t: FileType, m: FileInfo, q: Route)
    requires Components(path) != q
    ensures var before := Lookup(n, q); var now := Lookup(AddChild(n, path, t, m).0, q);
      && (before.Some? ==> now.Some? && now.value.fileType == before.value.fileType && now.value.metadata == before.value.metadata)
      && (before.None? && now.Some? ==> now.value.fileType == Directory && now.value.metadata == DefaultInfo())
  {
    var r := Components(path);
    if IsPrefix(q, r) {
      assert |q| < |r|;
      assert r[..|q|] == q;
      AddAlongAncestors(n, r, t, m, |q|);
    } else {
      AddAlongFrame(n, r, t, m, q);
    }
  }

  /** The trie after adding entries holds what it held before, plus every prefix of the entries' paths. */
  lemma {:induction false} InsertAllNodes(n: FSNode, es: seq<(string, FileInfo)>, q: Route)
    ensures Lookup(InsertAll(n, es).0, q).Some? <==> Lookup(n, q).Some? || Covered(es, q)
    decreases |es|
  {
    if |es| > 0 {
      var first := AddChild(n, es[0].0, EntryType(es[0]), es[0].1);
      InsertAllNodes(first.0, es[1..], q);
      AddAlongNodes(n, Components(es[0].0), EntryType(es[0]), es[0].1, q);
      if Covered(es, q) {
        var j :| 0 <= j < |es| && IsPrefix(q, Components(es[j].0));
        if j > 0 {
          assert es[1..][j - 1] == es[j];
        }
      }
      if Covered(es[1..], q) {
        var j :| 0 <= j < |es[1..]| && IsPrefix(q, Components(es[1..][j].0));
        assert es[j + 1] == es[1..][j];
      }
    }
  }

  /** A node no entry names keeps its type and metadata, or is a plain directory when it is new. */
  lemma {:induction false} InsertAllOthers(n: FSNode, es: seq<(string, FileInfo)>, q: Route)
    requires forall j :: 0 <= j < |es| ==> Components(es[j].0) != q
    ensures var before := Lookup(n, q); var now := Lookup(InsertAll(n, es).0, q);
      && (before.Some? ==> now.Some? && now.value.fileType == before.value.fileType && now.value.metadata == before.value.metadata)
      && (before.None? && now.Some? ==> now.value.fileType == Directory && now.value.metadata == DefaultInfo())
    decreases |es|
  {
    if |es| > 0 {
      var first := AddChild(n, es[0].0, EntryType(es[0]), es[0].1);
      AddChildOthers(n, es[0].0, EntryType(es[0]), es[0].1, q);
      TailIndex(es);
      InsertAllOthers(first.0, es[1..], q);
    }
  }

  /** One step of `InsertAll`: the first entry is added, then the rest. */
  lemma InsertAllStep(n: FSNode, es: seq<(string, FileInfo)>)
    requires |es| > 0
    ensures InsertAll(n, es).0 == InsertAll(AddChild(n, es[0].0, EntryType(es[0]), es[0].1).0, es[1..]).0
  {
  }

  /** Whether the node of `e`'s path in `root` carries `e`'s type and metadata. */
  predicate Holds(root: FSNode, e: (string, FileInfo))
  {
    var now := Lookup(root, Components(e.0));
    now.Some? && now.value.fileType == EntryType(e) && now.value.metadata == e.1
  }

  /** The first entry decides its node when no later entry names the same path. */
  lemma FirstWins(n: FSNode, es: seq<(string, FileInfo)>)
    requires |es| > 0
    requires forall k :: 0 < k < |es| ==> Components(es[k].0) != Components(es[0].0)
    ensures Holds(InsertAll(n, es).0, es[0])
  {
    var first := AddChild(n, es[0].0, EntryType(es[0]), es[0].1);
    InsertAllStep(n, es);
    TailIndex(es);
    assert Lookup(first.0, Components(es[0].0)) == GetChild(first.0, es[0].0);
    InsertAllOthers(first.0, es[1..], Components(es[0].0));
  }

  /** The last entry naming a path decides the type and metadata of its node. */
  lemma {:induction false} InsertAllLastWins(n: FSNode, es: seq<(string, FileInfo)>, j: nat)
    requires j < |es|
    requires forall k :: j < k < |es| ==> Components(es[k].0) != Components(es[j].0)
    ensures Holds(InsertAll(n, es).0, es[j])
    decreases |es|
  {
    if j == 0 {
      FirstWins(n, es);
    } else {
      var first := AddChild(n, es[0].0, EntryType(es[0]), es[0].1);
      InsertAllStep(n, es);
      TailIndex(es);
      InsertAllLastWins(first.0, es[1..], j - 1);
      assert es[1..][j - 1] == es[j];
    }
  }

  /**
   After a successful refresh the tree is exactly the root plus every
   prefix of the listed paths: nothing survives from before the refresh.
   */
  lemma RefreshNodes(fs: FileSystem, lines: seq<string>, q: Route)
    ensures Lookup(Refresh(fs, Some(lines)).0.root, q).Some? <==> q == [] || Covered(LoadAll(lines), q)
  {
    InsertAllNodes(NewNode(DefaultInfo()), LoadAll(lines), q);
    if q != [] {
      assert Lookup(NewNode(DefaultInfo()), q).None?;
    }
  }

  /** After a successful refresh the node of a listed path carries the last listing entry for it. */
  lemma RefreshLastWins(fs: FileSystem, lines: seq<string>, j: nat)
    requires j < |LoadAll(lines)|
    requires forall k :: j < k < |LoadAll(lines)| ==> Components(LoadAll(lines)[k].0) != Components(LoadAll(lines)[j].0)
    ensures Holds(Refresh(fs, Some(lines)).0.root, LoadAll(lines)[j])
  {
    InsertAllLastWins(NewNode(DefaultInfo()), LoadAll(lines), j);
  }

  /** Directories created only because a listed path runs through them are plain directories. */
  lemma RefreshImplicitDirectories(fs: FileSystem, lines: seq<string>, q: Route)
    requires q != []
    requires forall j :: 0 <= j < |LoadAll(lines)| ==> Components(LoadAll(lines)[j].0) != q
    requires Lookup(Refresh(fs, Some(lines)).0.root, q).Some?
    ensures Lookup(Refresh(fs, Some(lines)).0.root, q).value.fileType == Directory
    ensures Lookup(Refresh(fs, Some(lines)).0.root, q).value.metadata == DefaultInfo()
  {
    assert Lookup(NewNode(DefaultInfo()), q).None?;
    InsertAllOthers(NewNode(DefaultInfo()), LoadAll(lines), q);
  }

  /* ---------------------------------------------------------------------- */
  /* The node count                                                         */
  /* ---------------------------------------------------------------------- */

  /** The non-empty prefixes of a route: the nodes on the way to its end, and the end. */
  function RoutePrefixes(r: Route, b: nat): (p: set<Route>)
    requires b <= |r|
  {
    set k | 0 < k <= b :: r[..k]
  }

  /** The non-empty routes the entries' paths lead through. */
  function Prefixes(es: seq<(string, FileInfo)>): (p: set<Route>)
    ensures forall q :: q in p ==> q != []
  {
    if |es| == 0 then {}
    else RoutePrefixes(Components(es[0].0), |Components(es[0].0)|) + Prefixes(es[1..])
  }

  /** The non-empty prefixes of `r` that `n` lacks. */
  function Lacking(n: FSNode, r: Route): set<Route>
  {
    set q | q in RoutePrefixes(r, |r|) && Lookup(n, q).None?
  }

  /** The routes of the entries that `n` lacks: the nodes inserting them creates. */
  function Missing(n: FSNode, es: seq<(string, FileInfo)>): set<Route>
  {
    set q | q in Prefixes(es) && Lookup(n, q).None?
  }

  /** A route is a non-empty prefix of `r` no longer than `b` exactly when it is one of `r`'s first `b` prefixes. */
  lemma InRoutePrefixes(r: Route, b: nat, q: Route)
    requires b <= |r|
    ensures q in RoutePrefixes(r, b) <==> 0 < |q| <= b && IsPrefix(q, r)
  {
    if 0 < |q| <= b && IsPrefix(q, r) {
      assert q == r[..|q|];
    }
  }

  /** The prefixes of lengths `a + 1` to `b` are `b - a` different routes. */
  lemma {:induction false} PrefixRangeSize(r: Route, a: nat, b: nat)
    requires a <= b <= |r|
    ensures |set k | a < k <= b :: r[..k]| == b - a
    decreases b - a
  {
    var s := set k | a < k <= b :: r[..k];
    if a == b {
      assert s == {};
    } else {
      var s' := set k | a < k <= b - 1 :: r[..k];
      PrefixRangeSize(r, a, b - 1);
      assert s == s' + {r[..b]};
      forall x | x in s'
        ensures |x| < b
      {
        var k :| a < k <= b - 1 && x == r[..k];
      }
    }
  }

  /** Adding a path creates exactly the nodes on its route that were missing. */
  lemma AddChildCreates(n: FSNode, path: string, t: FileType, m: FileInfo)
    ensures var r := Components(path);
      AddChild(n, path, t, m).1 == |Lacking(n, r)|
  {
    var r := Components(path);
    var reach := Reach(n, r);
    var created := Lacking(n, r);
    var range := set k | reach < k <= |r| :: r[..k];
    forall q | q in created
      ensures q in range
    {
      InRoutePrefixes(r, |r|, q);
      LookupPrefix(n, r, |q|);
      assert q == r[..|q|];
    }
    forall q | q in range
      ensures q in created
    {
      var k :| reach < k <= |r| && q == r[..k];
      LookupPrefix(n, r, k);
      InRoutePrefixes(r, |r|, q);
    }
    assert created == range;
    PrefixRangeSize(r, reach, |r|);
    assert AddChild(n, path, t, m) == AddAlong(n, r, t, m);
  }

  /** After adding a path, the routes of later entries still missing are those it did not create. */
  lemma MissingAfterAdd(n: FSNode, e: (string, FileInfo), es: seq<(string, FileInfo)>)
    ensures var r := Components(e.0);
      Missing(AddChild(n, e.0, EntryType(e), e.1).0, es)
        == Missing(n, es) - Lacking(n, r)
  {
    var r := Components(e.0);
    var after := AddChild(n, e.0, EntryType(e), e.1).0;
    forall q | q in Prefixes(es)
      ensures Lookup(after, q).None? <==> Lookup(n, q).None? && !IsPrefix(q, r)
    {
      AddAlongNodes(n, r, EntryType(e), e.1, q);
    }
    forall q | q in Prefixes(es)
      ensures q in RoutePrefixes(r, |r|) <==> IsPrefix(q, r)
    {
      InRoutePrefixes(r, |r|, q);
    }
  }

  /** The routes the first entry lacks, then those the others lack. */
  lemma MissingSplit(n: FSNode, es: seq<(string, FileInfo)>)
    requires |es| > 0
    ensures var r := Components(es[0].0);
      Missing(n, es) == Lacking(n, r) + Missing(n, es[1..])
  {
  }

  /** A union counts the first set and what the second adds to it. */
  lemma UnionSize<T>(a: set<T>, b: set<T>)
    ensures |a + b| == |a| + |b - a|
  {
    assert a + b == a + (b - a);
    assert a * (b - a) == {};
  }

  /** Inserting the entries counts exactly the nodes it creates: the routes of the entries `n` lacks. */
  lemma {:induction false} InsertAllCount(n: FSNode, es: seq<(string, FileInfo)>)
    ensures InsertAll(n, es).1 == |Missing(n, es)|
    decreases |es|
  {
    if |es| == 0 {
      assert Missing(n, es) == {};
    } else {
      var r := Components(es[0].0);
      var first := AddChild(n, es[0].0, EntryType(es[0]), es[0].1);
      var created := Lacking(n, r);
      InsertAllCount(first.0, es[1..]);
      AddChildCreates(n, es[0].0, EntryType(es[0]), es[0].1);
      MissingAfterAdd(n, es[0], es[1..]);
      MissingSplit(n, es);
      UnionSize(created, Missing(n, es[1..]));
    }
  }

  /**
   What a successful refresh adds to the count, the non-empty routes of the
   listed paths, are exactly the nodes below the new root.
   */
  lemma RefreshCount(fs: FileSystem, lines: seq<string>, q: Route)
    ensures q in Prefixes(LoadAll(lines)) <==> q != [] && Lookup(Refresh(fs, Some(lines)).0.root, q).Some?
  {
    RefreshNodes(fs, lines, q);
    PrefixesCovered(LoadAll(lines), q);
  }

  /** The routes of the entries are the non-empty routes leading to or through one of their paths. */
  lemma {:induction false} PrefixesCovered(es: seq<(string, FileInfo)>, q: Route)
    ensures q in Prefixes(es) <==> q != [] && Covered(es, q)
    decreases |es|
  {
    if |es| > 0 {
      var r := Components(es[0].0);
      PrefixesCovered(es[1..], q);
      InRoutePrefixes(r, |r|, q);
      if Covered(es, q) {
        var j :| 0 <= j < |es| && IsPrefix(q, Components(es[j].0));
        if j > 0 {
          assert es[1..][j - 1] == es[j];
        }
      }
      if Covered(es[1..], q) {
        var j :| 0 <= j < |es[1..]| && IsPrefix(q, Components(es[1..][j].0));
        assert es[j + 1] == es[1..][j];
      }
    }
  }

  /**
   The tree is rebuilt from scratch but the count is not reset: refreshing
   twice from the same listing gives the same tree and counts its nodes twice.
   */
  lemma RefreshTwice(fs: FileSystem, lines: seq<string>)
    ensures var once := Refresh(fs, Some(lines)).0; var twice := Refresh(once, Some(lines)).0;
      twice.root == once.root && twice.count - once.count == once.count - fs.count
  {
  }
}
