/**
 The two listings of the path trie: one level (`list_children`) and the
 breadth-first walk through directories (`list_folders_tree`). Children sit
 in a hash map whose iteration order is unspecified, so the methods here
 pick the next key arbitrarily and the contracts say nothing about the
 order among siblings.
 */
module FsListing {
  import opened Options
  import opened FileTypes
  import opened FsTree

  /* ---------------------------------------------------------------------- */
  /* Hash map iteration                                                     */
  /* ---------------------------------------------------------------------- */

  /** Every key of `m` once, in an order the caller must not rely on. */
  method MapKeys<V>(m: map<string, V>) returns (keys: seq<string>)
    ensures |keys| == |m|
    ensures forall i :: 0 <= i < |keys| ==> keys[i] in m
    ensures forall k :: k in m ==> k in keys
    ensures forall i, j :: 0 <= i < j < |keys| ==> keys[i] != keys[j]
  {
    keys := [];
    var rest := m.Keys;
    while rest != {}
      invariant rest <= m.Keys
      invariant forall i :: 0 <= i < |keys| ==> keys[i] in m && keys[i] !in rest
      invariant forall k :: k in m ==> k in keys || k in rest
      invariant forall i, j :: 0 <= i < j < |keys| ==> keys[i] != keys[j]
      invariant |keys| + |rest| == |m.Keys|
      decreases |rest|
    {
      var k :| k in rest;
      keys := keys + [k];
      rest := rest - {k};
    }
  }

  /* ---------------------------------------------------------------------- */
  /* list_children                                                          */
  /* ---------------------------------------------------------------------- */

  datatype ChildEntry = ChildEntry(name: string, fileType: FileType, metadata: FileInfo)

  /**
   `list_children(path)`: nothing when the path is absent, otherwise one
   entry per child of the node there, with the child's type and metadata.
   */
  method ListChildren(root: FSNode, path: string) returns (entries: seq<ChildEntry>)
    ensures GetChild(root, path).None? ==> entries == []
    ensures GetChild(root, path).Some? ==>
      var n := GetChild(root, path).value;
      && |entries| == |n.children|
      && (forall i :: 0 <= i < |entries| ==>
            (entries[i].name in n.children
             && entries[i].fileType == n.children[entries[i].name].fileType
             && entries[i].metadata == n.children[entries[i].name].metadata))
      && (forall name :: name in n.children ==> exists i :: 0 <= i < |entries| && entries[i].name == name)
      && (forall i, j :: 0 <= i < j < |entries| ==> entries[i].name != entries[j].name)
  {
    var found := GetChild(root, path);
    if found.None? {
      return [];
    }
    var n := found.value;
    var keys := MapKeys(n.children);
    entries := seq(|keys|, i requires 0 <= i < |keys| =>
      ChildEntry(keys[i], n.children[keys[i]].fileType, n.children[keys[i]].metadata));
    forall name | name in n.children
      ensures exists i :: 0 <= i < |entries| && entries[i].name == name
    {
      var i :| 0 <= i < |keys| && keys[i] == name;
      assert entries[i].name == name;
    }
  }

  /* ---------------------------------------------------------------------- */
  /* list_folders_tree                                                      */
  /* ---------------------------------------------------------------------- */

  /** A result row: the joined path, the node's type and its number of children. */
  datatype FolderEntry = FolderEntry(path: string, fileType: FileType, childCount: nat)

  function Parent(r: Route): Route
    requires |r| > 0
  {
    r[..|r| - 1]
  }

  /**
   Whether the walk queues the node at `e`: the start node is always
   queued, any other node when it and every node above it, below the start,
   is a directory.
   */
  ghost predicate Expandable(n: FSNode, e: Route)
    decreases |e|
  {
    e == [] || (e[0] in n.children && n.children[e[0]].fileType == Directory && Expandable(n.children[e[0]], e[1..]))
  }

  /** Whether the walk lists the node at `r`: it is a child of a queued node. */
  ghost predicate Listed(n: FSNode, r: Route)
  {
    |r| > 0 && Expandable(n, Parent(r)) && Lookup(n, r).Some?
  }

  /** The row listed for the node at `r`, below the start path `base`. */
  ghost function EntryAt(n: FSNode, base: string, r: Route): FolderEntry
    requires Lookup(n, r).Some?
  {
    var node := Lookup(n, r).value;
    FolderEntry(RoutePath(base, r), node.fileType, |node.children|)
  }

  /** `base.join(r[0]).join(r[1])...`. */
  function RoutePath(base: string, r: Route): string
  {
    if |r| == 0 then base else JoinPath(RoutePath(base, Parent(r)), r[|r| - 1])
  }

  /** Every queued route, as a finite set. */
  ghost function DirRoutes(n: FSNode): set<Route>
    decreases n
  {
    {[]} + (set k, r | k in n.children && n.children[k].fileType == Directory && r in DirRoutes(n.children[k]) :: [k] + r)
  }

  lemma {:induction false} ExpandableInDirRoutes(n: FSNode, e: Route)
    requires Expandable(n, e)
    ensures e in DirRoutes(n)
    decreases |e|
  {
    if e != [] {
      ExpandableInDirRoutes(n.children[e[0]], e[1..]);
      assert e == [e[0]] + e[1..];
    }
  }

  lemma {:induction false} ExpandableFound(n: FSNode, e: Route)
    requires Expandable(n, e)
    ensures Lookup(n, e).Some?
    decreases |e|
  {
    if e != [] {
      ExpandableFound(n.children[e[0]], e[1..]);
    }
  }

  /** Extending a queued route by one directory child keeps it queued, and only that. */
  lemma {:induction false} ExpandableSnoc(n: FSNode, e: Route, k: string)
    ensures Expandable(n, e + [k]) <==>
      Expandable(n, e) && Lookup(n, e + [k]).Some? && Lookup(n, e + [k]).value.fileType == Directory
    decreases |e|
  {
    if e == [] {
      assert e + [k] == [k];
      assert [k][1..] == [];
    } else {
      assert (e + [k])[0] == e[0];
      assert (e + [k])[1..] == e[1..] + [k];
      if e[0] in n.children {
        ExpandableSnoc(n.children[e[0]], e[1..], k);
      }
    }
  }

  /** A non-empty route is its parent plus its last component. */
  lemma ParentSnoc(r: Route)
    requires |r| > 0
    ensures r == Parent(r) + [r[|r| - 1]]
  {
  }

  predicate Distinct<T(==)>(s: seq<T>)
  {
    forall i, j :: 0 <= i < j < |s| ==> s[i] != s[j]
  }

  /** Lengths never decrease along `s`. */
  predicate ByDepth(s: seq<Route>)
  {
    forall i, j :: 0 <= i <= j < |s| ==> |s[i]| <= |s[j]|
  }

  /** `r + [k]` for each `k` of `names`. */
  function Extend(r: Route, names: seq<string>): (out: seq<Route>)
    ensures |out| == |names|
    ensures forall i :: 0 <= i < |out| ==> out[i] == r + [names[i]] && Parent(out[i]) == r
  {
    seq(|names|, i requires 0 <= i < |names| => r + [names[i]])
  }

  /** The queue half of the walk's state. */
  ghost predicate QueueState(n: FSNode, done: set<Route>, queue: seq<Route>)
  {
    && (forall e :: e in done ==> Expandable(n, e))
    && (forall i :: 0 <= i < |queue| ==> Expandable(n, queue[i]) && queue[i] !in done)
    && Distinct(queue)
    && ([] in done || [] in queue)
  }

  /** A queued node's children are queued (directories) and listed (all) exactly once it is popped. */
  ghost predicate Closed(n: FSNode, done: set<Route>, queue: seq<Route>)
  {
    forall e :: Expandable(n, e) && |e| > 0 ==> ((e in done || e in queue) <==> Parent(e) in done)
  }

  ghost predicate RoutesState(n: FSNode, done: set<Route>, routes: seq<Route>)
  {
    && (forall i :: 0 <= i < |routes| ==> Listed(n, routes[i]))
    && (forall r :: Listed(n, r) ==> (r in routes <==> Parent(r) in done))
    && Distinct(routes)
  }

  /**
   The state of the walk: `done` holds the routes already popped, `queue`
   the routes waiting, `routes` the routes listed so far.
   */
  ghost predicate WalkState(n: FSNode, done: set<Route>, queue: seq<Route>, routes: seq<Route>)
  {
    QueueState(n, done, queue) && Closed(n, done, queue) && RoutesState(n, done, routes)
  }

  /** Breadth-first order: the queue spans at most two depths and nothing listed is deeper than the second. */
  ghost predicate Layered(queue: seq<Route>, routes: seq<Route>)
  {
    && ByDepth(queue)
    && ByDepth(routes)
    && (|queue| > 0 ==> |queue[|queue| - 1]| <= |queue[0]| + 1)
    && (|queue| > 0 && |routes| > 0 ==> |routes[|routes| - 1]| <= |queue[0]| + 1)
  }

  /** The children of the popped node, listed and (directories only) queued. */
  ghost predicate Expansion(n: FSNode, e: Route, names: seq<string>, dirs: seq<string>)
    requires Lookup(n, e).Some?
  {
    var node := Lookup(n, e).value;
    && Distinct(names)
    && (forall k :: k in node.children <==> k in names)
    && Distinct(dirs)
    && (forall k :: (k in node.children && node.children[k].fileType == Directory) <==> k in dirs)
  }

  /** Below a queued node, the queued children are the directory children and the listed ones all children. */
  lemma ChildOfPopped(n: FSNode, e: Route, names: seq<string>, dirs: seq<string>, k: string)
    requires Expandable(n, e) && Lookup(n, e).Some? && Expansion(n, e, names, dirs)
    ensures Parent(e + [k]) == e
    ensures Expandable(n, e + [k]) <==> k in dirs
    ensures Listed(n, e + [k]) <==> k in names
  {
    ExpandableSnoc(n, e, k);
    LookupSnoc(n, e, k);
    assert Parent(e + [k]) == e;
  }

  lemma PopKeepsQueueState(n: FSNode, done: set<Route>, queue: seq<Route>, names: seq<string>, dirs: seq<string>)
    requires QueueState(n, done, queue) && Closed(n, done, queue) && |queue| > 0
    requires Lookup(n, queue[0]).Some? && Expansion(n, queue[0], names, dirs)
    ensures QueueState(n, done + {queue[0]}, queue[1..] + Extend(queue[0], dirs))
  {
    var e := queue[0];
    var done' := done + {e};
    var queue' := queue[1..] + Extend(e, dirs);
    forall i | 0 <= i < |queue'|
      ensures Expandable(n, queue'[i]) && queue'[i] !in done'
    {
      if i >= |queue| - 1 {
        var k := dirs[i - (|queue| - 1)];
        assert queue'[i] == e + [k];
        ChildOfPopped(n, e, names, dirs, k);
      } else {
        assert queue'[i] == queue[i + 1];
      }
    }
    PopKeepsDistinctQueue(n, done, queue, names, dirs);
    if [] in queue && [] != e {
      var i :| 0 <= i < |queue| && queue[i] == [];
      assert queue'[i - 1] == [];
    }
  }

  lemma PopKeepsDistinctQueue(n: FSNode, done: set<Route>, queue: seq<Route>, names: seq<string>, dirs: seq<string>)
    requires QueueState(n, done, queue) && Closed(n, done, queue) && |queue| > 0
    requires Lookup(n, queue[0]).Some? && Expansion(n, queue[0], names, dirs)
    ensures Distinct(queue[1..] + Extend(queue[0], dirs))
  {
    var e := queue[0];
    var added := Extend(e, dirs);
    forall i, j | 0 <= i < j < |added|
      ensures added[i] != added[j]
    {
      assert added[i] == e + [dirs[i]] && added[j] == e + [dirs[j]];
      assert added[i][|e|] == dirs[i];
    }
    forall i, j | 0 <= i < |queue[1..]| && 0 <= j < |added|
      ensures queue[1..][i] != added[j]
    {
      OldNotChildOfPopped(n, done, queue, i + 1, names, dirs, dirs[j]);
    }
    DistinctConcat(queue[1..], added);
  }

  lemma DistinctConcat<T>(a: seq<T>, b: seq<T>)
    requires Distinct(a) && Distinct(b)
    requires forall i, j :: 0 <= i < |a| && 0 <= j < |b| ==> a[i] != b[j]
    ensures Distinct(a + b)
  {
    forall i, j | 0 <= i < j < |a + b|
      ensures (a + b)[i] != (a + b)[j]
    {
      if j < |a| {
        assert (a + b)[i] == a[i] && (a + b)[j] == a[j];
      } else if i >= |a| {
        assert (a + b)[i] == b[i - |a|] && (a + b)[j] == b[j - |a|];
      } else {
        assert (a + b)[i] == a[i] && (a + b)[j] == b[j - |a|];
      }
    }
  }

  /** A route already waiting behind the head is no child of the head: its parent was popped earlier. */
  lemma OldNotChildOfPopped(n: FSNode, done: set<Route>, queue: seq<Route>, i: nat,
                            names: seq<string>, dirs: seq<string>, k: string)
    requires QueueState(n, done, queue) && Closed(n, done, queue) && 0 < i < |queue|
    requires Lookup(n, queue[0]).Some? && Expansion(n, queue[0], names, dirs)
    ensures queue[i] != queue[0] + [k]
  {
  }

  lemma PopKeepsClosed(n: FSNode, done: set<Route>, queue: seq<Route>, names: seq<string>, dirs: seq<string>)
    requires QueueState(n, done, queue) && Closed(n, done, queue) && |queue| > 0
    requires Lookup(n, queue[0]).Some? && Expansion(n, queue[0], names, dirs)
    ensures Closed(n, done + {queue[0]}, queue[1..] + Extend(queue[0], dirs))
  {
    var e := queue[0];
    var done' := done + {e};
    var queue' := queue[1..] + Extend(e, dirs);
    forall x | Expandable(n, x) && |x| > 0
      ensures (x in done' || x in queue') <==> Parent(x) in done'
    {
      ParentSnoc(x);
      var k := x[|x| - 1];
      if Parent(x) == e {
        ChildOfPopped(n, e, names, dirs, k);
        if k in dirs {
          var j :| 0 <= j < |dirs| && dirs[j] == k;
          assert queue'[|queue| - 1 + j] == x;
        }
      } else {
        if x in queue' {
          var i :| 0 <= i < |queue'| && queue'[i] == x;
          if i < |queue| - 1 {
            assert x == queue[i + 1];
          }
        }
        if x in queue {
          var i :| 0 <= i < |queue| && queue[i] == x;
          if i > 0 {
            assert queue'[i - 1] == x;
          }
        }
      }
    }
  }

  lemma PopKeepsRoutesState(n: FSNode, done: set<Route>, queue: seq<Route>, routes: seq<Route>,
                            names: seq<string>, dirs: seq<string>)
    requires QueueState(n, done, queue) && RoutesState(n, done, routes) && |queue| > 0
    requires Lookup(n, queue[0]).Some? && Expansion(n, queue[0], names, dirs)
    ensures RoutesState(n, done + {queue[0]}, routes + Extend(queue[0], names))
  {
    var e := queue[0];
    var done' := done + {e};
    var routes' := routes + Extend(e, names);
    forall i | 0 <= i < |routes'|
      ensures Listed(n, routes'[i])
    {
      if i >= |routes| {
        assert routes'[i] == e + [names[i - |routes|]];
        ChildOfPopped(n, e, names, dirs, names[i - |routes|]);
      } else {
        assert routes'[i] == routes[i];
      }
    }
    forall r | Listed(n, r)
      ensures r in routes' <==> Parent(r) in done'
    {
      ParentSnoc(r);
      var k := r[|r| - 1];
      if Parent(r) == e {
        ChildOfPopped(n, e, names, dirs, k);
        var j :| 0 <= j < |names| && names[j] == k;
        assert routes'[|routes| + j] == r;
      } else if r in routes' {
        var i :| 0 <= i < |routes'| && routes'[i] == r;
        if i < |routes| {
          assert routes[i] == r;
        }
      }
    }
    forall i, j | 0 <= i < j < |routes'|
      ensures routes'[i] != routes'[j]
    {
      if j >= |routes| && i < |routes| {
        assert Parent(routes'[j]) == e;
        assert routes'[i] == routes[i];
      } else if i >= |routes| {
        assert routes'[i] == e + [names[i - |routes|]];
        assert routes'[j] == e + [names[j - |routes|]];
      } else {
        assert routes'[i] == routes[i] && routes'[j] == routes[j];
      }
    }
  }

  /** Each row is the row of the node its route names. */
  ghost predicate RowsMatch(s: FSNode, base: string, routes: seq<Route>, entries: seq<FolderEntry>)
  {
    |entries| == |routes| &&
    forall i :: 0 <= i < |routes| ==> Lookup(s, routes[i]).Some? && entries[i] == EntryAt(s, base, routes[i])
  }

  /** Each queued path and node is the one its route names. */
  ghost predicate QueueMatches(s: FSNode, base: string, queue: seq<(string, FSNode)>, queued: seq<Route>)
  {
    |queue| == |queued| &&
    forall i :: 0 <= i < |queue| ==> Lookup(s, queued[i]) == Some(queue[i].1) && queue[i].0 == RoutePath(base, queued[i])
  }

  /** The loop invariant of the walk. */
  ghost predicate WalkInv(s: FSNode, base: string, done: set<Route>, queue: seq<(string, FSNode)>, queued: seq<Route>,
                          routes: seq<Route>, entries: seq<FolderEntry>)
  {
    && QueueMatches(s, base, queue, queued)
    && QueueState(s, done, queued) && Closed(s, done, queued) && RoutesState(s, done, routes)
    && Layered(queued, routes)
    && RowsMatch(s, base, routes, entries)
  }

  /** Handling the head keeps the breadth-first layering. */
  lemma PopKeepsLayered(queue: seq<Route>, routes: seq<Route>, names: seq<string>, dirs: seq<string>)
    requires Layered(queue, routes) && |queue| > 0
    ensures Layered(queue[1..] + Extend(queue[0], dirs), routes + Extend(queue[0], names))
  {
    var e := queue[0];
    var queue' := queue[1..] + Extend(e, dirs);
    QueueLayers(queue, dirs);
    RoutesLayers(routes, |e|, Extend(e, names));
    if |queue'| > 0 && |routes| > 0 && |names| == 0 {
      assert |queue'[0]| >= |e|;
    }
  }

  lemma QueueLayers(queue: seq<Route>, dirs: seq<string>)
    requires ByDepth(queue) && |queue| > 0 && |queue[|queue| - 1]| <= |queue[0]| + 1
    ensures var queue' := queue[1..] + Extend(queue[0], dirs);
      ByDepth(queue') && (|queue'| > 0 ==> |queue[0]| <= |queue'[0]| && |queue'[|queue'| - 1]| <= |queue'[0]| + 1)
  {
    var e := queue[0];
    var queue' := queue[1..] + Extend(e, dirs);
    forall i | 0 <= i < |queue'|
      ensures |e| <= |queue'[i]| <= |e| + 1
    {
      if i < |queue| - 1 {
        assert queue'[i] == queue[i + 1];
      }
    }
    forall i, j | 0 <= i <= j < |queue'|
      ensures |queue'[i]| <= |queue'[j]|
    {
      if j < |queue| - 1 {
        assert queue'[i] == queue[i + 1] && queue'[j] == queue[j + 1];
      } else if i < |queue| - 1 {
        assert queue'[i] == queue[i + 1];
      }
    }
  }

  lemma RoutesLayers(routes: seq<Route>, depth: nat, added: seq<Route>)
    requires ByDepth(routes) && (|routes| > 0 ==> |routes[|routes| - 1]| <= depth + 1)
    requires forall i :: 0 <= i < |added| ==> |added[i]| == depth + 1
    ensures ByDepth(routes + added)
    ensures |routes + added| > 0 ==> |(routes + added)[|routes + added| - 1]| <= depth + 1
  {
    var routes' := routes + added;
    forall i, j | 0 <= i <= j < |routes'|
      ensures |routes'[i]| <= |routes'[j]|
    {
      if j < |routes| {
        assert routes'[i] == routes[i] && routes'[j] == routes[j];
      } else if i < |routes| {
        assert routes'[i] == routes[i];
        assert |routes[i]| <= |routes[|routes| - 1]|;
      }
    }
  }

  /** When the queue runs dry every queued route has been popped, so every listable route is listed. */
  lemma {:induction false} WalkDone(n: FSNode, done: set<Route>, routes: seq<Route>, e: Route)
    requires QueueState(n, done, []) && Closed(n, done, [])
    requires Expandable(n, e)
    ensures e in done
    decreases |e|
  {
    if e != [] {
      var k := e[|e| - 1];
      ParentSnoc(e);
      ExpandableSnoc(n, Parent(e), k);
      WalkDone(n, done, routes, Parent(e));
    }
  }

  /** The row for a child of the node at `e`. */
  lemma EntryOfChild(n: FSNode, base: string, e: Route, node: FSNode, k: string)
    requires Lookup(n, e) == Some(node) && k in node.children
    ensures Lookup(n, e + [k]) == Some(node.children[k])
    ensures EntryAt(n, base, e + [k]) ==
      FolderEntry(JoinPath(RoutePath(base, e), k), node.children[k].fileType, |node.children[k].children|)
  {
    LookupSnoc(n, e, k);
    assert Parent(e + [k]) == e;
  }

  /** The names among `names` whose child is a directory, in the same order. */
  function DirNames(node: FSNode, names: seq<string>): (dirs: seq<string>)
    requires forall i :: 0 <= i < |names| ==> names[i] in node.children
    ensures forall k :: k in dirs <==> k in names && node.children[k].fileType == Directory
    ensures forall i :: 0 <= i < |dirs| ==> dirs[i] in node.children
    ensures Distinct(names) ==> Distinct(dirs)
  {
    if |names| == 0 then []
    else
      var rest := DirNames(node, names[1..]);
      assert Distinct(names) ==> names[0] !in names[1..];
      if node.children[names[0]].fileType == Directory then [names[0]] + rest else rest
  }

  /**
   One step of the walk: a row for every child of `node` (whose path is
   `at`) and, for every directory child, its joined path and node to queue.
   */
  method ExpandNode(node: FSNode, at: string)
    returns (found: seq<FolderEntry>, names: seq<string>, next: seq<(string, FSNode)>, dirs: seq<string>)
    ensures Distinct(names) && (forall k :: k in node.children <==> k in names)
    ensures |found| == |names|
    ensures forall i :: 0 <= i < |found| ==>
      (names[i] in node.children &&
       found[i] == FolderEntry(JoinPath(at, names[i]), node.children[names[i]].fileType,
                               |node.children[names[i]].children|))
    ensures Distinct(dirs) && (forall k :: (k in node.children && node.children[k].fileType == Directory) <==> k in dirs)
    ensures |next| == |dirs|
    ensures forall i :: 0 <= i < |next| ==> dirs[i] in node.children && next[i] == (JoinPath(at, dirs[i]), node.children[dirs[i]])
  {
    names := MapKeys(node.children);
    found := seq(|names|, i requires 0 <= i < |names| =>
      FolderEntry(JoinPath(at, names[i]), node.children[names[i]].fileType, |node.children[names[i]].children|));
    dirs := DirNames(node, names);
    next := seq(|dirs|, i requires 0 <= i < |dirs| => (JoinPath(at, dirs[i]), node.children[dirs[i]]));
  }

  /**
   `list_folders_tree(path)`: nothing when the path is absent; otherwise,
   breadth-first from the node there, a row for every child of every queued
   node, where the start node is queued and so is every directory reached.
   Each row carries the joined path, the type and the number of children.
   The ghost `routes` names the node behind each row.
   */
  method ListFoldersTree(root: FSNode, path: string) returns (entries: seq<FolderEntry>, ghost routes: seq<Route>)
    ensures GetChild(root, path).None? ==> entries == []
    ensures GetChild(root, path).Some? ==>
      var s := GetChild(root, path).value;
      && |routes| == |entries|
      && (forall i :: 0 <= i < |routes| ==> Listed(s, routes[i]) && entries[i] == EntryAt(s, path, routes[i]))
      && (forall r :: Listed(s, r) ==> r in routes)
      && Distinct(routes)
      && ByDepth(routes)
  {
    var target := GetChild(root, path);
    if target.None? {
      return [], [];
    }
    var s := target.value;
    var queue: seq<(string, FSNode)> := [(path, s)];
    ghost var queued: seq<Route> := [[]];
    ghost var done: set<Route> := {};
    entries := [];
    routes := [];
    WalkStart(s, path);
    while |queue| > 0
      invariant WalkInv(s, path, done, queue, queued, routes, entries)
      decreases |DirRoutes(s) - done|
    {
      var at := queue[0].0;
      var node := queue[0].1;
      ghost var e := queued[0];
      var found, names, next, dirs := ExpandNode(node, at);
      WalkStep(s, path, done, queue, queued, routes, entries, node, at, found, names, next, dirs);
      entries := entries + found;
      routes := routes + Extend(e, names);
      queue := queue[1..] + next;
      queued := queued[1..] + Extend(e, dirs);
      done := done + {e};
    }
    WalkComplete(s, done, routes);
  }

  lemma WalkStart(s: FSNode, base: string)
    ensures WalkInv(s, base, {}, [(base, s)], [[]], [], [])
  {
  }

  lemma WalkComplete(s: FSNode, done: set<Route>, routes: seq<Route>)
    requires QueueState(s, done, []) && Closed(s, done, []) && RoutesState(s, done, routes)
    ensures forall r :: Listed(s, r) ==> r in routes
  {
    forall r | Listed(s, r)
      ensures r in routes
    {
      WalkDone(s, done, routes, Parent(r));
    }
  }

  /** Everything one iteration of the walk preserves, and the progress it makes. */
  lemma WalkStep(s: FSNode, base: string, done: set<Route>, queue: seq<(string, FSNode)>, queued: seq<Route>,
                 routes: seq<Route>, entries: seq<FolderEntry>, node: FSNode, at: string,
                 found: seq<FolderEntry>, names: seq<string>, next: seq<(string, FSNode)>, dirs: seq<string>)
    requires WalkInv(s, base, done, queue, queued, routes, entries)
    requires |queue| > 0 && queue[0] == (at, node)
    requires Distinct(names) && (forall k :: k in node.children <==> k in names)
    requires |found| == |names|
    requires forall i :: 0 <= i < |found| ==>
      (names[i] in node.children &&
       found[i] == FolderEntry(JoinPath(at, names[i]), node.children[names[i]].fileType,
                               |node.children[names[i]].children|))
    requires Distinct(dirs) && (forall k :: (k in node.children && node.children[k].fileType == Directory) <==> k in dirs)
    requires |next| == |dirs|
    requires forall i :: 0 <= i < |next| ==> dirs[i] in node.children && next[i] == (JoinPath(at, dirs[i]), node.children[dirs[i]])
    ensures WalkInv(s, base, done + {queued[0]}, queue[1..] + next, queued[1..] + Extend(queued[0], dirs),
                    routes + Extend(queued[0], names), entries + found)
    ensures |DirRoutes(s) - (done + {queued[0]})| < |DirRoutes(s) - done|
  {
    var e := queued[0];
    assert Lookup(s, e) == Some(node) && at == RoutePath(base, e);
    assert Expansion(s, e, names, dirs);
    PopKeepsQueueState(s, done, queued, names, dirs);
    PopKeepsClosed(s, done, queued, names, dirs);
    PopKeepsRoutesState(s, done, queued, routes, names, dirs);
    PopKeepsLayered(queued, routes, names, dirs);
    AddRows(s, base, e, node, at, routes, entries, found, names);
    assert QueueMatches(s, base, queue[1..], queued[1..]) by {
      forall i | 0 <= i < |queue| - 1
        ensures Lookup(s, queued[1..][i]) == Some(queue[1..][i].1) && queue[1..][i].0 == RoutePath(base, queued[1..][i])
      {
        assert queued[1..][i] == queued[i + 1] && queue[1..][i] == queue[i + 1];
      }
    }
    QueueChildren(s, base, e, node, at, queue[1..], queued[1..], next, dirs);
    Progress(s, done, e);
  }

  /** Popping a queued route that was not popped before shrinks what is left to pop. */
  lemma Progress(s: FSNode, done: set<Route>, e: Route)
    requires Expandable(s, e) && e !in done
    ensures |DirRoutes(s) - (done + {e})| < |DirRoutes(s) - done|
  {
    ExpandableInDirRoutes(s, e);
    RemoveOne(DirRoutes(s), done, e);
  }

  lemma RemoveOne<T>(u: set<T>, done: set<T>, e: T)
    requires e in u && e !in done
    ensures |u - (done + {e})| < |u - done|
  {
    assert u - done == (u - (done + {e})) + {e};
  }

  /** The rows of the popped node's children line up with their routes. */
  lemma AddRows(s: FSNode, base: string, e: Route, node: FSNode, at: string,
                routes: seq<Route>, entries: seq<FolderEntry>, found: seq<FolderEntry>, names: seq<string>)
    requires Lookup(s, e) == Some(node) && at == RoutePath(base, e)
    requires RowsMatch(s, base, routes, entries)
    requires |found| == |names|
    requires forall i :: 0 <= i < |found| ==>
      (names[i] in node.children &&
       found[i] == FolderEntry(JoinPath(at, names[i]), node.children[names[i]].fileType,
                               |node.children[names[i]].children|))
    ensures RowsMatch(s, base, routes + Extend(e, names), entries + found)
  {
    var routes' := routes + Extend(e, names);
    var entries' := entries + found;
    forall i | 0 <= i < |routes'|
      ensures Lookup(s, routes'[i]).Some? && entries'[i] == EntryAt(s, base, routes'[i])
    {
      if i >= |routes| {
        var k := names[i - |routes|];
        assert routes'[i] == e + [k];
        EntryOfChild(s, base, e, node, k);
      } else {
        assert routes'[i] == routes[i] && entries'[i] == entries[i];
      }
    }
  }

  /** The queued directory children line up with their routes. */
  lemma QueueChildren(s: FSNode, base: string, e: Route, node: FSNode, at: string,
                      queue: seq<(string, FSNode)>, queued: seq<Route>, next: seq<(string, FSNode)>, dirs: seq<string>)
    requires Lookup(s, e) == Some(node) && at == RoutePath(base, e)
    requires QueueMatches(s, base, queue, queued)
    requires |next| == |dirs|
    requires forall i :: 0 <= i < |next| ==> dirs[i] in node.children && next[i] == (JoinPath(at, dirs[i]), node.children[dirs[i]])
    ensures QueueMatches(s, base, queue + next, queued + Extend(e, dirs))
  {
    var queue' := queue + next;
    var queued' := queued + Extend(e, dirs);
    forall i | 0 <= i < |queue'|
      ensures Lookup(s, queued'[i]) == Some(queue'[i].1) && queue'[i].0 == RoutePath(base, queued'[i])
    {
      if i >= |queue| {
        var k := dirs[i - |queue|];
        assert queued'[i] == e + [k];
        EntryOfChild(s, base, e, node, k);
      } else {
        assert queued'[i] == queued[i] && queue'[i] == queue[i];
      }
    }
  }
}
