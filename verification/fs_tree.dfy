/**
 The in-memory path trie the file browser keeps: every node carries a file
 type, the metadata `stat` reported and its children by name. A path is
 walked one component at a time, as `Path::iter` yields them on Unix, so an
 absolute path first descends into a child named "/".
 */
module FsTree {
  import opened Options
  import opened Text
  import opened FileTypes

  /** The components of a path, outermost first. */
  type Route = seq<string>

  /* ---------------------------------------------------------------------- */
  /* Path components                                                        */
  /* ---------------------------------------------------------------------- */

  /** A component `Path::iter` yields between separators. */
  predicate NormalSegment(seg: string)
  {
    seg != "" && seg != "." && '/' !in seg
  }

  /** Empty segments (repeated or trailing `/`) and `.` are not components. */
  function DropDots(segs: seq<string>): (r: seq<string>)
    ensures |r| <= |segs|
    ensures forall i :: 0 <= i < |r| ==> r[i] != "" && r[i] != "." && r[i] in segs
    ensures (forall i :: 0 <= i < |segs| ==> segs[i] != "" && segs[i] != ".") ==> r == segs
  {
    if |segs| == 0 then []
    else
      var rest := DropDots(segs[1..]);
      if segs[0] == "" || segs[0] == "." then rest else [segs[0]] + rest
  }

  /**
   `Path::iter` on Unix: a leading `/` is the root component "/", a leading
   `.` of a relative path is kept, every other `.` and empty segment is
   dropped, and `..` is an ordinary component.
   */
  function Components(path: string): (c: Route)
    ensures forall i :: 0 <= i < |c| ==> c[i] != ""
    ensures forall i :: 0 < i < |c| ==> NormalSegment(c[i])
    ensures |c| > 0 && '/' in c[0] ==> c[0] == "/"
    ensures (|path| > 0 && path[0] == '/') <==> (|c| > 0 && c[0] == "/")
  {
    if |path| > 0 && path[0] == '/' then
      var segs := Split(path[1..], '/');
      NoSlashSegments(segs);
      ["/"] + DropDots(segs)
    else
      var segs := Split(path, '/');
      NoSlashSegments(segs);
      NoSlashSegments(segs[1..]);
      if segs[0] == "." then ["."] + DropDots(segs[1..]) else DropDots(segs)
  }

  lemma NoSlashSegments(segs: seq<string>)
    requires forall i :: 0 <= i < |segs| ==> '/' !in segs[i]
    ensures forall i :: 0 <= i < |DropDots(segs)| ==> NormalSegment(DropDots(segs)[i])
  {
    var r := DropDots(segs);
    forall i | 0 <= i < |r|
      ensures '/' !in r[i]
    {
      var j :| 0 <= j < |segs| && segs[j] == r[i];
    }
  }

  /** Normal segments joined with `/` come back as components. */
  lemma ComponentsOfJoin(parts: seq<string>)
    requires forall i :: 0 <= i < |parts| ==> NormalSegment(parts[i])
    ensures Components(Join(parts, '/')) == parts
  {
    var path := Join(parts, '/');
    if |parts| == 0 {
      assert Split("", '/') == [""];
    } else {
      SplitJoin(parts, '/');
      JoinHead(parts, '/');
      assert path[0] == parts[0][0] != '/';
      var segs := Split(path, '/');
      assert segs[0] != ".";
      assert DropDots(segs) == parts;
    }
  }

  /** The same with a leading `/`: the root component comes first. */
  lemma ComponentsOfRootedJoin(parts: seq<string>)
    requires forall i :: 0 <= i < |parts| ==> NormalSegment(parts[i])
    ensures Components("/" + Join(parts, '/')) == ["/"] + parts
  {
    var path := "/" + Join(parts, '/');
    assert path[1..] == Join(parts, '/');
    if |parts| == 0 {
      assert Split("", '/') == [""];
    } else {
      SplitJoin(parts, '/');
    }
  }

  /** A join starts with its first part. */
  lemma JoinHead(parts: seq<string>, sep: char)
    requires |parts| > 0
    ensures |Join(parts, sep)| >= |parts[0]| && Join(parts, sep)[..|parts[0]|] == parts[0]
  {
  }

  /** `Path::file_name`: the last component unless it is the root, `.` or `..`. */
  function FileName(path: string): (r: Option<string>)
    ensures var c := Components(path);
      r.Some? <==> |c| > 0 && c[|c| - 1] != "/" && c[|c| - 1] != "." && c[|c| - 1] != ".."
    ensures r.Some? ==> var c := Components(path); r.value == c[|c| - 1] && NormalSegment(r.value)
  {
    var c := Components(path);
    if |c| == 0 then None
    else
      var last := c[|c| - 1];
      if last == "/" || last == "." || last == ".." then None else Some(last)
  }

  /** `base.join(name)` for a single component `name`. */
  function JoinPath(base: string, name: string): (r: string)
    ensures |name| > 0 && name[0] == '/' ==> r == name
    ensures StartsWith(r, base) || (|name| > 0 && name[0] == '/')
  {
    if |name| > 0 && name[0] == '/' then name
    else if base == "" then name
    else if base[|base| - 1] == '/' then base + name
    else base + "/" + name
  }

  /* ---------------------------------------------------------------------- */
  /* Nodes                                                                  */
  /* ---------------------------------------------------------------------- */

  datatype FSNode = FSNode(metadata: FileInfo, fileType: FileType, children: map<string, FSNode>)

  /** `FSNode::new`: a directory without children. */
  function NewNode(metadata: FileInfo): (n: FSNode)
    ensures n.metadata == metadata && n.fileType == Directory && n.children == map[]
    ensures n.fileType == DefaultType()
  {
    FSNode(metadata, Directory, map[])
  }

  /** The node a route leads to, walking down from `n`. */
  function Lookup(n: FSNode, r: Route): (found: Option<FSNode>)
    ensures r == [] ==> found == Some(n)
    decreases |r|
  {
    if |r| == 0 then Some(n)
    else if r[0] in n.children then Lookup(n.children[r[0]], r[1..])
    else None
  }

  /** How many leading components of `r` are present below `n`. */
  function Reach(n: FSNode, r: Route): (k: nat)
    ensures k <= |r|
    decreases |r|
  {
    if |r| == 0 || r[0] !in n.children then 0 else 1 + Reach(n.children[r[0]], r[1..])
  }

  predicate IsPrefix(q: Route, r: Route)
  {
    |q| <= |r| && r[..|q|] == q
  }

  /** A prefix of a route is present exactly when it is no longer than the reach. */
  lemma {:induction false} LookupPrefix(n: FSNode, r: Route, i: nat)
    requires i <= |r|
    ensures Lookup(n, r[..i]).Some? <==> i <= Reach(n, r)
    decreases |r|
  {
    if i > 0 && r[0] in n.children {
      assert r[..i][1..] == r[1..][..i - 1];
      LookupPrefix(n.children[r[0]], r[1..], i - 1);
    }
  }

  /** The walk to `r + [k]` is the walk to `r`, then one step. */
  lemma {:induction false} LookupSnoc(n: FSNode, r: Route, k: string)
    ensures Lookup(n, r + [k]) ==
      if Lookup(n, r).Some? && k in Lookup(n, r).value.children
      then Some(Lookup(n, r).value.children[k]) else None
    decreases |r|
  {
    if |r| == 0 {
      assert r + [k] == [k];
    } else {
      assert (r + [k])[1..] == r[1..] + [k];
      if r[0] in n.children {
        LookupSnoc(n.children[r[0]], r[1..], k);
      }
    }
  }

  /** `get_child_mut(path)`. */
  function GetChild(n: FSNode, path: string): (r: Option<FSNode>)
    ensures path == "" ==> r == Some(n)
    ensures r.None? <==> Reach(n, Components(path)) < |Components(path)|
  {
    var c := Components(path);
    LookupPrefix(n, c, |c|);
    assert c[..|c|] == c;
    Lookup(n, c)
  }

  /** A failed lookup stops at a present node that lacks the next component. */
  lemma GetChildMissing(n: FSNode, path: string)
    requires GetChild(n, path).None?
    ensures var c := Components(path); var k := Reach(n, c);
      k < |c| && Lookup(n, c[..k]).Some? && c[k] !in Lookup(n, c[..k]).value.children
  {
    var c := Components(path);
    var k := Reach(n, c);
    LookupPrefix(n, c, k);
    LookupPrefix(n, c, k + 1);
    assert c[..k + 1] == c[..k] + [c[k]];
    LookupSnoc(n, c[..k], c[k]);
  }

  /* ---------------------------------------------------------------------- */
  /* add_child                                                              */
  /* ---------------------------------------------------------------------- */

  /**
   `add_child` along a route: missing components become directories with
   default metadata, the last node takes the given type and metadata, and
   the count is the number of nodes created.
   */
  function AddAlong(n: FSNode, r: Route, t: FileType, m: FileInfo): (res: (FSNode, nat))
    ensures res.1 == |r| - Reach(n, r)
    ensures Lookup(res.0, r).Some? && Lookup(res.0, r).value.fileType == t && Lookup(res.0, r).value.metadata == m
    decreases |r|
  {
    if |r| == 0 then (n.(fileType := t, metadata := m), 0)
    else
      var existed := r[0] in n.children;
      var child := if existed then n.children[r[0]] else NewNode(DefaultInfo());
      var sub := AddAlong(child, r[1..], t, m);
      (n.(children := n.children[r[0] := sub.0]), sub.1 + if existed then 0 else 1)
  }

  /** `FSNode::add_child(path, file_type, metadata)`. */
  function AddChild(n: FSNode, path: string, t: FileType, m: FileInfo): (res: (FSNode, nat))
    ensures GetChild(res.0, path).Some? && GetChild(res.0, path).value.fileType == t
    ensures GetChild(res.0, path).value.metadata == m
    ensures res.1 == 0 <==> GetChild(n, path).Some?
  {
    AddAlong(n, Components(path), t, m)
  }

  /** Nodes off the route are untouched, and so is everything below its end. */
  lemma {:induction false} AddAlongFrame(n: FSNode, r: Route, t: FileType, m: FileInfo, q: Route)
    requires !IsPrefix(q, r)
    ensures Lookup(AddAlong(n, r, t, m).0, q) == Lookup(n, q)
    decreases |r|
  {
    var after := AddAlong(n, r, t, m).0;
    if |r| > 0 && q[0] == r[0] {
      var existed := r[0] in n.children;
      var child := if existed then n.children[r[0]] else NewNode(DefaultInfo());
      assert after.children[r[0]] == AddAlong(child, r[1..], t, m).0;
      assert !IsPrefix(q[1..], r[1..]);
      AddAlongFrame(child, r[1..], t, m, q[1..]);
      if !existed {
        assert q[1..] != [];
      }
    }
  }

  /**
   Every proper prefix of the route is present afterwards: a node that was
   there keeps its type and metadata, a new one is a directory with default
   metadata.
   */
  lemma {:induction false} AddAlongAncestors(n: FSNode, r: Route, t: FileType, m: FileInfo, i: nat)
    requires i < |r|
    ensures var before := Lookup(n, r[..i]); var now := Lookup(AddAlong(n, r, t, m).0, r[..i]);
      && now.Some?
      && (before.Some? ==> now.value.fileType == before.value.fileType && now.value.metadata == before.value.metadata)
      && (before.None? ==> now.value.fileType == Directory && now.value.metadata == DefaultInfo())
    decreases |r|
  {
    if i > 0 {
      var existed := r[0] in n.children;
      var child := if existed then n.children[r[0]] else NewNode(DefaultInfo());
      assert r[..i][1..] == r[1..][..i - 1];
      AddAlongAncestors(child, r[1..], t, m, i - 1);
      if !existed && i > 1 {
        assert Lookup(child, r[1..][..i - 1]).None?;
      }
    }
  }

  /** After `add_child` a route leads somewhere exactly when it did before or it is a prefix of the path. */
  lemma AddAlongNodes(n: FSNode, r: Route, t: FileType, m: FileInfo, q: Route)
    ensures Lookup(AddAlong(n, r, t, m).0, q).Some? <==> Lookup(n, q).Some? || IsPrefix(q, r)
  {
    if IsPrefix(q, r) {
      if |q| < |r| {
        AddAlongAncestors(n, r, t, m, |q|);
      } else {
        assert q == r;
      }
    } else {
      AddAlongFrame(n, r, t, m, q);
    }
  }
}
