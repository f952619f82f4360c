/** How the operations of src/vfs.c change the tree, and what every change keeps. */
module Changes {
  import opened Paths
  import opened Tree
  import opened Pwd

  // ----- a new node (make_node, add_child)

  /** Made, but not listed anywhere: add_child ran out of memory. */
  ghost function Made(k: Kids, n: Node): Kids {
    k[n := []]
  }

  ghost function Added(k: Kids, n: Node): Kids
    requires n.parent in k && n !in k
  {
    k[n := []][n.parent := k[n.parent] + [n]]
  }

  ghost predicate CanAdd(k: Kids, root: Node, n: Node) {
    && n !in k && n.parent in k && n.parent.kind == Dir
    && n.parent.addr < n.addr && |n.name| <= 63
    && FindFrom(k[n.parent], n.name, 0) == null
  }

  lemma MadeOk(k: Kids, root: Node, n: Node)
    requires TreeOk(k, root) && CanAdd(k, root, n)
    ensures TreeOk(Made(k, n), root)
  {
    var m := Made(k, n);
    forall x | x in m
      ensures NodeOk(m, root, x)
    {
      assert NodeOk(k, root, n.parent);
      if x != n {
        assert NodeOk(k, root, x);
      }
    }
  }

  lemma AddedOk(k: Kids, root: Node, n: Node)
    requires TreeOk(k, root) && CanAdd(k, root, n)
    ensures TreeOk(Added(k, n), root)
  {
    var a := Added(k, n);
    forall x | x in a
      ensures NodeOk(a, root, x)
    {
      assert NodeOk(k, root, n.parent);
      if x != n {
        assert NodeOk(k, root, x);
      }
      if x == n.parent {
        FoundIffNamed(k[x], n.name, 0);
      }
    }
  }

  lemma AddedKeepsChild(k: Kids, root: Node, n: Node, dir: Node?, name: string)
    requires TreeOk(k, root) && CanAdd(k, root, n)
    ensures ChildOf(k, dir, name) != null ==> ChildOf(Added(k, n), dir, name) == ChildOf(k, dir, name)
  {
    if dir == n.parent {
      FindAppended(k[dir], n, name, 0);
    }
  }

  /** Every walk that led somewhere still leads there. */
  lemma {:induction false} AddedKeepsWalks(k: Kids, root: Node, n: Node, cur: Node, names: seq<string>)
    requires TreeOk(k, root) && CanAdd(k, root, n)
    ensures Walk(k, root, cur, names) != null ==> Walk(Added(k, n), root, cur, names) == Walk(k, root, cur, names)
    decreases |names|
  {
    if names != [] {
      AddedKeepsChild(k, root, n, cur, names[0]);
      AddedKeepsChild(k, root, n, root, "root");
      var next := Enter(k, root, cur, names[0]);
      if next != null {
        AddedKeepsWalks(k, root, n, next, names[1..]);
      }
    }
  }

  /** A node that is listed nowhere is in the way of no walk. */
  lemma {:induction false} MadeKeepsWalks(k: Kids, root: Node, n: Node, cur: Node, names: seq<string>)
    requires TreeOk(k, root) && n !in k
    ensures Walk(k, root, cur, names) != null ==> Walk(Made(k, n), root, cur, names) == Walk(k, root, cur, names)
    decreases |names|
  {
    if names != [] {
      var next := Enter(k, root, cur, names[0]);
      if next != null {
        MadeKeepsWalks(k, root, n, next, names[1..]);
      }
    }
  }

  lemma MadeKeepsPaths(k: Kids, root: Node, cwd: Node, path: string, n: Node)
    requires TreeOk(k, root) && n !in k
    ensures Resolve(k, root, cwd, path) != null ==>
      Resolve(Made(k, n), root, cwd, path) == Resolve(k, root, cwd, path)
  {
    MadeKeepsWalks(k, root, n, if path != "" && path[0] == '/' then root else cwd, Components(path));
  }

  /** What was attached stays attached, and the new node is if its directory was. */
  lemma {:induction false} AddedKeepsAttached(k: Kids, root: Node, n: Node, x: Node)
    requires TreeOk(k, root) && CanAdd(k, root, n) && x in k && Chain(x, root) && Attached(k, x, root)
    ensures Attached(Added(k, n), x, root)
    decreases x.addr
  {
    if x != root {
      AddedKeepsAttached(k, root, n, x.parent);
    }
  }

  lemma AddedIsAttached(k: Kids, root: Node, n: Node)
    requires TreeOk(k, root) && CanAdd(k, root, n) && Chain(n.parent, root) && Attached(k, n.parent, root)
    ensures Chain(n, root) && Attached(Added(k, n), n, root)
  {
    AddedKeepsAttached(k, root, n, n.parent);
  }

  // ----- creating by path (vfs_resolve_parent, vfs_mkfile, vfs_mkdir)

  /** vfs_resolve_parent, without the name it also returns */
  ghost function ResolveParent(k: Kids, root: Node, cwd: Node, path: string): Node? {
    var buf := Buffered(path);
    var slash := LastSlash(buf);
    if slash < 0 then cwd
    else if slash == 0 then root
    else Resolve(k, root, cwd, buf[..slash])
  }

  /** Resolving a path is entering its last name from where vfs_resolve_parent leads. */
  lemma PathEnds(k: Kids, root: Node, cwd: Node, path: string, dir: Node)
    requires path != "" && |path| <= 1023 && 1 <= |LastName(path)| <= 63
    requires ResolveParent(k, root, cwd, path) == dir
    ensures Resolve(k, root, cwd, path)
      == if LastName(path) == "/" then dir else Enter(k, root, dir, LastName(path))
  {
    var name, slash := LastName(path), LastSlash(path);
    if slash < 0 {
      SingleComponent(path);
      WalkOne(k, root, cwd, path);
    } else {
      var front, last := path[..slash], path[slash + 1..];
      assert path == front + "/" + last;
      ComponentsJoin(front, last);
      SingleComponent(last);
      var start := if path[0] == '/' then root else cwd;
      WalkAppend(k, root, start, Components(front), Components(last));
      WalkOne(k, root, dir, last);
      if slash == 0 {
        assert Components("") == [];
      } else {
        assert front[0] == path[0];
      }
    }
  }

  lemma ParentStays(k: Kids, root: Node, cwd: Node, path: string, n: Node)
    requires TreeOk(k, root) && CanAdd(k, root, n) && n.parent == ResolveParent(k, root, cwd, path)
    ensures ResolveParent(Added(k, n), root, cwd, path) == n.parent
  {
    var buf := Buffered(path);
    if LastSlash(buf) > 0 {
      AddedKeepsPaths(k, root, cwd, buf[..LastSlash(buf)], n);
    }
  }

  /** When `path` is short enough for the buffer and its last component is ordinary,
      the path of a node just added there resolves to it. */
  lemma AddedResolves(k: Kids, root: Node, cwd: Node, path: string, n: Node)
    requires TreeOk(k, root) && CanAdd(k, root, n) && cwd in k
    requires |path| <= 1023 && Ordinary(LastName(path))
    requires n.parent == ResolveParent(k, root, cwd, path) && n.name == LastName(path)
    ensures Resolve(Added(k, n), root, cwd, path) == n
  {
    var a := Added(k, n);
    ParentStays(k, root, cwd, path, n);
    PathEnds(a, root, cwd, path, n.parent);
    FindAppended(k[n.parent], n, n.name, 0);
    assert ChildOf(a, n.parent, n.name) == n;
  }

  /** A path that led nowhere leads to the node added there, or still nowhere: "~" does
      when /root is missing. */
  lemma AddedLeads(k: Kids, root: Node, cwd: Node, path: string, n: Node)
    requires TreeOk(k, root) && CanAdd(k, root, n) && cwd in k
    requires |path| <= 1023 && Resolve(k, root, cwd, path) == null && n.name != ""
    requires n.parent == ResolveParent(k, root, cwd, path) && n.name == LastName(path)
    ensures Resolve(Added(k, n), root, cwd, path) in {null, n}
    ensures Ordinary(LastName(path)) <==> Resolve(Added(k, n), root, cwd, path) == n
  {
    var a, name := Added(k, n), LastName(path);
    PathEnds(k, root, cwd, path, n.parent);
    ParentStays(k, root, cwd, path, n);
    PathEnds(a, root, cwd, path, n.parent);
    if name == "~" {
      FindAppended(k[n.parent], n, "root", 0);
      assert Resolve(a, root, cwd, path) == null;
    } else {
      assert name != "/" && name != "." && name != "..";
      LastHasNoSlash(path);
      AddedResolves(k, root, cwd, path, n);
    }
  }

  lemma LastHasNoSlash(path: string)
    requires LastName(path) != "/"
    ensures '/' !in LastName(path)
  {
  }

  /** Every path that resolved before still resolves to the same node. */
  lemma AddedKeepsPaths(k: Kids, root: Node, cwd: Node, path: string, n: Node)
    requires TreeOk(k, root) && CanAdd(k, root, n)
    ensures Resolve(k, root, cwd, path) != null ==> Resolve(Added(k, n), root, cwd, path) == Resolve(k, root, cwd, path)
  {
    AddedKeepsWalks(k, root, n, if path != "" && path[0] == '/' then root else cwd, Components(path));
  }

  // ----- removing one node (vfs_unlink_node)

  function Without(cs: seq<Node>, n: Node, i: nat): seq<Node>
    requires i <= |cs|
    decreases |cs| - i
  {
    if i == |cs| then [] else if cs[i] == n then cs[i + 1..] else [cs[i]] + Without(cs, n, i + 1)
  }

  lemma {:induction false} WithoutAbsent(cs: seq<Node>, n: Node, i: nat)
    requires i <= |cs| && n !in cs[i..]
    ensures Without(cs, n, i) == cs[i..]
    decreases |cs| - i
  {
    if i < |cs| {
      assert cs[i..][0] == cs[i] && cs[i..][1..] == cs[i + 1..];
      WithoutAbsent(cs, n, i + 1);
    }
  }

  lemma {:induction false} WithoutAt(cs: seq<Node>, n: Node, i: nat, j: nat)
    requires i <= j < |cs| && cs[j] == n && n !in cs[i..j]
    ensures Without(cs, n, i) == cs[i..j] + cs[j + 1..]
    decreases j - i
  {
    if i < j {
      assert cs[i..j][0] == cs[i] && cs[i..j][1..] == cs[i + 1..j];
      WithoutAt(cs, n, i + 1, j);
    }
  }

  ghost function Unlinked(k: Kids, n: Node): Kids
    requires n.parent in k
  {
    k[n.parent := Without(k[n.parent], n, 0)]
  }

  lemma ShorterList(k: Kids, m: Kids, root: Node, x: Node, j: nat)
    requires m.Keys == k.Keys && x in k && NodeOk(k, root, x)
    requires j < |k[x]| && m[x] == k[x][..j] + k[x][j + 1..]
    ensures NodeOk(m, root, x)
  {
    var cs, ds := k[x], m[x];
    forall a, b | 0 <= a < b < |ds|
      ensures ds[a].name != ds[b].name
    {
      assert cs[if a < j then a else a + 1].name != cs[if b < j then b else b + 1].name;
    }
    forall c | c in ds
      ensures c in cs
    {
    }
  }

  lemma UnlinkedOk(k: Kids, root: Node, n: Node)
    requires TreeOk(k, root) && n in k
    ensures n.parent in k && TreeOk(Unlinked(k, n), root)
  {
    assert NodeOk(k, root, n);
    var cs, u := k[n.parent], Unlinked(k, n);
    forall x | x in u
      ensures NodeOk(u, root, x)
    {
      assert NodeOk(k, root, x);
      if x == n.parent {
        if n in cs {
          var j := FirstIndex(cs, n);
          WithoutAt(cs, n, 0, j);
          ShorterList(k, u, root, x, j);
        } else {
          WithoutAbsent(cs, n, 0);
          assert u[x] == cs;
        }
      }
    }
  }

  /** The node is in no list any more, and every other node is where it was. */
  lemma UnlinkedGone(k: Kids, root: Node, n: Node, x: Node, c: Node)
    requires TreeOk(k, root) && n in k && x in k && n.parent in k
    ensures c in Unlinked(k, n)[x] <==> c in k[x] && c != n
  {
    assert NodeOk(k, root, x) && NodeOk(k, root, n.parent);
    var cs := k[n.parent];
    if n in cs {
      var j := FirstIndex(cs, n);
      WithoutAt(cs, n, 0, j);
      if c in cs && c != n {
        var i :| 0 <= i < |cs| && cs[i] == c;
        assert i < j ==> (cs[..j] + cs[j + 1..])[i] == c;
        assert i > j ==> (cs[..j] + cs[j + 1..])[i - 1] == c;
      }
      assert forall i :: 0 <= i < |cs| && i != j ==> cs[i].name != cs[j].name;
    } else {
      WithoutAbsent(cs, n, 0);
    }
  }

  lemma FirstIndex(cs: seq<Node>, n: Node) returns (j: nat)
    requires n in cs
    ensures j < |cs| && cs[j] == n && n !in cs[..j]
  {
    j := 0;
    while cs[j] != n
      invariant j < |cs| && n in cs[j..] && n !in cs[..j]
      decreases |cs| - j
    {
      j := j + 1;
    }
  }

  // ----- removing a whole subtree (vfs_rm_recursive_node)

  /** x is n, or is listed by its parent and the parent is below n. */
  ghost predicate Below(k: Kids, root: Node, x: Node, n: Node)
    requires Chain(x, root)
    decreases x.addr
  {
    x == n || (x != root && x.parent in k && x in k[x.parent] && Below(k, root, x.parent, n))
  }

  lemma {:induction false} BelowIsLater(k: Kids, root: Node, x: Node, n: Node)
    requires Chain(x, root) && Below(k, root, x, n)
    ensures n.addr <= x.addr && (n.addr == x.addr ==> x == n)
    decreases x.addr
  {
    if x != n {
      BelowIsLater(k, root, x.parent, n);
    }
  }

  /** The subtrees of two children have nothing in common. */
  lemma {:induction false} SiblingsApart(k: Kids, root: Node, x: Node, c: Node, d: Node)
    requires Chain(x, root) && c.parent == d.parent && c.parent.addr < c.addr && d.parent.addr < d.addr
    requires Below(k, root, x, c) && Below(k, root, x, d)
    ensures c == d
    decreases x.addr
  {
    if x == c && x != d {
      BelowIsLater(k, root, x.parent, d);
    } else if x == d && x != c {
      BelowIsLater(k, root, x.parent, c);
    } else if x != c {
      SiblingsApart(k, root, x.parent, c, d);
    }
  }

  /** Below n is n itself and what is below one of its children. */
  lemma {:induction false} BelowChild(k: Kids, root: Node, x: Node, n: Node)
    requires TreeOk(k, root) && x in k && n in k && Chain(x, root)
    ensures Below(k, root, x, n) <==> x == n || exists c :: c in k[n] && Below(k, root, x, c)
    decreases x.addr
  {
    assert NodeOk(k, root, n) && NodeOk(k, root, x);
    if x != n && x != root {
      BelowChild(k, root, x.parent, n);
      if Below(k, root, x, n) && x.parent == n {
        assert x in k[n] && Below(k, root, x, x);
      }
      if c :| c in k[n] && Below(k, root, x, c) {
        assert c.parent == n;
        if x != c {
          assert Below(k, root, x.parent, c);
        }
      }
    } else if x == root && x != n {
      assert forall c :: c in k[n] ==> c != root;
    }
  }

  /** The tree without the subtree of n: every node of it loses its list, and n leaves
      the list of its parent. */
  ghost function Pruned(k: Kids, root: Node, n: Node): Kids
    requires TreeOk(k, root)
  {
    map x | x in k ::
      if Chain(x, root) && Below(k, root, x, n) then []
      else if x == n.parent then Without(k[x], n, 0)
      else k[x]
  }

  /** The tree while the children of n from m on are gone. */
  ghost function Peeled(k: Kids, root: Node, n: Node, m: nat): Kids
    requires TreeOk(k, root) && n in k && m <= |k[n]|
  {
    map x | x in k ::
      if x == n then k[n][..m]
      else if Chain(x, root) && exists i :: m <= i < |k[n]| && Below(k, root, x, k[n][i]) then []
      else k[x]
  }

  lemma PeeledAll(k: Kids, root: Node, n: Node)
    requires TreeOk(k, root) && n in k
    ensures Peeled(k, root, n, |k[n]|) == k
  {
    assert k[n][..|k[n]|] == k[n];
  }

  lemma PeeledOk(k: Kids, root: Node, n: Node, m: nat)
    requires TreeOk(k, root) && n in k && m <= |k[n]|
    ensures TreeOk(Peeled(k, root, n, m), root)
  {
    var p := Peeled(k, root, n, m);
    forall x | x in p
      ensures NodeOk(p, root, x)
    {
      assert NodeOk(k, root, x);
      forall c | c in p[x]
        ensures c in k[x]
      {
      }
    }
  }

  /** The children peeled off do not touch what is below the others. */
  lemma {:induction false} PeeledBelow(k: Kids, root: Node, n: Node, m: nat, x: Node, c: Node)
    requires TreeOk(k, root) && n in k && m <= |k[n]| && x in k && Chain(x, root) && c in k[n][..m]
    ensures Below(Peeled(k, root, n, m), root, x, c) <==> Below(k, root, x, c)
    decreases x.addr
  {
    var p := Peeled(k, root, n, m);
    assert NodeOk(k, root, x) && NodeOk(k, root, n);
    assert c in k[n] && NodeOk(k, root, c);
    if x != c && x != root {
      PeeledBelow(k, root, n, m, x.parent, c);
      if Below(k, root, x.parent, c) {
        BelowIsLater(k, root, x.parent, c);
        forall i | m <= i < |k[n]|
          ensures !Below(k, root, x.parent, k[n][i])
        {
          PeeledSibling(k, root, n, m, i, x.parent, c);
        }
        assert p[x.parent] == k[x.parent];
      }
      assert forall y :: y in p[x.parent] ==> y in k[x.parent];
    }
  }

  lemma PeeledSibling(k: Kids, root: Node, n: Node, m: nat, i: nat, x: Node, c: Node)
    requires TreeOk(k, root) && n in k && m <= i < |k[n]| && Chain(x, root) && c in k[n][..m]
    requires Below(k, root, x, c)
    ensures !Below(k, root, x, k[n][i])
  {
    var d := k[n][i];
    assert NodeOk(k, root, n) && d in k[n] && c in k[n];
    assert NodeOk(k, root, c) && NodeOk(k, root, d);
    var j :| 0 <= j < m && k[n][j] == c;
    assert k[n][j].name != k[n][i].name;
    if Below(k, root, x, d) {
      SiblingsApart(k, root, x, c, d);
    }
  }

  /** Removing the last remaining child peels one more. */
  lemma PeelOneMore(k: Kids, root: Node, n: Node, m: nat)
    requires TreeOk(k, root) && n in k && 0 < m <= |k[n]|
    ensures TreeOk(Peeled(k, root, n, m), root)
    ensures Pruned(Peeled(k, root, n, m), root, k[n][m - 1]) == Peeled(k, root, n, m - 1)
  {
    PeeledOk(k, root, n, m);
    var r, q := Pruned(Peeled(k, root, n, m), root, k[n][m - 1]), Peeled(k, root, n, m - 1);
    forall x | x in k
      ensures r[x] == q[x]
    {
      PeeledAt(k, root, n, m, x);
    }
  }

  /** The list of one node. */
  lemma PeeledAt(k: Kids, root: Node, n: Node, m: nat, x: Node)
    requires TreeOk(k, root) && n in k && 0 < m <= |k[n]| && x in k && TreeOk(Peeled(k, root, n, m), root)
    ensures Pruned(Peeled(k, root, n, m), root, k[n][m - 1])[x] == Peeled(k, root, n, m - 1)[x]
  {
    var p, c := Peeled(k, root, n, m), k[n][m - 1];
    assert c in k[n] && c == k[n][..m][m - 1];
    assert NodeOk(k, root, n) && NodeOk(k, root, c) && NodeOk(k, root, x);
    PeeledBelow(k, root, n, m, x, c);
    if x == n {
      LastWithout(k, root, n, m);
      if Below(k, root, n, c) {
        BelowIsLater(k, root, n, c);
      }
    } else {
      forall i | m - 1 <= i < |k[n]|
        ensures Below(k, root, x, k[n][i]) ==> Below(k, root, x, c) || (m <= i && Below(k, root, x, k[n][i]))
      {
      }
    }
  }

  lemma LastWithout(k: Kids, root: Node, n: Node, m: nat)
    requires TreeOk(k, root) && n in k && 0 < m <= |k[n]|
    ensures Without(k[n][..m], k[n][m - 1], 0) == k[n][..m - 1]
  {
    var cs, c := k[n][..m], k[n][m - 1];
    assert NodeOk(k, root, n);
    forall j | 0 <= j < m - 1
      ensures cs[j] != c
    {
      assert k[n][j].name != k[n][m - 1].name;
    }
    WithoutAt(cs, c, 0, m - 1);
  }

  /** With no child left, unlinking the node completes the removal of its subtree. */
  lemma UnlinkPeeled(k: Kids, root: Node, n: Node)
    requires TreeOk(k, root) && n in k && n != root
    ensures n.parent in k && Unlinked(Peeled(k, root, n, 0), n) == Pruned(k, root, n)
  {
    var p := Peeled(k, root, n, 0);
    assert NodeOk(k, root, n);
    forall x | x in k
      ensures Unlinked(p, n)[x] == Pruned(k, root, n)[x]
    {
      assert NodeOk(k, root, x);
      BelowChild(k, root, x, n);
      if x != n {
        if c :| c in k[n] && Below(k, root, x, c) {
          var i :| 0 <= i < |k[n]| && k[n][i] == c;
          if x == n.parent {
            BelowIsLater(k, root, x, n);
          }
        }
      }
    }
  }

  lemma PrunedOk(k: Kids, root: Node, n: Node)
    requires TreeOk(k, root) && n in k && n != root
    ensures TreeOk(Pruned(k, root, n), root)
  {
    PeeledOk(k, root, n, 0);
    UnlinkPeeled(k, root, n);
    UnlinkedOk(Peeled(k, root, n, 0), root, n);
  }

  /** What is still attached after the removal is what was attached and not below n. */
  lemma {:induction false} PrunedAttached(k: Kids, root: Node, n: Node, x: Node)
    requires TreeOk(k, root) && n in k && n != root && x in k && Chain(x, root)
    ensures Attached(Pruned(k, root, n), x, root) <==> Attached(k, x, root) && !Below(k, root, x, n)
    decreases x.addr
  {
    var p := Pruned(k, root, n);
    assert NodeOk(k, root, x) && NodeOk(k, root, n) && NodeOk(k, root, x.parent);
    if x != root {
      PrunedAttached(k, root, n, x.parent);
      if x.parent == n.parent && !Below(k, root, x.parent, n) {
        WithoutMembers(k, root, x, n);
      }
      if x == n {
        WithoutMembers(k, root, x, n);
        if Below(k, root, x.parent, n) {
          BelowIsLater(k, root, x.parent, n);
        }
      }
    }
  }

  lemma WithoutMembers(k: Kids, root: Node, x: Node, n: Node)
    requires TreeOk(k, root) && n.parent in k
    ensures x in Without(k[n.parent], n, 0) <==> x in k[n.parent] && x != n
  {
    var cs := k[n.parent];
    assert NodeOk(k, root, n.parent);
    if n in cs {
      var j := FirstIndex(cs, n);
      WithoutAt(cs, n, 0, j);
      assert cs == cs[..j] + [n] + cs[j + 1..];
      forall i | j < i < |cs|
        ensures cs[i] != n
      {
        assert cs[j].name != cs[i].name;
      }
    } else {
      WithoutAbsent(cs, n, 0);
    }
  }

  /** A removed working directory is no longer where vfs_pwd leads. */
  lemma RemovedLeadsNowhere(k: Kids, root: Node, dir: Node, from: Node)
    requires TreeOk(k, root) && dir in k && dir != root && Chain(dir, root) && OrdinaryChain(dir, root)
    ensures TreeOk(Pruned(k, root, dir), root) && !LeadsBack(Pruned(k, root, dir), root, dir, from)
  {
    PrunedOk(k, root, dir);
    PrunedAttached(k, root, dir, dir);
    PwdRoundTrip(Pruned(k, root, dir), root, dir, from);
  }
}
