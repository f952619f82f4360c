/** The path printer vfs_update_pwd (src/vfs.c:213-233) against the path walker
    vfs_resolve (src/vfs.c:54-84). */
module Pwd {
  import opened Paths
  import opened Tree

  const MAX_DEPTH: nat := 64

  /** The names vfs_update_pwd collects going up, at most `limit` of them, and prints
      top down. */
  function PathTo(n: Node, root: Node, limit: nat): string
    decreases limit
  {
    if n == root || limit == 0 then "" else PathTo(n.parent, root, limit - 1) + "/" + n.name
  }

  function NamesTo(n: Node, root: Node, limit: nat): seq<string>
    decreases limit
  {
    if n == root || limit == 0 then [] else NamesTo(n.parent, root, limit - 1) + [n.name]
  }

  /** What vfs_update_pwd leaves in vfs_pwd. */
  function PwdOf(cwd: Node, root: Node): string {
    if cwd == root then "/" else PathTo(cwd, root, 64)
  }

  ghost function Depth(n: Node, root: Node): nat
    requires Chain(n, root)
    decreases n.addr
  {
    if n == root then 0 else Depth(n.parent, root) + 1
  }

  /** Every directory on the way to the root lists the next one. */
  ghost predicate Attached(k: Kids, n: Node, root: Node)
    requires Chain(n, root)
    decreases n.addr
  {
    n == root || (n.parent in k && n in k[n.parent] && Attached(k, n.parent, root))
  }

  /** Only ordinary names on the way to the root. */
  ghost predicate OrdinaryChain(n: Node, root: Node)
    requires Chain(n, root)
    decreases n.addr
  {
    n == root || (Ordinary(n.name) && OrdinaryChain(n.parent, root))
  }

  // ----- vfs_resolve only enters children with ordinary names

  lemma EnterOrdinary(k: Kids, root: Node, cur: Node, name: string)
    requires TreeOk(k, root) && cur in k && Chain(cur, root) && OrdinaryChain(cur, root)
    requires 1 <= |name| <= 63 && '/' !in name
    ensures var n := Enter(k, root, cur, name); n != null ==> n in k && Chain(n, root) && OrdinaryChain(n, root)
  {
    EnterStays(k, root, cur, name);
    var n := Enter(k, root, cur, name);
    if n != null && name != "." && name != ".." {
      var dir, child := if name == "~" then root else cur, if name == "~" then "root" else name;
      FoundIsListed(k[dir], child, 0);
      assert NodeOk(k, root, dir);
      assert n in k[dir] && NodeOk(k, root, n);
    }
  }

  lemma {:induction false} WalkOrdinary(k: Kids, root: Node, cur: Node, names: seq<string>)
    requires TreeOk(k, root) && cur in k && Chain(cur, root) && OrdinaryChain(cur, root)
    requires forall c :: c in names ==> 1 <= |c| <= 63 && '/' !in c
    ensures var n := Walk(k, root, cur, names); n != null ==> n in k && Chain(n, root) && OrdinaryChain(n, root)
    decreases |names|
  {
    if names != [] {
      assert names[0] in names;
      EnterOrdinary(k, root, cur, names[0]);
      var next := Enter(k, root, cur, names[0]);
      if next != null {
        WalkOrdinary(k, root, next, names[1..]);
      }
    }
  }

  /** From a directory with an ordinary chain, every path leads to another such node. */
  lemma ResolveOrdinary(k: Kids, root: Node, cwd: Node, path: string)
    requires TreeOk(k, root) && cwd in k && Chain(cwd, root) && OrdinaryChain(cwd, root)
    ensures var n := Resolve(k, root, cwd, path); n != null ==> n in k && Chain(n, root) && OrdinaryChain(n, root)
  {
    ComponentsHaveNoSlash(path, 0, 0);
    WalkOrdinary(k, root, if path != "" && path[0] == '/' then root else cwd, Components(path));
  }

  // ----- the round trip

  lemma {:induction false} PathComponents(n: Node, root: Node, limit: nat)
    requires Chain(n, root) && OrdinaryChain(n, root)
    ensures Components(PathTo(n, root, limit)) == NamesTo(n, root, limit)
    ensures n != root && limit > 0 ==> PathTo(n, root, limit) != "" && PathTo(n, root, limit)[0] == '/'
    decreases limit
  {
    if n != root && limit > 0 {
      PathComponents(n.parent, root, limit - 1);
      ComponentsJoin(PathTo(n.parent, root, limit - 1), n.name);
      OrdinaryComponent(n.name);
    }
  }

  /** Walking the collected names from the root only reaches attached nodes as deep as
      there are names, and reaches n itself when n is attached and not deeper. */
  lemma {:induction false} WalkNames(k: Kids, root: Node, n: Node, limit: nat)
    requires TreeOk(k, root) && n in k && Chain(n, root) && OrdinaryChain(n, root)
    ensures
      var r := Walk(k, root, root, NamesTo(n, root, limit));
      && (r != null ==> r in k && Chain(r, root) && Attached(k, r, root) && Depth(r, root) <= limit)
      && (Attached(k, n, root) && Depth(n, root) <= limit ==> r == n)
    decreases limit
  {
    if n != root && limit > 0 {
      var names := NamesTo(n.parent, root, limit - 1);
      assert NodeOk(k, root, n);
      WalkNames(k, root, n.parent, limit - 1);
      WalkAppend(k, root, root, names, [n.name]);
      var mid := Walk(k, root, root, names);
      if mid != null {
        WalkOne(k, root, mid, n.name);
        EnterListed(k, root, mid, n.name);
        if mid == n.parent && n in k[mid] {
          EnterFinds(k, root, n);
        }
      }
    }
  }

  lemma EnterListed(k: Kids, root: Node, cur: Node, name: string)
    requires TreeOk(k, root) && cur in k && Chain(cur, root) && Ordinary(name)
    ensures var r := Enter(k, root, cur, name);
      r != null ==> r in k && Chain(r, root) && r in k[cur] && r.parent == cur && r != root
  {
    FoundIsListed(k[cur], name, 0);
    assert NodeOk(k, root, cur);
    var r := Enter(k, root, cur, name);
    if r != null {
      assert r in k[cur] && NodeOk(k, root, r);
    }
  }

  lemma EnterFinds(k: Kids, root: Node, n: Node)
    requires TreeOk(k, root) && n in k && n.parent in k && n in k[n.parent] && Ordinary(n.name)
    ensures Enter(k, root, n.parent, n.name) == n
  {
    var dir := n.parent;
    assert NodeOk(k, root, n) && NodeOk(k, root, dir);
    assert k[dir][0..] == k[dir];
    ListedIsFound(k[dir], n, 0);
  }

  // ----- the length of the path

  /** The path with its NUL fits the buffers of vfs_update_pwd. */
  predicate PathFits(dir: Node, root: Node) {
    |PwdOf(dir, root)| < 1024
  }

  /** The length of the path: every name with its slash. */
  function PathSize(n: Node, root: Node, limit: nat): nat
    decreases limit
  {
    if n == root || limit == 0 then 0 else PathSize(n.parent, root, limit - 1) + 1 + |n.name|
  }

  lemma {:induction false} PathSizeIsLength(n: Node, root: Node, limit: nat)
    ensures |PathTo(n, root, limit)| == PathSize(n, root, limit)
    decreases limit
  {
    if n != root && limit > 0 {
      PathSizeIsLength(n.parent, root, limit - 1);
    }
  }

  /** One level more adds a slash and a name. */
  lemma PathOfChild(n: Node, root: Node, limit: nat)
    requires Chain(n, root) && n != root && Depth(n, root) <= limit
    ensures PathSize(n, root, limit) == PathSize(n.parent, root, limit) + 1 + |n.name|
  {
    MoreLevels(n.parent, root, limit - 1);
  }

  lemma {:induction false} FewerLevels(n: Node, root: Node, limit: nat)
    ensures PathSize(n, root, limit) <= PathSize(n, root, limit + 1)
    decreases limit
  {
    if n != root && limit > 0 {
      FewerLevels(n.parent, root, limit - 1);
    }
  }

  lemma {:induction false} MoreLevels(n: Node, root: Node, limit: nat)
    requires Chain(n, root) && Depth(n, root) <= limit
    ensures PathSize(n, root, limit + 1) == PathSize(n, root, limit)
    decreases limit
  {
    if n != root {
      MoreLevels(n.parent, root, limit - 1);
    }
  }

  /** vfs_update_pwd stays inside its buffers, and the path it leaves in vfs_pwd leads
      to the directory. */
  ghost predicate LeadsBack(k: Kids, root: Node, dir: Node, from: Node) {
    PathFits(dir, root) && Resolve(k, root, from, PwdOf(dir, root)) == dir
  }

  /** vfs_pwd leads back to the directory exactly when the directory is attached, is at
      most 64 levels deep and has a path that fits, from wherever it is resolved. */
  lemma PwdRoundTrip(k: Kids, root: Node, dir: Node, from: Node)
    requires TreeOk(k, root) && dir in k && Chain(dir, root) && OrdinaryChain(dir, root)
    ensures LeadsBack(k, root, dir, from)
      <==> Attached(k, dir, root) && Depth(dir, root) <= MAX_DEPTH && PathFits(dir, root)
  {
    if dir == root {
      RootPath();
    } else {
      PathComponents(dir, root, 64);
      WalkNames(k, root, dir, 64);
    }
  }

  lemma RootPath()
    ensures Components("/") == []
  {
    assert Components("/") == Piece("") + ComponentsFrom("/", 1, 1);
  }
}
