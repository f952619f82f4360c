/** The directory tree of src/vfs.c: its nodes, and what holds of every shape it takes.
    A shape is the map from every node made so far to its list of children. */
module Tree {
  import opened KHeap
  import opened Paths

  datatype Kind = File | Dir

  /** vnode_t. The address comes from the heap, which only grows. The parent is fixed
      when the node is made; the root is its own parent. */
  class Node {
    const kind: Kind
    const name: string
    const addr: nat
    const parent: Node
    var children: seq<Node>
    var childCap: nat
    var data: Ptr
    var size: nat
    var cap: nat

    constructor Root(addr: nat)
      ensures this.kind == Dir && this.name == "" && this.addr == addr && this.parent == this
      ensures children == [] && childCap == 0 && data == Null && size == 0 && cap == 0
    {
      this.kind, this.name, this.addr := Dir, "", addr;
      this.parent := this;
      children, childCap := [], 0;
      data, size, cap := Null, 0, 0;
    }

    constructor Make(kind: Kind, name: string, parent: Node, addr: nat)
      ensures this.kind == kind && this.name == Truncated(name) && this.addr == addr && this.parent == parent
      ensures children == [] && childCap == 0 && data == Null && size == 0 && cap == 0
    {
      this.kind, this.name, this.addr, this.parent := kind, Truncated(name), addr, parent;
      children, childCap := [], 0;
      data, size, cap := Null, 0, 0;
    }
  }

  type Kids = map<Node, seq<Node>>

  // ----- the invariant

  /** The parent chain goes down in address until it reaches the root. */
  ghost predicate Chain(n: Node, root: Node)
    decreases n.addr
  {
    n == root || (n.parent.addr < n.addr && Chain(n.parent, root))
  }

  ghost predicate NamesDistinct(cs: seq<Node>) {
    forall i, j :: 0 <= i < j < |cs| ==> cs[i].name != cs[j].name
  }

  /** A node hangs below a directory and its parent chain reaches the root; its list
      holds children of its own, under distinct names, and a file has none. */
  ghost predicate NodeOk(k: Kids, root: Node, n: Node)
    requires n in k
  {
    && Chain(n, root) && n.parent in k && n.parent.kind == Dir && |n.name| <= 63
    && (n.kind == File ==> k[n] == [])
    && NamesDistinct(k[n])
    && forall c {:trigger c in k[n]} :: c in k[n] ==> c in k && c != root && c.parent == n
  }

  ghost predicate TreeOk(k: Kids, root: Node) {
    && root in k && root.kind == Dir && root.parent == root
    && forall n {:trigger NodeOk(k, root, n)} :: n in k ==> NodeOk(k, root, n)
  }

  /** Distinct names make distinct nodes: nothing is listed twice. */
  lemma ListedOnce(k: Kids, root: Node, n: Node, m: Node, i: nat, j: nat)
    requires TreeOk(k, root) && n in k && m in k
    requires i < |k[n]| && j < |k[m]| && k[n][i] == k[m][j]
    ensures n == m && i == j
  {
    assert NodeOk(k, root, n) && NodeOk(k, root, m);
    assert k[n][i] in k[n] && k[m][j] in k[m];
    assert n == k[n][i].parent == m;
  }

  function Up(n: Node, steps: nat): Node {
    if steps == 0 then n else Up(n.parent, steps - 1)
  }

  lemma {:induction false} ChainReachesRoot(n: Node, root: Node) returns (steps: nat)
    requires Chain(n, root)
    ensures Up(n, steps) == root
    decreases n.addr
  {
    if n == root {
      steps := 0;
    } else {
      var more := ChainReachesRoot(n.parent, root);
      steps := more + 1;
    }
  }

  // ----- finding a child

  function FindFrom(cs: seq<Node>, name: string, i: nat): Node?
    requires i <= |cs|
    decreases |cs| - i
  {
    if i == |cs| then null else if cs[i].name == name then cs[i] else FindFrom(cs, name, i + 1)
  }

  lemma {:induction false} FoundIsListed(cs: seq<Node>, name: string, i: nat)
    requires i <= |cs|
    ensures var c := FindFrom(cs, name, i); c != null ==> c in cs && c.name == name
    decreases |cs| - i
  {
    if i < |cs| {
      FoundIsListed(cs, name, i + 1);
    }
  }

  lemma {:induction false} ListedIsFound(cs: seq<Node>, c: Node, i: nat)
    requires i <= |cs| && c in cs[i..] && NamesDistinct(cs)
    ensures FindFrom(cs, c.name, i) == c
    decreases |cs| - i
  {
    var j :| i <= j < |cs| && cs[j] == c;
    if j > i {
      assert c == cs[i + 1..][j - i - 1];
      ListedIsFound(cs, c, i + 1);
    }
  }

  lemma {:induction false} FoundIffNamed(cs: seq<Node>, name: string, i: nat)
    requires i <= |cs|
    ensures FindFrom(cs, name, i) == null <==> forall j :: i <= j < |cs| ==> cs[j].name != name
    decreases |cs| - i
  {
    if i < |cs| {
      FoundIffNamed(cs, name, i + 1);
    }
  }

  lemma {:induction false} FindAppended(cs: seq<Node>, n: Node, name: string, i: nat)
    requires i <= |cs|
    ensures FindFrom(cs + [n], name, i) ==
      if FindFrom(cs, name, i) != null then FindFrom(cs, name, i) else if n.name == name then n else null
    decreases |cs| - i
  {
    if i < |cs| {
      FindAppended(cs, n, name, i + 1);
    } else {
      assert FindFrom(cs + [n], name, i + 1) == null;
    }
  }

  /** child_of, on a directory that may be missing. */
  ghost function ChildOf(k: Kids, dir: Node?, name: string): Node? {
    if dir == null || dir !in k || dir.kind != Dir then null else FindFrom(k[dir], name, 0)
  }

  // ----- walking a path

  /** One component of vfs_resolve. */
  ghost function Enter(k: Kids, root: Node, cur: Node, name: string): Node? {
    if name == "." then cur
    else if name == ".." then cur.parent
    else if name == "~" then ChildOf(k, root, "root")
    else ChildOf(k, cur, name)
  }

  ghost function Walk(k: Kids, root: Node, cur: Node, names: seq<string>): Node? {
    if names == [] then cur
    else
      var next := Enter(k, root, cur, names[0]);
      if next == null then null else Walk(k, root, next, names[1..])
  }

  /** vfs_resolve */
  ghost function Resolve(k: Kids, root: Node, cwd: Node, path: string): Node? {
    Walk(k, root, if path != "" && path[0] == '/' then root else cwd, Components(path))
  }

  lemma EnterStays(k: Kids, root: Node, cur: Node, name: string)
    requires TreeOk(k, root) && cur in k
    ensures var n := Enter(k, root, cur, name); n != null ==> n in k
  {
    FoundIsListed(k[cur], name, 0);
    FoundIsListed(k[root], "root", 0);
    assert NodeOk(k, root, cur) && NodeOk(k, root, root);
  }

  lemma {:induction false} WalkStays(k: Kids, root: Node, cur: Node, names: seq<string>)
    requires TreeOk(k, root) && cur in k
    ensures var n := Walk(k, root, cur, names); n != null ==> n in k
    decreases |names|
  {
    if names != [] {
      EnterStays(k, root, cur, names[0]);
      var next := Enter(k, root, cur, names[0]);
      if next != null {
        WalkStays(k, root, next, names[1..]);
      }
    }
  }

  lemma {:induction false} WalkAppend(k: Kids, root: Node, cur: Node, xs: seq<string>, ys: seq<string>)
    ensures Walk(k, root, cur, xs + ys) ==
      var mid := Walk(k, root, cur, xs); if mid == null then null else Walk(k, root, mid, ys)
    decreases |xs|
  {
    if xs == [] {
      assert xs + ys == ys;
    } else {
      assert (xs + ys)[0] == xs[0] && (xs + ys)[1..] == xs[1..] + ys;
      var next := Enter(k, root, cur, xs[0]);
      if next != null {
        WalkAppend(k, root, next, xs[1..], ys);
      }
    }
  }

  lemma WalkOne(k: Kids, root: Node, cur: Node, name: string)
    ensures Walk(k, root, cur, [name]) == Enter(k, root, cur, name)
  {
    assert [name][1..] == [];
  }

  /** Resolving p + "/" + q is walking q from where p leads. */
  lemma ResolveComposes(k: Kids, root: Node, cwd: Node, p: string, q: string)
    requires p != ""
    ensures Resolve(k, root, cwd, p + "/" + q) ==
      var mid := Resolve(k, root, cwd, p); if mid == null then null else Walk(k, root, mid, Components(q))
  {
    ComponentsJoin(p, q);
    assert (p + "/" + q)[0] == p[0];
    WalkAppend(k, root, if p[0] == '/' then root else cwd, Components(p), Components(q));
  }

  // ----- where the components lead

  /** The only node of this name in a list, or nothing when there is none. */
  ghost predicate Picks(cs: seq<Node>, name: string, r: Node?) {
    && (r != null ==> r in cs && r.name == name)
    && (r == null ==> forall c :: c in cs ==> c.name != name)
  }

  lemma ChildIsPicked(k: Kids, root: Node, dir: Node, name: string)
    requires TreeOk(k, root) && dir in k
    ensures Picks(k[dir], name, ChildOf(k, dir, name))
  {
    assert NodeOk(k, root, dir);
    FoundIsListed(k[dir], name, 0);
    FoundIffNamed(k[dir], name, 0);
  }

  /** The empty path leads to the working directory, "/" to the root, "." nowhere else. */
  lemma ResolveStays(k: Kids, root: Node, cwd: Node)
    ensures Resolve(k, root, cwd, "") == cwd && Resolve(k, root, cwd, ".") == cwd
    ensures Resolve(k, root, cwd, "/") == root
  {
    assert "/"[0..0] == "" && ComponentsFrom("/", 1, 1) == [];
    assert Components("/") == Piece("") + ComponentsFrom("/", 1, 1);
    SingleComponent(".");
    WalkOne(k, root, cwd, ".");
  }

  /** ".." leads to the parent; the root is its own. */
  lemma ResolveUp(k: Kids, root: Node, cwd: Node, path: string)
    requires TreeOk(k, root)
    ensures Resolve(k, root, cwd, "..") == cwd.parent
    ensures path != "" ==>
      var n := Resolve(k, root, cwd, path);
      Resolve(k, root, cwd, path + "/..") == if n == null then null else n.parent
    ensures Resolve(k, root, root, "..") == root
  {
    SingleComponent("..");
    WalkOne(k, root, cwd, "..");
    WalkOne(k, root, root, "..");
    if path != "" {
      ResolveComposes(k, root, cwd, path, "..");
      assert path + "/" + ".." == path + "/..";
      var n := Resolve(k, root, cwd, path);
      if n != null {
        WalkOne(k, root, n, "..");
      }
    }
  }

  /** "." behind a path leads nowhere else. */
  lemma ResolveDot(k: Kids, root: Node, cwd: Node, path: string)
    requires path != ""
    ensures Resolve(k, root, cwd, path + "/.") == Resolve(k, root, cwd, path)
  {
    SingleComponent(".");
    ResolveComposes(k, root, cwd, path, ".");
    assert path + "/" + "." == path + "/.";
    var n := Resolve(k, root, cwd, path);
    if n != null {
      WalkOne(k, root, n, ".");
    }
  }

  /** "~" leads to the child of the root that is named "root", from anywhere. */
  lemma ResolveHome(k: Kids, root: Node, cwd: Node)
    requires TreeOk(k, root)
    ensures Picks(k[root], "root", Resolve(k, root, cwd, "~"))
  {
    SingleComponent("~");
    WalkOne(k, root, cwd, "~");
    ChildIsPicked(k, root, root, "root");
  }

  /** An ordinary name behind a path leads to the child of that name, and ".." behind that
      back again. */
  lemma ResolveDown(k: Kids, root: Node, cwd: Node, path: string, dir: Node, name: string)
    requires TreeOk(k, root) && dir in k && path != "" && Ordinary(name)
    requires Resolve(k, root, cwd, path) == dir
    ensures Picks(k[dir], name, Resolve(k, root, cwd, path + "/" + name))
    ensures (exists c :: c in k[dir] && c.name == name) ==>
      Resolve(k, root, cwd, path + "/" + name + "/..") == dir
  {
    var below := path + "/" + name;
    OrdinaryComponent(name);
    ResolveComposes(k, root, cwd, path, name);
    WalkOne(k, root, dir, name);
    ChildIsPicked(k, root, dir, name);
    ResolveUp(k, root, cwd, below);
    assert NodeOk(k, root, dir);
  }

  /** An ordinary name alone leads to a child of the working directory, behind a slash to
      one of the root. */
  lemma ResolveChild(k: Kids, root: Node, cwd: Node, name: string)
    requires TreeOk(k, root) && cwd in k && Ordinary(name)
    ensures Picks(k[cwd], name, Resolve(k, root, cwd, name))
    ensures Picks(k[root], name, Resolve(k, root, cwd, "/" + name))
  {
    OrdinaryComponent(name);
    ChildIsPicked(k, root, cwd, name);
    ChildIsPicked(k, root, root, name);
    WalkOne(k, root, cwd, name);
    WalkOne(k, root, root, name);
    ComponentsJoin("", name);
    assert "" + "/" + name == "/" + name && [] + [name] == [name];
    assert Components("") == [];
  }
}
