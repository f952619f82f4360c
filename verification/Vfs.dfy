/** The in-RAM filesystem as a whole (src/vfs.c): its globals, and every operation on
    them. */
module Vfs {
  import opened Arithmetic
  import opened KHeap
  import opened Paths
  import opened Tree
  import opened Pwd
  import opened Changes
  import opened Files

  const NODE_SIZE: nat := 120  // sizeof(vnode_t)
  const POINTER_SIZE: nat := 8

  const MOTD := "Welcome to BojanOS - a from-scratch 64-bit operating system\n"
  const OS_RELEASE := "NAME=BojanOS\nVERSION=1.0\nID=bojanos\nPRETTY_NAME=\"BojanOS 1.0\"\n"
  const README :=
    "BojanOS\n" +
    "=======\n" +
    "Everything you see was written from scratch for this OS:\n" +
    " - 64-bit long mode kernel with paging, GDT, IDT, IRQs\n" +
    " - PS/2 keyboard driver, PIT timer, CMOS RTC\n" +
    " - in-RAM filesystem with directories and files\n" +
    " - shell with pipes and redirections\n" +
    "Type 'help' to list commands.\n"

  /** The children of a directory: all of one kind, with these names and contents. */
  datatype Listing = Listing(kind: Kind, names: seq<string>, texts: seq<string>)
  {
    predicate Ok() {
      && |names| == |texts| <= 8
      && (forall i, j :: 0 <= i < j < |names| ==> names[i] != names[j])
      && (forall i :: 0 <= i < |names| ==> |names[i]| <= 63)
      && (forall i :: 0 <= i < |texts| ==> |texts[i]| < 400 && (kind == Dir ==> texts[i] == ""))
    }

    function First(n: nat): Listing
      requires n <= |names| == |texts|
    {
      this.(names := names[..n], texts := texts[..n])
    }
  }

  /** What vfs_init makes in the root, and in each of these. */
  const TOP: Listing := Listing(Dir, ["bin", "etc", "home", "root", "tmp", "usr"], ["", "", "", "", "", ""])
  const BELOW_TOP: seq<Listing> := [
    Listing(Dir, [], []),
    Listing(File, ["motd", "hostname", "os-release"], [MOTD, "bojanos\n", OS_RELEASE]),
    Listing(Dir, ["user"], [""]),
    Listing(File, ["readme.txt"], [README]),
    Listing(Dir, [], []),
    Listing(Dir, ["bin"], [""])
  ]

  /** Past the slashes at `start`. */
  method SkipSlashes(path: string, start: nat) returns (p: nat)
    requires start <= |path|
    ensures start <= p <= |path| && (p < |path| ==> path[p] != '/')
    ensures ComponentsFrom(path, p, p) == ComponentsFrom(path, start, start)
  {
    p := start;
    while p < |path| && path[p] == '/'
      invariant start <= p <= |path|
      invariant ComponentsFrom(path, p, p) == ComponentsFrom(path, start, start)
    {
      SlashFirst(path, p);
      p := p + 1;
    }
  }

  /** src/vfs.c:61-67: the component at `start`, cut to 63 characters. */
  method ReadName(path: string, start: nat) returns (name: string, p: nat)
    requires start < |path| && path[start] != '/'
    ensures start < p <= |path|
    ensures ComponentsFrom(path, start, start) == [name] + ComponentsFrom(path, p, p)
  {
    p, name := start, "";
    while p < |path| && path[p] != '/'
      invariant start <= p <= |path| && '/' !in path[start..p]
      invariant name == Truncated(path[start..p])
    {
      assert path[start..p + 1] == path[start..p] + [path[p]];
      if |name| < NAME_MAX - 1 {
        name := name + [path[p]];
      }
      p := p + 1;
    }
    NextComponent(path, start, start, p);
    if p < |path| {
      SlashFirst(path, p);
    }
  }

  class Fs {
    const heap: Heap
    const root: Node
    var cwd: Node
    var pwd: string
    ghost var nodes: set<Node>  // every node made so far, listed or not

    ghost function Kids(): Kids
      reads this`nodes, nodes`children
    {
      map n | n in nodes :: n.children
    }

    ghost predicate Apart(n: Node, m: Node)
      reads n`data, n`cap, m`data, m`cap
    {
      n.data.At? && m.data.At? ==>
        n.data.offset + n.cap <= m.data.offset || m.data.offset + m.cap <= n.data.offset
    }

    /** Buffers are intact and pairwise disjoint. */
    ghost predicate StoreOk()
      reads this`nodes, nodes`data, nodes`size, nodes`cap, heap`used, heap.mem
    {
      && (forall n {:trigger BlockOk(n, heap)} :: n in nodes ==> BlockOk(n, heap))
      && forall n, m {:trigger Apart(n, m)} :: n in nodes && m in nodes && n != m ==> Apart(n, m)
    }

    ghost predicate CwdOk()
      reads this`nodes, this`cwd
    {
      && cwd in nodes && cwd.kind == Dir
      && Chain(cwd, root) && OrdinaryChain(cwd, root)
    }

    ghost predicate ListsFit()
      reads this`nodes, nodes, heap
    {
      forall n {:trigger n in nodes} :: n in nodes ==> |n.children| <= n.childCap <= 0x100_0000 && n.addr < heap.used
    }

    /** The invariant, but for vfs_pwd, which vfs_init sets last. */
    ghost predicate Inner()
      reads this`nodes, this`cwd, nodes, heap, heap.mem
    {
      && heap.Valid()
      && TreeOk(Kids(), root)
      && ListsFit()
      && CwdOk()
      && StoreOk()
    }

    ghost predicate Valid()
      reads this, nodes, heap, heap.mem
    {
      Inner() && pwd == PwdOf(cwd, root) && |pwd| < 1024
    }

    ghost function TextOf(n: Node): string
      reads n`data, n`size, n`cap, heap`used, heap.mem
    {
      if BlockOk(n, heap) then Content(n, heap) else ""
    }

    /** The contents of every node; a directory has none. */
    ghost function Texts(): map<Node, string>
      reads this`nodes, nodes`data, nodes`size, nodes`cap, heap`used, heap.mem
    {
      map n | n in nodes :: TextOf(n)
    }

    twostate predicate TextsKept()
      reads this`nodes, nodes`data, nodes`size, nodes`cap, heap`used, heap.mem
    {
      forall x {:trigger TextOf(x)} :: x in old(nodes) && x in nodes ==> TextOf(x) == old(TextOf(x))
    }

    // ----- the first tree

    /** The directory lists just these nodes. */
    ghost predicate Lists(dir: Node, l: Listing)
      reads this`nodes, dir`children, nodes, heap, heap.mem
    {
      && |dir.children| == |l.names| == |l.texts|
      && forall i {:trigger dir.children[i]} :: 0 <= i < |l.names| ==>
        && dir.children[i] in nodes && dir.children[i].kind == l.kind && dir.children[i].parent == dir
        && dir.children[i].name == l.names[i] && TextOf(dir.children[i]) == l.texts[i]
    }

    static ghost predicate Childless(n: Node)
      reads n`children, n`childCap
    {
      n.children == [] && n.childCap == 0
    }

    /** What is listed stays listed while other directories grow. */
    twostate lemma StillLists(dir: Node)
      requires dir.children == old(dir.children) && old(nodes) <= nodes && TextsKept()
      ensures forall l: Listing {:trigger Lists(dir, l)} :: old(Lists(dir, l)) ==> Lists(dir, l)
    {
    }

    /** mkdir_simple or mkfile_simple, while there is room. */
    method MakeOne(parent: Node, kind: Kind, name: string, text: string, ghost l: Listing) returns (c: Node)
      requires Inner() && parent in nodes && parent.kind == Dir && heap.used + 1056 <= heap.total
      requires Lists(parent, l) && l.kind == kind && name !in l.names && |name| <= 63
      requires |l.names| < 8 && parent.childCap == if l.names == [] then 0 else 8
      requires |text| < 400 && (kind == Dir ==> text == "")
      modifies this`nodes, heap`used, heap.mem, parent`children, parent`childCap
      ensures Inner() && heap.used <= old(heap.used) + 1056 && old(nodes) <= nodes && TextsKept()
      ensures fresh(c) && Childless(c) && parent.children == old(parent.children) + [c] && parent.childCap == 8
      ensures Lists(parent, l.(names := l.names + [name], texts := l.texts + [text]))
    {
      hide TreeOk, StoreOk, ListsFit, CwdOk;
      c := MakeFirst(parent, kind, name, l);
      label Made:
      if kind == File {
        WriteFirst(c, text);
      }
      assert forall x {:trigger TextOf(x)} :: x in old(nodes) ==> TextOf(x) == old@Made(TextOf(x)) == old(TextOf(x));
    }

    method MakeFirst(parent: Node, kind: Kind, name: string, ghost l: Listing) returns (c: Node)
      requires Inner() && parent in nodes && parent.kind == Dir && heap.used + 192 <= heap.total
      requires Lists(parent, l) && name !in l.names && |name| <= 63
      requires |l.names| < 8 && parent.childCap == if l.names == [] then 0 else 8
      modifies this`nodes, heap`used, parent`children, parent`childCap
      ensures Inner() && heap.used <= old(heap.used) + 192 && nodes == old(nodes) + {c} && TextsKept()
      ensures fresh(c) && c.kind == kind && c.name == name && c.parent == parent && c.cap == 0 && TextOf(c) == ""
      ensures Childless(c) && parent.children == old(parent.children) + [c] && parent.childCap == 8
    {
      FoundIffNamed(parent.children, name, 0);
      forall j | 0 <= j < |parent.children|
        ensures parent.children[j].name != name
      {
        assert l.names[j] in l.names;
      }
      var made, ok := MakeIn(kind, name, parent);
      c := made;
      assert Kids()[parent] == parent.children && Kids()[c] == c.children;
    }

    method WriteFirst(n: Node, text: string)
      requires Inner() && n in nodes && n.kind == File && n.cap == 0 && |text| < 400
      requires heap.used + 864 <= heap.total
      modifies heap`used, heap.mem, n`data, n`cap, n`size
      ensures Inner() && heap.used <= old(heap.used) + 864 && TextOf(n) == text
      ensures forall x {:trigger TextOf(x)} :: x in nodes && x != n ==> TextOf(x) == old(TextOf(x))
    {
      GrowBounds(64, |text| + 1);
      var ok := Write(n, text);
      assert Texts()[n] == text;
      forall x {:trigger TextOf(x)} | x in nodes && x != n
        ensures TextOf(x) == old(TextOf(x))
      {
        assert Texts()[x] == old(Texts())[x];
      }
    }

    /** A row of mkdir_simple or mkfile_simple calls for one directory. */
    method MakeAll(parent: Node, l: Listing)
      requires Inner() && parent in nodes && parent.kind == Dir && Childless(parent) && l.Ok()
      requires heap.used + |l.names| * 1056 <= heap.total
      modifies this`nodes, heap`used, heap.mem, parent`children, parent`childCap
      ensures Inner() && heap.used <= old(heap.used) + |l.names| * 1056 && old(nodes) <= nodes && TextsKept()
      ensures Lists(parent, l)
      ensures forall i {:trigger parent.children[i]} :: 0 <= i < |l.names| ==>
        fresh(parent.children[i]) && Childless(parent.children[i])
    {
      hide TreeOk, StoreOk, ListsFit, CwdOk;
      for i := 0 to |l.names|
        invariant Inner() && heap.used <= old(heap.used) + i * 1056 && old(nodes) <= nodes && TextsKept()
        invariant Lists(parent, l.First(i)) && parent.childCap == if i == 0 then 0 else 8
        invariant forall k {:trigger parent.children[k]} :: 0 <= k < i ==>
          fresh(parent.children[k]) && Childless(parent.children[k])
      {
        var c := MakeOne(parent, l.kind, l.names[i], l.texts[i], l.First(i));
        TakeMore(l.names, i);
        TakeMore(l.texts, i);
      }
      assert l.First(|l.names|) == l;
    }

    /** The top directories, those in `done` filled and the others empty. */
    ghost predicate Filled(done: set<nat>)
      reads this`nodes, root, root.children, nodes, heap, heap.mem
    {
      && Lists(root, TOP)
      && forall i {:trigger root.children[i]} :: 0 <= i < 6 ==>
        if i in done then Lists(root.children[i], BELOW_TOP[i]) else Childless(root.children[i])
    }

    /** The directories and files of vfs_init, with their contents. */
    ghost predicate FirstTree()
      reads this`nodes, root, root.children, nodes, heap, heap.mem
    {
      Filled({1, 2, 3, 5})
    }

    /** vfs_init. The heap is fresh and large enough for the first nodes. */
    constructor (heap: Heap)
      requires heap.Valid() && heap.used == 0 && heap.total >= 0x4000
      modifies heap`used, heap.mem
      ensures this.heap == heap && Valid() && FirstTree() && heap.used <= 0x4000
      ensures pwd == "/root" && cwd == root.children[3]
    {
      var p := heap.Kmalloc(NODE_SIZE);
      var r := new Node.Root(p.offset);
      this.heap := heap;
      root := r;
      cwd := r;
      pwd := "";
      nodes := {r};
      new;
      FillRoot();
    }

    /** Everything that vfs_init does after the root is made. */
    method FillRoot()
      requires Inner() && nodes == {root} && root.kind == Dir && Childless(root)
      requires heap.used + 12 * 1056 <= heap.total
      modifies this, root`children, root`childCap, heap`used, heap.mem
      ensures Valid() && FirstTree() && heap.used <= old(heap.used) + 12 * 1056
      ensures pwd == "/root" && cwd == root.children[3]
    {
      hide TreeOk, StoreOk, ListsFit, CwdOk;
      MakeAll(root, TOP);
      FillTop();
    }

    method FillTop()
      requires Inner() && Filled({}) && heap.used + 6 * 1056 <= heap.total
      modifies this, heap`used, heap.mem, root.children`children, root.children`childCap
      ensures Valid() && FirstTree() && heap.used <= old(heap.used) + 6 * 1056
      ensures root.children == old(root.children) && pwd == "/root" && cwd == root.children[3]
    {
      hide TreeOk, StoreOk, ListsFit, CwdOk;
      FillDirectories();
      FillFiles();
      EnterHome(root.children[3]);
    }

    method FillDirectories()
      requires Inner() && Filled({}) && heap.used + 4 * 1056 <= heap.total
      modifies this`nodes, heap`used, heap.mem, root.children`children, root.children`childCap
      ensures Inner() && Filled({2, 5}) && heap.used <= old(heap.used) + 2 * 1056
    {
      hide TreeOk, StoreOk, ListsFit, CwdOk;
      Fill(root.children[5], 5, {});
      Fill(root.children[2], 2, {5});
    }

    method FillFiles()
      requires Inner() && Filled({2, 5}) && heap.used + 4 * 1056 <= heap.total
      modifies this`nodes, heap`used, heap.mem, root.children`children, root.children`childCap
      ensures Inner() && FirstTree() && heap.used <= old(heap.used) + 4 * 1056
    {
      hide TreeOk, StoreOk, ListsFit, CwdOk;
      Fill(root.children[1], 1, {2, 5});
      Fill(root.children[3], 3, {1, 2, 5});
    }

    method Fill(dir: Node, top: nat, ghost done: set<nat>)
      requires Inner() && Filled(done) && top < 6 && top !in done && dir == root.children[top]
      requires heap.used + |BELOW_TOP[top].names| * 1056 <= heap.total
      modifies this`nodes, heap`used, heap.mem, dir`children, dir`childCap
      ensures Inner() && Filled(done + {top}) && heap.used <= old(heap.used) + |BELOW_TOP[top].names| * 1056
    {
      hide TreeOk, StoreOk, ListsFit, CwdOk, TextOf;
      TopApart(dir, top);
      MakeAll(dir, BELOW_TOP[top]);
      OthersStill(dir);
    }

    /** The directories in the root are different nodes, and none is the root. */
    lemma TopApart(dir: Node, top: nat)
      requires Inner() && Lists(root, TOP) && top < 6 && dir == root.children[top]
      ensures root in nodes && dir in nodes && dir.kind == Dir && dir != root
      ensures forall i {:trigger root.children[i]} :: 0 <= i < 6 && i != top ==> root.children[i] != dir
    {
      var k := Kids();
      assert dir in k[root] && NodeOk(k, root, root);
    }

    /** Only `dir` has changed its list. */
    twostate lemma OthersStill(dir: Node)
      requires root in old(nodes) && old(nodes) <= nodes && TextsKept() && root.children == old(root.children)
      requires old(Lists(root, TOP))
      requires forall x {:trigger x.children} {:trigger x.childCap} :: x in old(nodes) && x != dir ==>
        x.children == old(x.children) && x.childCap == old(x.childCap)
      ensures Lists(root, TOP)
      ensures forall i {:trigger root.children[i]} :: 0 <= i < 6 && root.children[i] != dir ==>
        && (old(Lists(root.children[i], BELOW_TOP[i])) ==> Lists(root.children[i], BELOW_TOP[i]))
        && (old(Childless(root.children[i])) ==> Childless(root.children[i]))
    {
      StillLists(root);
      forall i {:trigger root.children[i]} | 0 <= i < 6 && root.children[i] != dir
        ensures old(Lists(root.children[i], BELOW_TOP[i])) ==> Lists(root.children[i], BELOW_TOP[i])
      {
        assert root.children[i] in old(nodes);
        StillLists(root.children[i]);
      }
    }

    method EnterHome(rootDir: Node)
      requires Inner() && rootDir in nodes && rootDir.kind == Dir && rootDir.name == "root"
      requires rootDir.parent == root && rootDir != root
      modifies this`cwd, this`pwd
      ensures Valid() && cwd == rootDir && pwd == "/root"
    {
      assert NodeOk(Kids(), root, rootDir);
      assert Ordinary("root");
      assert PathTo(rootDir, root, 64) == "" + "/" + "root" == "/root";
      cwd := rootDir;
      var fits := UpdatePwd();
    }

    // ----- reading

    method ChildOf(dir: Node, name: string) returns (c: Node?)
      requires dir in nodes
      ensures c == Tree.ChildOf(Kids(), dir, name)
    {
      if dir.kind != Dir {
        return null;
      }
      var cs := dir.children;
      for i := 0 to |cs|
        invariant FindFrom(cs, name, 0) == FindFrom(cs, name, i)
      {
        if cs[i].name == name {
          return cs[i];
        }
      }
      c := null;
    }

    /** vfs_resolve */
    method Resolve(path: string) returns (r: Node?)
      requires Inner()
      ensures r == Tree.Resolve(Kids(), root, cwd, path)
      ensures r != null ==> r in nodes && Chain(r, root) && OrdinaryChain(r, root)
    {
      ghost var k := Kids();
      ResolveOrdinary(k, root, cwd, path);
      if path == "" {
        return cwd;
      }
      var cur := if path[0] == '/' then root else cwd;
      ghost var start := cur;
      var p := 0;
      while p < |path|
        invariant p <= |path| && cur in nodes
        invariant Walk(k, root, cur, ComponentsFrom(path, p, p)) == Walk(k, root, start, Components(path))
        decreases |path| - p
      {
        p := SkipSlashes(path, p);
        if p == |path| {
          break;
        }
        var name, e := ReadName(path, p);
        ghost var rest := ComponentsFrom(path, e, e);
        assert ([name] + rest)[1..] == rest;
        EnterStays(k, root, cur, name);
        var next := EnterChild(cur, name);
        if next == null {
          return null;
        }
        cur := next;
        p := e;
      }
      r := cur;
    }

    /** src/vfs.c:68-81 */
    method EnterChild(cur: Node, name: string) returns (next: Node?)
      requires cur in nodes && root in nodes
      ensures next == Enter(Kids(), root, cur, name)
    {
      if name == "." {
        next := cur;
      } else if name == ".." {
        next := cur.parent;
      } else if name == "~" {
        next := ChildOf(root, "root");
      } else {
        next := ChildOf(cur, name);
      }
    }

    /** vfs_resolve_parent; the caller's name buffer has 64 characters */
    method ResolveParent(path: string) returns (parent: Node?, name: string)
      requires Valid()
      ensures parent == Changes.ResolveParent(Kids(), root, cwd, path) && name == LastName(path)
      ensures parent != null ==> parent in nodes
    {
      name := LastName(path);
      var buf := Buffered(path);
      var slash := LastSlash(buf);
      if slash < 0 {
        parent := cwd;
      } else if slash == 0 {
        parent := root;
      } else {
        parent := Resolve(buf[..slash]);
      }
    }

    // ----- creating

    method MakeNode(kind: Kind, name: string, parent: Node) returns (n: Node?)
      requires Inner() && parent in nodes && parent.kind == Dir
      requires |name| <= 63 && FindFrom(parent.children, name, 0) == null
      modifies this`nodes, heap`used
      ensures Inner()
      ensures n != null <==> old(heap.used) + 128 <= heap.total
      ensures n == null ==> nodes == old(nodes) && Kids() == old(Kids()) && heap.used == old(heap.used)
      ensures n != null ==> heap.used == old(heap.used) + 128
      ensures n != null ==> fresh(n) && n.kind == kind && n.name == name && n.parent == parent
      ensures n != null ==> n.childCap == 0 && n.data == Null && n.cap == 0
      ensures n != null ==> nodes == old(nodes) + {n} && CanAdd(old(Kids()), root, n) && Kids() == Made(old(Kids()), n)
    {
      ghost var k := Kids();
      n := NewNode(kind, name, parent);
      if n == null {
        return;
      }
      nodes := nodes + {n};
      assert Kids() == Made(k, n);
      MadeOk(k, root, n);
      StoreWithNew(n);
    }

    method NewNode(kind: Kind, name: string, parent: Node) returns (n: Node?)
      requires heap.Valid() && |name| <= 63
      modifies heap`used
      ensures heap.Valid()
      ensures n != null <==> old(heap.used) + 128 <= heap.total
      ensures heap.used == if n == null then old(heap.used) else old(heap.used) + 128
      ensures n != null ==>
          && fresh(n) && n.kind == kind && n.name == name && n.parent == parent
          && n.addr == old(heap.used)
      ensures n != null ==> n.children == [] && n.childCap == 0 && n.data == Null && n.size == 0 && n.cap == 0
    {
      var p := heap.Kmalloc(NODE_SIZE);
      if p == Null {
        return null;
      }
      n := new Node.Make(kind, name, parent, p.offset);
    }

    /** A node without a buffer leaves the buffers alone. */
    twostate lemma StoreWithNew(new n: Node)
      requires old(StoreOk()) && nodes == old(nodes) + {n} && old(heap.used) <= heap.used <= heap.mem.Length
      requires n.data == Null && n.size == 0 && n.cap == 0 && n !in old(nodes)
      requires forall x {:trigger x in old(nodes)} ::
          x in old(nodes) ==> x.data == old(x.data) && x.size == old(x.size) && x.cap == old(x.cap)
      requires heap.mem[..] == old(heap.mem[..])
      ensures StoreOk()
    {
      forall x | x in nodes
        ensures BlockOk(x, heap)
      {
        if x != n {
          assert x in old(nodes) && old(BlockOk(x, heap));
          assert forall k :: 0 <= k < heap.mem.Length ==> heap.mem[..][k] == heap.mem[k];
        }
      }
      forall x, y | x in nodes && y in nodes && x != y
        ensures Apart(x, y)
      {
        if x != n && y != n {
          assert x in old(nodes) && y in old(nodes) && old(Apart(x, y));
        }
      }
    }

    /** The capacity of the list once it holds one child more. */
    static function NextCap(dir: Node): nat
      reads dir`children, dir`childCap
    {
      if |dir.children| < dir.childCap then dir.childCap
      else if dir.childCap > 0 then dir.childCap * 2
      else 8
    }

    /** What one more child costs: nothing, or a list of twice the capacity. */
    static function ListCost(dir: Node): nat
      reads dir`children, dir`childCap
    {
      if |dir.children| < dir.childCap then 0 else RoundUp16(NextCap(dir) * POINTER_SIZE)
    }

    method AddChild(dir: Node, child: Node) returns (ok: bool)
      requires heap.Valid() && |dir.children| <= dir.childCap <= 0x100_0000
      modifies heap`used, dir`children, dir`childCap
      ensures heap.Valid() && |dir.children| <= dir.childCap <= 0x100_0000
      ensures ok <==> old(heap.used) + old(ListCost(dir)) <= heap.total
      ensures heap.used == old(heap.used) + if ok then old(ListCost(dir)) else 0
      ensures dir.children == if ok then old(dir.children) + [child] else old(dir.children)
      ensures dir.childCap == if ok then old(NextCap(dir)) else old(dir.childCap)
    {
      if |dir.children| >= dir.childCap {
        var newcap := if dir.childCap > 0 then dir.childCap * 2 else 8;
        var nc := heap.Kmalloc(newcap * POINTER_SIZE);
        if nc == Null {
          return false;
        }
        dir.childCap := newcap;
      }
      dir.children := dir.children + [child];
      ok := true;
    }

    /** Taking heap and changing lists leaves the buffers alone. */
    twostate lemma StoreKept()
      requires old(StoreOk()) && nodes == old(nodes) && old(heap.used) <= heap.used <= heap.mem.Length
      requires forall x {:trigger x in nodes} ::
          x in nodes ==> x.data == old(x.data) && x.size == old(x.size) && x.cap == old(x.cap)
      requires heap.mem[..] == old(heap.mem[..])
      ensures StoreOk()
    {
      assert forall k :: 0 <= k < heap.mem.Length ==> heap.mem[..][k] == heap.mem[k];
      forall x | x in nodes
        ensures BlockOk(x, heap)
      {
        assert old(BlockOk(x, heap));
      }
      forall x, y | x in nodes && y in nodes && x != y
        ensures Apart(x, y)
      {
        assert old(Apart(x, y));
      }
    }

    /** The tree is as it was, or has one node more, which is listed if `ok`. */
    twostate predicate Grown(new n: Node?, ok: bool)
      reads this`nodes, nodes`children
    {
      && (n == null ==> !ok && nodes == old(nodes) && Kids() == old(Kids()))
      && (n != null ==> nodes == old(nodes) + {n} && CanAdd(old(Kids()), root, n))
      && (n != null ==> Kids() == if ok then Added(old(Kids()), n) else Made(old(Kids()), n))
    }

    twostate lemma TextsStay()
      requires old(StoreOk()) && StoreOk() && old(nodes) <= nodes
      requires forall x {:trigger x in old(nodes)} ::
          x in old(nodes) ==> x.data == old(x.data) && x.size == old(x.size) && x.cap == old(x.cap)
      requires heap.mem[..] == old(heap.mem[..])
      ensures TextsKept()
    {
      assert forall k :: 0 <= k < heap.mem.Length ==> heap.mem[..][k] == heap.mem[k];
      forall x | x in old(nodes)
        ensures TextOf(x) == old(TextOf(x))
      {
        assert BlockOk(x, heap) && old(BlockOk(x, heap));
        if x.data.At? {
          assert heap.mem[x.data.offset..x.data.offset + x.size]
              == old(heap.mem[x.data.offset..x.data.offset + x.size]);
        }
      }
    }

    /** make_node and add_child: a new node at the end of the list of its parent, or,
        when only the list could not grow, a node that is nowhere listed. */
    method MakeIn(kind: Kind, name: string, parent: Node) returns (n: Node?, ok: bool)
      requires Inner() && parent in nodes && parent.kind == Dir
      requires |name| <= 63 && FindFrom(parent.children, name, 0) == null
      modifies this`nodes, heap`used, parent`children, parent`childCap
      ensures Inner() && Grown(n, ok)
      ensures n != null <==> old(heap.used) + 128 <= heap.total
      ensures if n == null then heap.used == old(heap.used) else fresh(n) && NewIn(n, kind, name, parent, ok)
      ensures TextsKept() && (n != null ==> TextOf(n) == "")
    {
      ok := false;
      n := MakeNode(kind, name, parent);
      if n != null {
        ok := ListNode(n, old(Kids()));
        TextsStay();
      }
    }

    /** A new node, what it took, and whether its list could take it. */
    twostate predicate NewIn(new n: Node, kind: Kind, name: string, parent: Node, ok: bool)
      reads heap`used, n, parent
    {
      && n !in old(nodes) && n.kind == kind && n.name == name && n.parent == parent
      && n.data == Null && n.cap == 0 && n.childCap == 0
      && (ok <==> old(heap.used) + 128 + old(ListCost(parent)) <= heap.total)
      && heap.used == old(heap.used) + 128 + (if ok then old(ListCost(parent)) else 0)
      && parent.childCap == if ok then old(NextCap(parent)) else old(parent.childCap)
    }

    /** add_child on a node just made */
    method ListNode(n: Node, ghost k: Kids) returns (ok: bool)
      requires Inner() && n in nodes && n.parent in nodes && n != root && n != n.parent
      requires TreeOk(k, root) && CanAdd(k, root, n) && Kids() == Made(k, n)
      modifies heap`used, n.parent`children, n.parent`childCap
      ensures Inner()
      ensures ok <==> old(heap.used) + old(ListCost(n.parent)) <= heap.total
      ensures heap.used == old(heap.used) + if ok then old(ListCost(n.parent)) else 0
      ensures n.parent.childCap == if ok then old(NextCap(n.parent)) else old(n.parent.childCap)
      ensures Kids() == if ok then Added(k, n) else Made(k, n)
    {
      assert Kids()[n.parent] == n.parent.children == k[n.parent];
      ok := AddChild(n.parent, n);
      StoreKept();
      if ok {
        AddedOk(k, root, n);
        assert Kids() == Added(k, n);
      } else {
        assert Kids() == Made(k, n);
      }
      assert ListsFit() && CwdOk();
    }

    /** The outcome of vfs_mkdir and vfs_mkfile, for the directory and the name that
        vfs_resolve_parent finds: a node unless they are missing, the name is taken or the
        memory is full; listed unless the list cannot grow. */
    twostate predicate Created(parent: Node?, name: string, kind: Kind, new n: Node?, ok: bool)
      reads this`nodes, nodes, heap`used
    {
      && Grown(n, ok)
      && (n != null <==> (parent != null && parent.kind == Dir && name != "" &&
                          Tree.ChildOf(old(Kids()), parent, name) == null && old(heap.used) + 128 <= heap.total))
      && (n != null ==> parent in nodes && n in nodes && NewIn(n, kind, name, parent, ok))
      && (n == null ==> heap.used == old(heap.used))
    }

    /** Every path that led somewhere still leads there. */
    twostate predicate PathsKept()
      reads this`nodes, this`cwd, nodes`children
    {
      forall p: string {:trigger Tree.Resolve(Kids(), root, cwd, p)} ::
        Tree.Resolve(old(Kids()), root, old(cwd), p) != null ==>
          Tree.Resolve(Kids(), root, cwd, p) == Tree.Resolve(old(Kids()), root, old(cwd), p)
    }

    /** A new node changes no path but its own, to which the path leads that it was made
        by, if that fits and ends in an ordinary name. */
    lemma NewPaths(k: Kids, m: Kids, path: string, n: Node, ok: bool)
      requires TreeOk(k, root) && CanAdd(k, root, n) && cwd in k && m == if ok then Added(k, n) else Made(k, n)
      requires n.parent == Changes.ResolveParent(k, root, cwd, path) && n.name == LastName(path)
      ensures forall p: string {:trigger Tree.Resolve(m, root, cwd, p)} ::
        Tree.Resolve(k, root, cwd, p) != null ==> Tree.Resolve(m, root, cwd, p) == Tree.Resolve(k, root, cwd, p)
      ensures ok && |path| <= 1023 && Ordinary(LastName(path)) ==> Tree.Resolve(m, root, cwd, path) == n
    {
      forall p: string
        ensures Tree.Resolve(k, root, cwd, p) != null ==> Tree.Resolve(m, root, cwd, p) == Tree.Resolve(k, root, cwd, p)
      {
        AddedKeepsPaths(k, root, cwd, p, n);
        MadeKeepsPaths(k, root, cwd, p, n);
      }
      if ok && |path| <= 1023 && Ordinary(LastName(path)) {
        AddedResolves(k, root, cwd, path, n);
      }
    }

    /** vfs_mkfile and vfs_mkdir, which differ in the type only; `fits` says whether the
        new name stays inside its buffer of 64 characters, and nothing is done otherwise. */
    method Make(kind: Kind, path: string) returns (ok: bool, fits: bool, ghost n: Node?)
      requires Valid()
      modifies this`nodes, heap`used, nodes`children, nodes`childCap
      ensures Valid() && TextsKept() && PathsKept()
      ensures fits <==> |LastName(path)| <= 63
      ensures !fits ==> !ok && n == null && nodes == old(nodes) && Kids() == old(Kids()) && heap.used == old(heap.used)
      ensures n != null ==> fresh(n) && TextOf(n) == ""
      ensures fits ==> Created(Changes.ResolveParent(old(Kids()), root, old(cwd), path), LastName(path), kind, n, ok)
      ensures ok && |path| <= 1023 && Ordinary(LastName(path)) ==> Tree.Resolve(Kids(), root, cwd, path) == n
    {
      hide Inner, Created, NewIn, LastName;
      fits := |LastName(path)| <= 63;
      if !fits {
        ok, n := false, null;
        return;
      }
      ok, n := MakeAt(kind, path);
    }

    method MakeAt(kind: Kind, path: string) returns (ok: bool, ghost n: Node?)
      requires Valid() && |LastName(path)| <= 63
      modifies this`nodes, heap`used, nodes`children, nodes`childCap
      ensures Valid() && TextsKept() && PathsKept()
      ensures n != null ==> fresh(n) && TextOf(n) == ""
      ensures Created(Changes.ResolveParent(old(Kids()), root, old(cwd), path), LastName(path), kind, n, ok)
      ensures ok && |path| <= 1023 && Ordinary(LastName(path)) ==> Tree.Resolve(Kids(), root, cwd, path) == n
    {
      hide StoreOk, ListsFit, TextOf, LastName, Ordinary, Added, Made, Tree.Resolve, Changes.ResolveParent;
      ghost var k := Kids();
      var parent, name := ResolveParent(path);
      ok, n := MakeNamed(kind, name, parent);
      if n != null {
        NewPaths(k, Kids(), path, n, ok);
      }
    }

    method MakeNamed(kind: Kind, name: string, parent: Node?) returns (ok: bool, ghost n: Node?)
      requires Inner() && (parent != null ==> parent in nodes) && |name| <= 63
      modifies this`nodes, heap`used, nodes`children, nodes`childCap
      ensures Inner() && TextsKept()
      ensures n != null ==> fresh(n) && TextOf(n) == ""
      ensures Created(parent, name, kind, n, ok)
    {
      hide TreeOk, StoreOk, ListsFit, CwdOk;
      if parent == null || parent.kind != Dir {
        return false, null;
      }
      var child := ChildOf(parent, name);
      if name == "" || child != null {
        return false, null;
      }
      n, ok := MakeIn(kind, name, parent);
    }

    method Mkfile(path: string) returns (ok: bool, fits: bool, ghost n: Node?)
      requires Valid()
      modifies this`nodes, heap`used, nodes`children, nodes`childCap
      ensures Valid() && TextsKept() && PathsKept()
      ensures fits <==> |LastName(path)| <= 63
      ensures !fits ==> !ok && n == null && nodes == old(nodes) && Kids() == old(Kids()) && heap.used == old(heap.used)
      ensures n != null ==> fresh(n) && TextOf(n) == ""
      ensures fits ==> Created(Changes.ResolveParent(old(Kids()), root, old(cwd), path), LastName(path), File, n, ok)
      ensures ok && |path| <= 1023 && Ordinary(LastName(path)) ==> Tree.Resolve(Kids(), root, cwd, path) == n
    {
      hide TreeOk, StoreOk, ListsFit, CwdOk;
      ok, fits, n := Make(File, path);
    }

    method Mkdir(path: string) returns (ok: bool, fits: bool, ghost n: Node?)
      requires Valid()
      modifies this`nodes, heap`used, nodes`children, nodes`childCap
      ensures Valid() && TextsKept() && PathsKept()
      ensures fits <==> |LastName(path)| <= 63
      ensures !fits ==> !ok && n == null && nodes == old(nodes) && Kids() == old(Kids()) && heap.used == old(heap.used)
      ensures n != null ==> fresh(n) && TextOf(n) == ""
      ensures fits ==> Created(Changes.ResolveParent(old(Kids()), root, old(cwd), path), LastName(path), Dir, n, ok)
      ensures ok && |path| <= 1023 && Ordinary(LastName(path)) ==> Tree.Resolve(Kids(), root, cwd, path) == n
    {
      hide TreeOk, StoreOk, ListsFit, CwdOk;
      ok, fits, n := Make(Dir, path);
    }

    // ----- removing

    /** vfs_unlink_node */
    method UnlinkNode(n: Node) returns (ok: bool)
      requires Inner() && n in nodes && n != root
      modifies n.parent`children
      ensures Inner()
      ensures n.parent in old(Kids()) && (ok <==> n in old(Kids())[n.parent])
      ensures Kids() == Unlinked(old(Kids()), n)
    {
      ghost var k := Kids();
      UnlinkedOk(k, root, n);
      assert NodeOk(k, root, n);
      var p := n.parent;
      ghost var cs := p.children;
      ok := false;
      for i := 0 to |p.children|
        invariant n !in cs[..i]
      {
        if p.children[i] == n {
          WithoutAt(cs, n, 0, i);
          ShiftDown(p, i);
          assert Kids() == Unlinked(k, n);
          StoreKept();
          return true;
        }
        assert cs[..i + 1] == cs[..i] + [cs[i]];
      }
      assert cs[..|cs|] == cs == cs[0..];
      WithoutAbsent(cs, n, 0);
      assert Kids() == Unlinked(k, n);
    }

    /** One round of the loop of vfs_rm_recursive_node. */
    method RemoveLastChild(n: Node, ghost k: Kids)
      requires Inner() && n in nodes && n.children != []
      requires TreeOk(k, root) && n in k && |n.children| <= |k[n]| && Kids() == Peeled(k, root, n, |n.children|)
      modifies nodes`children
      ensures Inner()
      ensures |n.children| == old(|n.children|) - 1 && Kids() == Peeled(k, root, n, |n.children|)
      decreases heap.used - n.addr, 0
    {
      ghost var m := |n.children|;
      var c := n.children[|n.children| - 1];
      PeelOneMore(k, root, n, m);
      assert c in Kids()[n] && NodeOk(Kids(), root, n);
      assert NodeOk(Kids(), root, c);
      var removed := RmRecursiveNode(c);
      assert Kids()[n] == n.children;
      if !removed {
        assert false;  // the child was listed
      }
    }

    method RemoveChildren(n: Node)
      requires Inner() && n in nodes
      modifies nodes`children
      ensures Inner()
      ensures Kids() == Peeled(old(Kids()), root, n, 0)
      decreases heap.used - n.addr, 1
    {
      ghost var k := Kids();
      PeeledAll(k, root, n);
      while |n.children| > 0
        invariant Inner() && |n.children| <= |k[n]|
        invariant Kids() == Peeled(k, root, n, |n.children|)
        decreases |n.children|
      {
        RemoveLastChild(n, k);
      }
    }

    /** vfs_rm_recursive_node: terminates because addresses grow from parent to child. */
    method RmRecursiveNode(n: Node) returns (ok: bool)
      requires Inner() && n in nodes && n != root
      modifies nodes`children
      ensures Inner()
      ensures n.parent in old(Kids()) && (ok <==> n in old(Kids())[n.parent])
      ensures Kids() == Pruned(old(Kids()), root, n)
      decreases heap.used - n.addr, 2
    {
      ghost var k := Kids();
      UnlinkPeeled(k, root, n);
      BelowParent(k, n);
      RemoveChildren(n);
      ok := UnlinkNode(n);
    }

    /** The list of the parent does not change before the node is unlinked. */
    lemma BelowParent(k: Kids, n: Node)
      requires TreeOk(k, root) && n in k && n != root
      ensures n.parent in k && Peeled(k, root, n, 0)[n.parent] == k[n.parent]
    {
      assert NodeOk(k, root, n) && NodeOk(k, root, n.parent);
      forall i | 0 <= i < |k[n]|
        ensures !Below(k, root, n.parent, k[n][i])
      {
        assert k[n][i] in k[n] && NodeOk(k, root, k[n][i]);
        if Below(k, root, n.parent, k[n][i]) {
          BelowIsLater(k, root, n.parent, k[n][i]);
        }
      }
    }

    /** vfs_rm: a file, or a directory without children. */
    method Rm(path: string) returns (ok: bool)
      requires Valid()
      modifies nodes`children
      ensures Valid()
      ensures var n := Tree.Resolve(old(Kids()), root, cwd, path);
        if n == null || n == root || (n in old(Kids()) && old(Kids())[n] != []) then !ok && Kids() == old(Kids())
        else n.parent in old(Kids()) && (ok <==> n in old(Kids())[n.parent]) && Kids() == Unlinked(old(Kids()), n)
    {
      var n := Resolve(path);
      if n == null || n == root {
        return false;
      }
      assert NodeOk(Kids(), root, n);
      if n.kind == Dir && |n.children| > 0 {
        return false;
      }
      assert Kids()[n] == n.children;
      ok := UnlinkNode(n);
    }

    /** vfs_rm_recursive */
    method RmRecursive(path: string) returns (ok: bool)
      requires Valid()
      modifies nodes`children
      ensures Valid()
      ensures var n := Tree.Resolve(old(Kids()), root, cwd, path);
        if n == null || n == root then !ok && Kids() == old(Kids())
        else n.parent in old(Kids()) && (ok <==> n in old(Kids())[n.parent]) && Kids() == Pruned(old(Kids()), root, n)
    {
      var n := Resolve(path);
      if n == null || n == root {
        return false;
      }
      ok := RmRecursiveNode(n);
    }

    // ----- contents

    /** Only n's buffer changed, and it is the old one or was granted since. */
    twostate predicate OnlyFile(n: Node)
      reads this`nodes, nodes, n, heap, heap.mem
    {
      && ((n.data == old(n.data) && n.cap == old(n.cap)) || n.data == At(old(heap.used)))
      && (forall m {:trigger m in nodes} :: m in nodes && m in old(nodes) && m != n ==>
        m.data == old(m.data) && m.size == old(m.size) && m.cap == old(m.cap))
      && forall k {:trigger heap.mem[k]} ::
          0 <= k < heap.mem.Length && !(n.data.At? && n.data.offset <= k < n.data.offset + n.cap) ==>
        heap.mem[k] == old(heap.mem[k])
    }

    twostate lemma OthersIntact(n: Node)
      requires old(StoreOk()) && nodes == old(nodes) && n in nodes
      requires old(heap.used) <= heap.used <= heap.mem.Length && BlockOk(n, heap) && OnlyFile(n)
      ensures forall m {:trigger BlockOk(m, heap)} :: m in nodes && m != n ==>
        BlockOk(m, heap) && Content(m, heap) == old(Content(m, heap)) && Apart(m, n) && Apart(n, m)
    {
      forall m | m in nodes && m != n
        ensures BlockOk(m, heap) && Content(m, heap) == old(Content(m, heap)) && Apart(m, n) && Apart(n, m)
      {
        assert old(BlockOk(m, heap) && BlockOk(n, heap));
        assert old(Apart(m, n)) && old(Apart(n, m));
        if m.data.At? {
          var p := m.data.offset;
          assert Apart(m, n) && Apart(n, m);
          assert forall k {:trigger heap.mem[k]} :: p <= k < p + m.cap ==> heap.mem[k] == old(heap.mem[k]);
          assert heap.mem[p..p + m.size] == old(heap.mem[p..p + m.size]);
        }
      }
    }

    twostate lemma StoreAfterFile(n: Node)
      requires old(StoreOk()) && nodes == old(nodes) && n in nodes
      requires old(heap.used) <= heap.used <= heap.mem.Length && BlockOk(n, heap) && OnlyFile(n)
      ensures StoreOk()
      ensures forall m {:trigger TextOf(m)} :: m in nodes && m != n ==> TextOf(m) == old(TextOf(m))
    {
      OthersIntact(n);
      forall x, y | x in nodes && y in nodes && x != y
        ensures Apart(x, y)
      {
        if x == n {
          assert BlockOk(y, heap);
        } else if y == n {
          assert BlockOk(x, heap);
        } else {
          assert old(Apart(x, y));
        }
      }
      forall m | m in nodes && m != n
        ensures TextOf(m) == old(TextOf(m))
      {
        assert BlockOk(m, heap);
        assert old(BlockOk(m, heap));
      }
    }

    /** Changing one file changes no other, and nothing of the tree. */
    twostate lemma FileChanged(n: Node)
      requires old(Inner()) && heap.Valid() && nodes == old(nodes) && cwd == old(cwd) && n in nodes
      requires old(heap.used) <= heap.used && BlockOk(n, heap) && OnlyFile(n)
      requires forall x {:trigger x in nodes} ::
          x in nodes ==> x.children == old(x.children) && x.childCap == old(x.childCap)
      ensures Inner()
      ensures Texts() == old(Texts())[n := TextOf(n)]
    {
      StoreAfterFile(n);
      assert Kids() == old(Kids());
    }

    /** vfs_write_file on a node: the contents become `data`. */
    method Write(n: Node, data: string) returns (ok: bool)
      requires Inner() && n in nodes && |data| < MAX_TEXT
      modifies heap`used, heap.mem, n`data, n`cap, n`size
      ensures Inner()
      ensures ok <==> n.kind == File && old(HasRoom(n, heap, |data| + 1))
      ensures Texts() == if ok then old(Texts())[n := data] else old(Texts())
      ensures old(heap.used) <= heap.used <= old(heap.used) + NewCap(old(n.cap), |data| + 1)
    {
      assert BlockOk(n, heap);
      ok := WriteFile(heap, n, data);
      if ok {
        assert OnlyFile(n);
        FileChanged(n);
      } else {
        FileUntouched(n);
      }
    }

    /** vfs_append_file on a node */
    method Append(n: Node, data: string) returns (ok: bool)
      requires Inner() && n in nodes && |data| < MAX_TEXT
      modifies heap`used, heap.mem, n`data, n`cap, n`size
      ensures Inner()
      ensures ok <==> n.kind == File && old(HasRoom(n, heap, n.size + |data| + 1))
      ensures Texts() == if ok then old(Texts())[n := old(Texts())[n] + data] else old(Texts())
    {
      assert BlockOk(n, heap);
      ok := AppendFile(heap, n, data);
      if ok {
        assert OnlyFile(n);
        FileChanged(n);
      } else {
        FileUntouched(n);
      }
    }

    /** A failed operation changes nothing. */
    twostate lemma FileUntouched(n: Node)
      requires old(Inner()) && heap.Valid() && nodes == old(nodes) && cwd == old(cwd) && n in nodes && BlockOk(n, heap)
      requires Unchanged(n, heap)
      requires forall x {:trigger x in nodes} ::
          x in nodes ==> x.children == old(x.children) && x.childCap == old(x.childCap)
      requires forall x {:trigger x in nodes} ::
          x in nodes && x != n ==> x.data == old(x.data) && x.size == old(x.size) && x.cap == old(x.cap)
      ensures Inner()
      ensures Texts() == old(Texts())
    {
      assert old(BlockOk(n, heap));
      FileChanged(n);
      SameText(n);
    }

    twostate lemma SameText(n: Node)
      requires old(BlockOk(n, heap)) && BlockOk(n, heap) && Unchanged(n, heap)
      ensures TextOf(n) == old(TextOf(n))
    {
      if n.data.At? {
        assert heap.mem[n.data.offset..n.data.offset + n.size] == old(heap.mem[n.data.offset..n.data.offset + n.size]);
      }
    }

    /** vfs_truncate on a node */
    method TruncateFile(n: Node)
      requires Inner() && n in nodes
      modifies heap.mem, n`size
      ensures Inner()
      ensures Texts() == if n.kind == File then old(Texts())[n := ""] else old(Texts())
    {
      assert BlockOk(n, heap);
      Truncate(heap, n);
      FileChanged(n);
    }

    // ----- the working directory

    /** vfs_update_pwd: at most 64 names; `fits` says whether the path stays inside the
        buffers of 1024 characters, and nothing is stored otherwise. */
    method UpdatePwd() returns (fits: bool)
      modifies this`pwd
      ensures fits <==> PathFits(cwd, root)
      ensures pwd == if fits then PwdOf(cwd, root) else old(pwd)
    {
      hide TreeOk, StoreOk, ListsFit, CwdOk;
      if cwd == root {
        pwd := "/";
        return true;
      }
      var names := CollectNames(cwd, root);
      var buf, whole := JoinNames(names);
      fits := whole;
      if fits {
        pwd := buf;
      }
    }

    /** cd (src/cmds.c:122-133), with its default already in place. Only a path that does
        not fit leaves vfs_pwd behind. */
    method Cd(path: string) returns (rc: int, fits: bool)
      requires Valid()
      modifies this`cwd, this`pwd
      ensures Inner() && (fits ==> Valid())
      ensures var n := Tree.Resolve(Kids(), root, old(cwd), path);
        if n == null || n.kind != Dir then rc == 1 && fits && cwd == old(cwd)
        else rc == 0 && cwd == n && (fits <==> PathFits(n, root))
    {
      hide TreeOk, StoreOk, ListsFit;
      var n := Resolve(path);
      if n == null || n.kind != Dir {
        return 1, true;
      }
      cwd := n;
      fits := UpdatePwd();
      rc := 0;
    }

    // ----- whole runs

    /** vfs_pwd leads back to the working directory exactly when that directory is still
        attached and at most 64 levels deep: that its path fits is part of the invariant. */
    lemma PwdResolves()
      requires Valid()
      ensures PathFits(cwd, root)
      ensures Tree.Resolve(Kids(), root, cwd, pwd) == cwd
        <==> Attached(Kids(), cwd, root) && Depth(cwd, root) <= MAX_DEPTH
    {
      PwdRoundTrip(Kids(), root, cwd, cwd);
    }

    /** The operation would write past the end of a buffer: a new name past 64 characters
        or the path of the working directory past 1024. */
    ghost predicate Overruns(op: Op)
      reads this`nodes, this`cwd, nodes`children
    {
      match op
      case MakeDir(path) => |LastName(path)| > 63
      case MakeFile(path) => |LastName(path)| > 63
      case ChangeDir(path) =>
        var n := Tree.Resolve(Kids(), root, cwd, path);
        n != null && n.kind == Dir && !PathFits(n, root)
      case _ => false
    }

    /** What the path of an operation leads to. */
    ghost function Target(op: Op): Node?
      reads this`nodes, this`cwd, nodes`children
    {
      Tree.Resolve(Kids(), root, cwd, op.path)
    }

    /** A new node as vfs_mkdir and vfs_mkfile make it. */
    twostate predicate Makes(path: string, kind: Kind, new n: Node?, ok: bool)
      reads this, nodes, heap, heap.mem
    {
      && cwd == old(cwd) && TextsKept() && PathsKept() && (n != null ==> n in nodes && TextOf(n) == "")
      && Created(Changes.ResolveParent(old(Kids()), root, old(cwd), path), LastName(path), kind, n, ok)
    }

    /** A node was taken out of its list, alone or with everything below it; `ok` says
        whether it was in a list. */
    twostate predicate Removes(op: Op, ok: bool)
      reads this, nodes, heap, heap.mem
    {
      var k, n := old(Kids()), old(Target(op));
      && cwd == old(cwd) && Texts() == old(Texts()) && TreeOk(k, root)
      && if n == null || n == root || (op.Remove? && n in k && k[n] != []) then !ok && Kids() == k
         else
           && n.parent in k && (ok <==> n in k[n.parent])
           && Kids() == if op.Remove? then Unlinked(k, n) else Pruned(k, root, n)
    }

    ghost predicate CanStore(op: Op)
      reads this, nodes, heap
    {
      var n := Target(op);
      && n != null && n.kind == File && n in nodes
      && match op
         case WriteTo(_, data) => HasRoom(n, heap, |data| + 1)
         case AppendTo(_, data) => HasRoom(n, heap, n.size + |data| + 1)
         case _ => true
    }

    /** One file has the new text, or nothing changed. */
    twostate predicate Stores(op: Op, ok: bool)
      reads this, nodes, heap, heap.mem
    {
      var texts, n := old(Texts()), old(Target(op));
      && cwd == old(cwd) && Kids() == old(Kids()) && (ok <==> old(CanStore(op)))
      && if ok then n in texts && Texts() == texts[n := op.NewText(texts[n])] else Texts() == texts
    }

    twostate predicate Moves(op: Op, ok: bool)
      reads this, nodes, heap, heap.mem
    {
      var n := old(Target(op));
      && Kids() == old(Kids()) && Texts() == old(Texts())
      && (ok <==> n != null && n.kind == Dir) && cwd == if ok then n else old(cwd)
    }

    /** What each operation does. */
    twostate predicate Effect(op: Op, new n: Node?, ok: bool)
      reads this, nodes, heap, heap.mem
    {
      match op
      case MakeDir(path) => Makes(path, Dir, n, ok)
      case MakeFile(path) => Makes(path, File, n, ok)
      case Remove(_) => Removes(op, ok)
      case RemoveAll(_) => Removes(op, ok)
      case ChangeDir(_) => Moves(op, ok)
      case _ => Stores(op, ok)
    }

    /** What a command does with the filesystem, unless it would overrun a buffer. */
    method Do(op: Op) returns (done: bool, ok: bool, ghost n: Node?)
      requires Valid() && op.Fits()
      modifies this`cwd, this`pwd, this`nodes, heap`used, heap.mem, nodes
      ensures Valid() && old(nodes) <= nodes && fresh(nodes - old(nodes))
      ensures done <==> !old(Overruns(op))
      ensures if done then Effect(op, n, ok) else Overruns(op)
    {
      hide TreeOk, StoreOk, ListsFit, CwdOk, Makes, Removes, Stores, Moves;
      done, n := true, null;
      match op {
        case MakeDir(path) => done, ok, n := DoMake(Dir, path);
        case MakeFile(path) => done, ok, n := DoMake(File, path);
        case Remove(_) => ok := DoRemove(op);
        case RemoveAll(_) => ok := DoRemove(op);
        case ChangeDir(_) => done, ok := DoChange(op);
        case _ => ok := DoFile(op);
      }
    }

    method DoMake(kind: Kind, path: string) returns (done: bool, ok: bool, ghost n: Node?)
      requires Valid()
      modifies this`nodes, heap`used, nodes`children, nodes`childCap
      ensures Valid() && old(nodes) <= nodes && fresh(nodes - old(nodes))
      ensures done <==> |LastName(path)| <= 63
      ensures done ==> Makes(path, kind, n, ok)
    {
      hide TreeOk, StoreOk, ListsFit, CwdOk, TextOf, PathsKept, TextsKept;
      if kind == Dir {
        ok, done, n := Mkdir(path);
      } else {
        ok, done, n := Mkfile(path);
      }
    }

    method DoRemove(op: Op) returns (ok: bool)
      requires Valid() && (op.Remove? || op.RemoveAll?)
      modifies nodes`children
      ensures Valid() && Removes(op, ok)
    {
      hide StoreOk, ListsFit, CwdOk, TextOf, Texts, Tree.Resolve, NodeOk, Pruned, Unlinked;
      if op.Remove? {
        ok := Rm(op.path);
      } else {
        ok := RmRecursive(op.path);
      }
    }

    method DoChange(op: Op) returns (done: bool, ok: bool)
      requires Valid() && op.ChangeDir?
      modifies this`cwd, this`pwd
      ensures Valid()
      ensures done <==> !old(Overruns(op))
      ensures if done then Moves(op, ok) else cwd == old(cwd)
    {
      hide TreeOk, StoreOk, ListsFit, CwdOk, Inner, Kids, Texts, Tree.Resolve, PwdOf;
      var n := Resolve(op.path);
      ok := n != null && n.kind == Dir;
      done := !ok || |PwdOf(n, root)| < 1024;
      if done {
        var rc, fits := Cd(op.path);
      }
    }

    method DoFile(op: Op) returns (ok: bool)
      requires Valid() && op.Fits() && (op.WriteTo? || op.AppendTo? || op.TruncateAt?)
      modifies heap`used, heap.mem, nodes`data, nodes`size, nodes`cap
      ensures Valid() && Stores(op, ok)
    {
      hide TreeOk, StoreOk, ListsFit, CwdOk, TextOf, HasRoom, CanStore;
      var n := Resolve(op.path);
      if n == null {
        ok := false;
        NoTarget(op);
      } else {
        ok := StoreAt(op, n);
      }
    }

    twostate lemma NoTarget(op: Op)
      requires Target(op) == null && old(Target(op)) == null && cwd == old(cwd) && Kids() == old(Kids())
      requires Texts() == old(Texts())
      ensures Stores(op, false)
    {
    }

    method StoreAt(op: Op, n: Node) returns (ok: bool)
      requires Valid() && op.Fits() && (op.WriteTo? || op.AppendTo? || op.TruncateAt?)
      requires n in nodes && Target(op) == n
      modifies heap`used, heap.mem, n`data, n`size, n`cap
      ensures Valid() && Stores(op, ok)
    {
      hide TreeOk, StoreOk, ListsFit, CwdOk, TextOf, HasRoom, Tree.Resolve, PwdOf;
      match op {
        case WriteTo(_, data) => ok := Write(n, data);
        case AppendTo(_, data) => ok := Append(n, data);
        case TruncateAt(_) =>
          TruncateFile(n);
          ok := n.kind == File;
      }
    }

    /** Any run of operations, up to the first that would overrun a buffer. */
    method Play(ops: seq<Op>) returns (done: nat)
      requires Valid() && forall op :: op in ops ==> op.Fits()
      modifies this`cwd, this`pwd, this`nodes, heap`used, heap.mem, nodes
      ensures Valid() && done <= |ops| && (done < |ops| ==> Overruns(ops[done]))
      ensures Tree.Resolve(Kids(), root, cwd, pwd) == cwd
        <==> Attached(Kids(), cwd, root) && Depth(cwd, root) <= MAX_DEPTH
    {
      hide TreeOk, StoreOk, ListsFit, CwdOk;
      done := 0;
      var safe := true;
      while done < |ops| && safe
        invariant done <= |ops| && Valid() && fresh(nodes - old(nodes))
        invariant safe || (done < |ops| && Overruns(ops[done]))
        decreases |ops| - done, if safe then 1 else 0
      {
        var ok;
        ghost var n;
        safe, ok, n := Do(ops[done]);
        if safe {
          done := done + 1;
        }
      }
      PwdResolves();
    }
  }

  datatype Op =
    | MakeDir(path: string)
    | MakeFile(path: string)
    | Remove(path: string)
    | RemoveAll(path: string)
    | WriteTo(path: string, data: string)
    | AppendTo(path: string, data: string)
    | TruncateAt(path: string)
    | ChangeDir(path: string)
  {
    /** No text is longer than 4 GiB. */
    predicate Fits() {
      WriteTo? || AppendTo? ==> |data| < MAX_TEXT
    }

    /** What it leaves in a file with this text. */
    function NewText(before: string): string {
      match this
      case WriteTo(_, data) => data
      case AppendTo(_, data) => before + data
      case _ => ""
    }
  }

  /** Names collected bottom up, the last n of them printed top down. */
  function Joined(names: seq<string>, n: nat): string
    requires n <= |names|
  {
    if n == 0 then "" else "/" + names[n - 1] + Joined(names, n - 1)
  }

  lemma {:induction false} JoinedPrefix(names: seq<string>, name: string, n: nat)
    requires n <= |names|
    ensures Joined(names + [name], n) == Joined(names, n)
  {
    if n > 0 {
      JoinedPrefix(names, name, n - 1);
    }
  }

  /** One step up in src/vfs.c:221-224. */
  lemma ClimbOne(n: Node, root: Node, names: seq<string>)
    requires n != root && |names| < 64
    ensures PathTo(n, root, 64 - |names|) + Joined(names, |names|)
      == PathTo(n.parent, root, 63 - |names|) + Joined(names + [n.name], |names| + 1)
  {
    JoinedPrefix(names, n.name, |names|);
    var up, text, rest := PathTo(n.parent, root, 63 - |names|), "/" + n.name, Joined(names, |names|);
    assert PathTo(n, root, 64 - |names|) == up + "/" + n.name == up + text;
    assert (up + text) + rest == up + (text + rest);
  }

  lemma PrintOne(buf: string, names: seq<string>, i: nat)
    requires i < |names|
    ensures (buf + "/" + names[i]) + Joined(names, i) == buf + Joined(names, i + 1)
  {
    var text, rest := "/" + names[i], Joined(names, i);
    assert Joined(names, i + 1) == text + rest;
    assert buf + "/" + names[i] == buf + text;
  }

  /** src/vfs.c:225-230, as far as the buffer of 1024 characters goes. */
  method JoinNames(names: seq<string>) returns (buf: string, fits: bool)
    ensures fits <==> |Joined(names, |names|)| < 1024
    ensures fits ==> buf == Joined(names, |names|)
  {
    buf := "";
    for i := |names| downto 0
      invariant |buf| < 1024 && buf + Joined(names, i) == Joined(names, |names|)
    {
      PrintOne(buf, names, i);
      if |buf| + 1 + |names[i]| >= 1024 {
        return buf, false;
      }
      buf := buf + "/" + names[i];
    }
    fits := true;
  }

  /** src/vfs.c:218-224 */
  method CollectNames(cwd: Node, root: Node) returns (names: seq<string>)
    ensures |names| <= 64 && Joined(names, |names|) == PathTo(cwd, root, 64)
  {
    names := [];
    var n := cwd;
    assert PathTo(cwd, root, 64) + "" == PathTo(cwd, root, 64);
    while n != root && |names| < 64
      invariant |names| <= 64
      invariant PathTo(cwd, root, 64) == PathTo(n, root, 64 - |names|) + Joined(names, |names|)
    {
      ClimbOne(n, root, names);
      names := names + [n.name];
      n := n.parent;
    }
  }

  /** src/vfs.c:176-178: the later entries move down by one. */
  method ShiftDown(p: Node, i: nat)
    requires i < |p.children|
    modifies p`children
    ensures p.children == old(p.children[..i]) + old(p.children[i + 1..])
  {
    ghost var cs := p.children;
    for j := i to |p.children| - 1
      invariant |p.children| == |cs|
      invariant forall k {:trigger p.children[k]} ::
          0 <= k < |cs| ==> p.children[k] == if i <= k < j then cs[k + 1] else cs[k]
    {
      p.children := p.children[j := p.children[j + 1]];
    }
    p.children := p.children[..|p.children| - 1];
    assert p.children == cs[..i] + cs[i + 1..];
  }
}
