/** Runs after which vfs_pwd does not lead back to the working directory: one that
    removes the directory, one that makes its path too long for the buffer, and one that
    makes it too deep. */
module Limits {
  import opened KHeap
  import opened Paths
  import opened Tree
  import opened Pwd
  import opened Changes
  import opened Vfs

  /** "rm -r ." : the working directory is no longer attached, and vfs_pwd, which has not
      changed, leads nowhere or somewhere else. */
  method RemoveWorkingDirectory(fs: Fs)
    requires fs.Valid() && fs.cwd != fs.root
    modifies fs.nodes`children
    ensures fs.Valid() && fs.cwd == old(fs.cwd) && fs.pwd == old(fs.pwd)
    ensures !Attached(fs.Kids(), fs.cwd, fs.root)
    ensures Tree.Resolve(fs.Kids(), fs.root, fs.cwd, fs.pwd) != fs.cwd
  {
    ghost var k := fs.Kids();
    ResolveStays(k, fs.root, fs.cwd);
    var ok := fs.RmRecursive(".");
    PrunedAttached(k, fs.root, fs.cwd, fs.cwd);
    fs.PwdResolves();
  }

  /** A name of 63 characters, the longest there is. */
  function LongName(): (name: string)
    ensures |name| == 63 && Ordinary(name)
  {
    var name := seq(63, _ => 'a');
    assert name[0] == 'a' && name[1] == 'a';
    name
  }

  lemma OwnLastName(name: string)
    requires Ordinary(name)
    ensures LastName(name) == name && Buffered(name) == name && LastSlash(name) == -1
  {
  }

  /** An attached directory this deep, with names and slashes of this size above it. */
  ghost predicate Deep(k: Kids, root: Node, n: Node, depth: nat, size: nat) {
    && n.kind == Dir && n in k && Chain(n, root) && Attached(k, n, root)
    && Depth(n, root) == depth <= 65 && PathSize(n, root, 65) == size
  }

  /** In the working directory there is no child of this name, and room for one. */
  ghost predicate Ready(fs: Fs, name: string, depth: nat, size: nat)
    reads fs, fs.nodes
  {
    && Deep(fs.Kids(), fs.root, fs.cwd, depth, size)
    && FindFrom(fs.cwd.children, name, 0) == null && Fs.ListCost(fs.cwd) <= 192
  }

  lemma DeeperByOne(k: Kids, root: Node, n: Node, depth: nat, size: nat)
    requires TreeOk(k, root) && CanAdd(k, root, n) && Deep(k, root, n.parent, depth, size) && depth < 65
    requires n.kind == Dir
    ensures Deep(Added(k, n), root, n, depth + 1, size + 1 + |n.name|)
  {
    AddedIsAttached(k, root, n);
    PathOfChild(n, root, 65);
  }

  /** `mkdir name` */
  method MakeChild(fs: Fs, name: string, ghost depth: nat, ghost size: nat) returns (ghost n: Node)
    requires fs.Valid() && Ordinary(name) && depth < 65 && Ready(fs, name, depth, size)
    requires fs.heap.used + 320 <= fs.heap.total
    modifies fs`nodes, fs.heap`used, fs.nodes`children, fs.nodes`childCap
    ensures fs.Valid() && fs.heap.used <= old(fs.heap.used) + 320 && fresh(fs.nodes - old(fs.nodes))
    ensures Deep(fs.Kids(), fs.root, n, depth + 1, size + 1 + |name|)
    ensures n in fs.nodes && n != fs.root && n.children == [] && n.childCap == 0
    ensures Tree.Resolve(fs.Kids(), fs.root, fs.cwd, name) == n
  {
    ghost var k := fs.Kids();
    OwnLastName(name);
    assert TreeOk(k, fs.root);
    var ok, fits;
    ghost var made;
    ok, fits, made := fs.Mkdir(name);
    n := made;
    DeeperByOne(k, fs.root, n, depth, size);
    assert fs.Kids()[n] == n.children;
  }

  /** The printed path has the names of 64 levels at most. */
  lemma PathLength(k: Kids, root: Node, n: Node, depth: nat, size: nat)
    requires Deep(k, root, n, depth, size) && n != root
    ensures |PwdOf(n, root)| <= size && (depth <= 64 ==> |PwdOf(n, root)| == size)
  {
    PathSizeIsLength(n, root, 64);
    FewerLevels(n, root, 64);
    if depth <= 64 {
      MoreLevels(n, root, 64);
    }
  }

  /** `cd name`: it fits as long as the path is shorter than 1024 characters. */
  method EnterChild(fs: Fs, name: string, ghost n: Node, ghost depth: nat, ghost size: nat) returns (fits: bool)
    requires fs.Valid() && n in fs.nodes && n != fs.root && Deep(fs.Kids(), fs.root, n, depth, size)
    requires n.children == [] && n.childCap == 0
    requires Tree.Resolve(fs.Kids(), fs.root, fs.cwd, name) == n
    modifies fs`cwd, fs`pwd
    ensures fits <==> PathFits(n, fs.root)
    ensures fs.Inner() && fs.cwd == n && (fits ==> fs.Valid() && Ready(fs, name, depth, size))
  {
    var rc;
    rc, fits := fs.Cd(name);
  }

  method Deepen(fs: Fs, name: string, ghost depth: nat, ghost size: nat) returns (fits: bool)
    requires fs.Valid() && Ordinary(name) && depth < 65 && Ready(fs, name, depth, size)
    requires fs.heap.used + 320 <= fs.heap.total
    modifies fs`cwd, fs`pwd, fs`nodes, fs.heap`used, fs.nodes`children, fs.nodes`childCap
    ensures fits <==> PathFits(fs.cwd, fs.root)
    ensures fs.Inner() && Deep(fs.Kids(), fs.root, fs.cwd, depth + 1, size + 1 + |name|)
    ensures |PwdOf(fs.cwd, fs.root)| <= size + 1 + |name|
    ensures depth < 64 ==> |PwdOf(fs.cwd, fs.root)| == size + 1 + |name|
    ensures fits ==> fs.Valid() && Ready(fs, name, depth + 1, size + 1 + |name|)
    ensures fs.heap.used <= old(fs.heap.used) + 320 && fresh(fs.nodes - old(fs.nodes))
  {
    hide Fs.Valid, Fs.Inner, Ready, Deep, PwdOf, Ordinary, Tree.Resolve;
    ghost var n := MakeChild(fs, name, depth, size);
    PathLength(fs.Kids(), fs.root, n, depth + 1, size + 1 + |name|);
    fits := EnterChild(fs, name, n, depth + 1, size + 1 + |name|);
  }

  lemma TopLacks(fs: Fs, name: string)
    requires fs.Lists(fs.root, TOP) && name !in TOP.names
    ensures FindFrom(fs.root.children, name, 0) == null
  {
    FoundIffNamed(fs.root.children, name, 0);
  }

  method EnterRoot(fs: Fs, name: string)
    requires fs.Valid() && fs.FirstTree() && name !in TOP.names
    modifies fs`cwd, fs`pwd
    ensures fs.Valid() && Ready(fs, name, 0, 0)
  {
    RootPath();
    TopLacks(fs, name);
    var rc, fits := fs.Cd("/");
  }

  /** Sixteen levels of the longest names below the root: the directory is attached, at
      depth 16 only, and its path takes 1024 characters without the NUL. */
  method LongestPath(fs: Fs) returns (fits: bool)
    requires fs.Valid() && fs.FirstTree() && fs.heap.used + 16 * 320 <= fs.heap.total
    modifies fs`cwd, fs`pwd, fs`nodes, fs.heap`used, fs.nodes`children, fs.nodes`childCap
    ensures fs.Inner() && Deep(fs.Kids(), fs.root, fs.cwd, 16, 1024)
    ensures !fits && |PwdOf(fs.cwd, fs.root)| == 1024
    ensures !LeadsBack(fs.Kids(), fs.root, fs.cwd, fs.cwd)
  {
    var name := LongName();
    hide Fs.Valid, Fs.Inner, Fs.FirstTree, Ready, Deep;
    EnterRoot(fs, name);
    for i := 0 to 15
      invariant fs.Valid() && Ready(fs, name, i, 64 * i) && fs.heap.used <= old(fs.heap.used) + 320 * i
      invariant fresh(fs.nodes - old(fs.nodes))
    {
      fits := Deepen(fs, name, i, 64 * i);
    }
    fits := Deepen(fs, name, 15, 960);
  }

  /** 65 levels of short names below the root: the directory is attached and its path fits,
      but vfs_pwd lacks a level and leads elsewhere. */
  method DeepestPath(fs: Fs)
    requires fs.Valid() && fs.FirstTree() && fs.heap.used + 65 * 320 <= fs.heap.total
    modifies fs`cwd, fs`pwd, fs`nodes, fs.heap`used, fs.nodes`children, fs.nodes`childCap
    ensures fs.Valid() && Deep(fs.Kids(), fs.root, fs.cwd, 65, 130)
    ensures Tree.Resolve(fs.Kids(), fs.root, fs.cwd, fs.pwd) != fs.cwd
  {
    hide Fs.Valid, Fs.Inner, Fs.FirstTree, Ready, Deep, PwdOf, Tree.Resolve;
    EnterRoot(fs, "a");
    for i := 0 to 65
      invariant fs.Valid() && Ready(fs, "a", i, 2 * i) && fs.heap.used <= old(fs.heap.used) + 320 * i
      invariant fresh(fs.nodes - old(fs.nodes))
    {
      var fits := Deepen(fs, "a", i, 2 * i);
    }
    DeepFails(fs);
  }

  lemma DeepFails(fs: Fs)
    requires fs.Valid() && Ready(fs, "a", 65, 130)
    ensures Deep(fs.Kids(), fs.root, fs.cwd, 65, 130)
    ensures Tree.Resolve(fs.Kids(), fs.root, fs.cwd, fs.pwd) != fs.cwd
  {
    fs.PwdResolves();
  }
}
