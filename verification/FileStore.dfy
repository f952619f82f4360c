/** The filesystem of src/vfs.c as redirections use it (src/shell.c:46-48, 291-322): its
    operations obey the laws that `Redirection` needs. */
module FileStore {
  import opened KHeap
  import opened Files
  import opened Paths
  import opened Tree
  import opened Changes
  import opened Vfs
  import opened Pipeline
  import opened Redirection

  ghost function EntryOf(n: Node?): Entry<Node> {
    if n == null then Missing else if n.kind == Dir then Directory else Pipeline.File(n)
  }

  ghost function ViewFrom(k: Kids, root: Node, cwd: Node, texts: map<Node, string>): View<Node> {
    View(name => EntryOf(Tree.Resolve(k, root, cwd, name)), g => if g in texts then texts[g] else "")
  }

  ghost function Seen(fs: Fs): View<Node>
    reads fs, fs.nodes, fs.heap, fs.heap.mem
  {
    ViewFrom(fs.Kids(), fs.root, fs.cwd, fs.Texts())
  }

  /** out_raw with an output file */
  method AppendChar(fs: Fs, n: Node, c: char)
    requires fs.Valid() && n in fs.nodes
    modifies fs.heap`used, fs.heap.mem, n`data, n`cap, n`size
    ensures fs.Valid()
    ensures forall name, g :: Appends(old(Seen(fs)), n, c, Seen(fs), name, g)
  {
    var ok := fs.Append(n, [c]);
    assert fs.Kids() == old(fs.Kids());
  }

  /** vfs_truncate on what a name leads to */
  method Empty(fs: Fs, n: Node)
    requires fs.Valid() && n in fs.nodes && n.kind == Tree.File
    modifies fs.heap.mem, n`size
    ensures fs.Valid()
    ensures forall name, g :: Truncates(old(Seen(fs)), n, Seen(fs), name, g)
  {
    fs.TruncateFile(n);
    assert fs.Kids() == old(fs.Kids());
  }

  ghost predicate PathsStay(k: Kids, m: Kids, root: Node, cwd: Node) {
    forall p: string {:trigger Tree.Resolve(m, root, cwd, p)} ::
      Tree.Resolve(k, root, cwd, p) != null ==> Tree.Resolve(m, root, cwd, p) == Tree.Resolve(k, root, cwd, p)
  }

  /** At most one node more, an empty one, which is all that the path can lead to. */
  lemma OneMore(k: Kids, m: Kids, root: Node, cwd: Node, texts: map<Node, string>, after: map<Node, string>,
      path: string, n: Node?, ok: bool)
    requires texts.Keys <= after.Keys && forall g :: g in after ==> after[g] == if g in texts then texts[g] else ""
    requires PathsStay(k, m, root, cwd)
    requires ok ==> n !in texts && Tree.Resolve(m, root, cwd, path) in {null, n}
    ensures forall name, g ::
        Creates(ViewFrom(k, root, cwd, texts), path, ViewFrom(m, root, cwd, after), ok, name, g)
  {
  }

  /** vfs_mkfile with a missing name */
  method Create(fs: Fs, path: string) returns (ok: bool, fits: bool)
    requires fs.Valid() && Tree.Resolve(fs.Kids(), fs.root, fs.cwd, path) == null && |path| <= 1023
    modifies fs`nodes, fs.heap`used, fs.nodes`children, fs.nodes`childCap
    ensures fs.Valid() && (fits <==> |LastName(path)| <= 63)
    ensures forall name, g :: Creates(old(Seen(fs)), path, Seen(fs), ok, name, g)
  {
    hide Fs.Valid, Fs.TextOf, LastName, Creates;
    ghost var k, texts, cwd := fs.Kids(), fs.Texts(), fs.cwd;
    ghost var n;
    ok, fits, n := MakeFile(fs, path);
    OneMore(k, fs.Kids(), fs.root, cwd, texts, fs.Texts(), path, n, ok);
  }

  method MakeFile(fs: Fs, path: string) returns (ok: bool, fits: bool, ghost n: Node?)
    requires fs.Valid() && Tree.Resolve(fs.Kids(), fs.root, fs.cwd, path) == null && |path| <= 1023
    modifies fs`nodes, fs.heap`used, fs.nodes`children, fs.nodes`childCap
    ensures fs.Valid() && PathsStay(old(fs.Kids()), fs.Kids(), fs.root, fs.cwd) && (fits <==> |LastName(path)| <= 63)
    ensures old(fs.Texts()).Keys <= fs.Texts().Keys
    ensures forall g :: g in fs.Texts() ==> fs.Texts()[g] == if g in old(fs.Texts()) then old(fs.Texts())[g] else ""
    ensures ok ==> n !in old(fs.nodes) && Tree.Resolve(fs.Kids(), fs.root, fs.cwd, path) in {null, n}
  {
    hide Fs.TextOf, Tree.Resolve, LastName, Ordinary;
    ghost var k := fs.Kids();
    ok, fits, n := fs.Mkfile(path);
    if ok {
      AddedLeads(k, fs.root, fs.cwd, path, n);
    }
  }

  /** kmalloc for something that is no file, as buf_putc does; the sum does not wrap around. */
  method Allocate(fs: Fs, size: nat) returns (p: Ptr)
    requires fs.Valid() && size < 0x1_0000_0000
    modifies fs.heap`used
    ensures fs.Valid() && Seen(fs) == old(Seen(fs))
  {
    p := fs.heap.Kmalloc(size);
    fs.StoreKept();
    assert fs.Kids() == old(fs.Kids());
    forall n | n in fs.nodes
      ensures fs.TextOf(n) == old(fs.TextOf(n))
    {
      assert BlockOk(n, fs.heap) && old(BlockOk(n, fs.heap));
    }
    assert fs.Texts() == old(fs.Texts());
  }
}
