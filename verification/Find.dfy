/** `find` (src/cmds.c:529-563): the walk over a directory and everything below it. */
module Find {
  import opened Arithmetic
  import opened Strings
  import opened Paths
  import opened Tree
  import opened Pwd
  import opened Changes
  import opened Glob
  import opened Vfs

  /** The argument of -name, if there is one. */
  datatype Filter = Any | Named(pat: string)
  {
    predicate Accepts(name: string) {
      Any? || GlobMatch(pat, name)
    }
  }

  /** A printed line and the node it is about. */
  datatype Entry = Entry(node: Node, text: string)

  function Suffix(n: Node): string {
    if n.kind == Dir then "/" else ""
  }

  function Own(c: Node, prefix: string, filter: Filter): seq<Entry> {
    if filter.Accepts(c.name) then [Entry(c, prefix + c.name + Suffix(c))] else []
  }

  ghost predicate Searchable(k: Kids, root: Node, dir: Node, limit: nat) {
    TreeOk(k, root) && dir in k && dir.addr < limit && forall n {:trigger n in k} :: n in k ==> n.addr < limit
  }

  lemma ChildSearchable(k: Kids, root: Node, dir: Node, i: nat, limit: nat)
    requires Searchable(k, root, dir, limit) && i < |k[dir]|
    ensures var c := k[dir][i];
      c in k && c.parent == dir && c != root && dir.addr < c.addr && Chain(c, root) && Searchable(k, root, c, limit)
  {
    assert NodeOk(k, root, dir) && k[dir][i] in k[dir];
    assert NodeOk(k, root, k[dir][i]);
  }

  /** What find_rec prints for the children from i on. */
  ghost function Entries(k: Kids, root: Node, dir: Node, i: nat, prefix: string, filter: Filter, limit: nat): seq<Entry>
    requires Searchable(k, root, dir, limit) && i <= |k[dir]|
    decreases limit - dir.addr, |k[dir]| - i
  {
    if i == |k[dir]| then []
    else
      var c := k[dir][i];
      ChildSearchable(k, root, dir, i, limit);
      Own(c, prefix, filter)
      + (if c.kind == Dir then Entries(k, root, c, 0, prefix + c.name + "/", filter, limit) else [])
      + Entries(k, root, dir, i + 1, prefix, filter, limit)
  }

  ghost predicate Lists(es: seq<Entry>, x: Node) {
    exists j :: 0 <= j < |es| && es[j].node == x
  }

  lemma ListsParts(xs: seq<Entry>, ys: seq<Entry>, zs: seq<Entry>, x: Node)
    ensures Lists(xs + ys + zs, x) <==> Lists(xs, x) || Lists(ys, x) || Lists(zs, x)
  {
    var all := xs + ys + zs;
    if j :| 0 <= j < |xs| && xs[j].node == x {
      assert all[j] == xs[j];
    }
    if j :| 0 <= j < |ys| && ys[j].node == x {
      assert all[|xs| + j] == ys[j];
    }
    if j :| 0 <= j < |zs| && zs[j].node == x {
      assert all[|xs| + |ys| + j] == zs[j];
    }
  }

  /** x is below one of the children from i on. */
  ghost predicate BelowFrom(k: Kids, root: Node, dir: Node, i: nat, x: Node)
    requires dir in k && Chain(x, root)
  {
    exists j :: i <= j < |k[dir]| && Below(k, root, x, k[dir][j])
  }

  /** Everything below is printed if its name is accepted, and nothing else. */
  lemma {:induction false} ListsBelow(k: Kids, root: Node, dir: Node, i: nat, prefix: string, filter: Filter,
      limit: nat, x: Node)
    requires Searchable(k, root, dir, limit) && i <= |k[dir]| && x in k && Chain(x, root)
    ensures Lists(Entries(k, root, dir, i, prefix, filter, limit), x)
      <==> filter.Accepts(x.name) && BelowFrom(k, root, dir, i, x)
    decreases limit - dir.addr, |k[dir]| - i
  {
    if i < |k[dir]| {
      var c := k[dir][i];
      ChildSearchable(k, root, dir, i, limit);
      var deeper := if c.kind == Dir then Entries(k, root, c, 0, prefix + c.name + "/", filter, limit) else [];
      if c.kind == Dir {
        ListsBelow(k, root, c, 0, prefix + c.name + "/", filter, limit, x);
      } else {
        assert NodeOk(k, root, c);
      }
      ListsBelow(k, root, dir, i + 1, prefix, filter, limit, x);
      ListsParts(Own(c, prefix, filter), deeper, Entries(k, root, dir, i + 1, prefix, filter, limit), x);
      ListsOwn(c, prefix, filter, x);
      BelowOne(k, root, c, x);
      BelowSplit(k, root, dir, i, x);
    }
  }

  lemma ListsOwn(c: Node, prefix: string, filter: Filter, x: Node)
    ensures Lists(Own(c, prefix, filter), x) <==> x == c && filter.Accepts(c.name)
  {
    if filter.Accepts(c.name) {
      assert Own(c, prefix, filter)[0].node == c;
    }
  }

  lemma BelowOne(k: Kids, root: Node, c: Node, x: Node)
    requires TreeOk(k, root) && x in k && c in k && Chain(x, root)
    ensures Below(k, root, x, c) <==> x == c || BelowFrom(k, root, c, 0, x)
  {
    BelowChild(k, root, x, c);
    if d :| d in k[c] && Below(k, root, x, d) {
      var j :| 0 <= j < |k[c]| && k[c][j] == d;
    }
  }

  lemma BelowSplit(k: Kids, root: Node, dir: Node, i: nat, x: Node)
    requires dir in k && Chain(x, root) && i < |k[dir]|
    ensures BelowFrom(k, root, dir, i, x) <==> Below(k, root, x, k[dir][i]) || BelowFrom(k, root, dir, i + 1, x)
  {
  }

  ghost predicate Once(es: seq<Entry>) {
    forall a, b :: 0 <= a < b < |es| ==> es[a].node != es[b].node
  }

  lemma OnceParts(xs: seq<Entry>, ys: seq<Entry>, zs: seq<Entry>)
    requires Once(xs) && Once(ys) && Once(zs)
    requires forall x ::
        !(Lists(xs, x) && Lists(ys, x)) && !(Lists(xs, x) && Lists(zs, x)) && !(Lists(ys, x) && Lists(zs, x))
    ensures Once(xs + ys + zs)
  {
    var all := xs + ys + zs;
    forall a, b | 0 <= a < b < |all|
      ensures all[a].node != all[b].node
    {
      var n, m := |xs|, |xs| + |ys|;
      assert all[a] == if a < n then xs[a] else if a < m then ys[a - n] else zs[a - m];
      assert all[b] == if b < n then xs[b] else if b < m then ys[b - n] else zs[b - m];
      assert if a < n then Lists(xs, all[a].node) else if a < m then Lists(ys, all[a].node) else Lists(zs, all[a].node);
      assert if b < n then Lists(xs, all[b].node) else if b < m then Lists(ys, all[b].node) else Lists(zs, all[b].node);
    }
  }

  lemma {:induction false} EntriesInTree(k: Kids, root: Node, dir: Node, i: nat, prefix: string, filter: Filter,
      limit: nat, x: Node)
    requires Searchable(k, root, dir, limit) && i <= |k[dir]|
    requires Lists(Entries(k, root, dir, i, prefix, filter, limit), x)
    ensures x in k && Chain(x, root)
    decreases limit - dir.addr, |k[dir]| - i
  {
    hide TreeOk, Chain, Own, Suffix;
    if i < |k[dir]| {
      var c := k[dir][i];
      ChildSearchable(k, root, dir, i, limit);
      var deeper := if c.kind == Dir then Entries(k, root, c, 0, prefix + c.name + "/", filter, limit) else [];
      var rest := Entries(k, root, dir, i + 1, prefix, filter, limit);
      ListsParts(Own(c, prefix, filter), deeper, rest, x);
      ListsOwn(c, prefix, filter, x);
      if Lists(rest, x) {
        EntriesInTree(k, root, dir, i + 1, prefix, filter, limit, x);
      } else if c.kind == Dir && Lists(deeper, x) {
        EntriesInTree(k, root, c, 0, prefix + c.name + "/", filter, limit, x);
      }
    }
  }

  /** No node is printed twice. */
  lemma {:induction false} EntriesOnce(k: Kids, root: Node, dir: Node, i: nat, prefix: string, filter: Filter,
      limit: nat)
    requires Searchable(k, root, dir, limit) && i <= |k[dir]|
    ensures Once(Entries(k, root, dir, i, prefix, filter, limit))
    decreases limit - dir.addr, |k[dir]| - i
  {
    if i < |k[dir]| {
      var c := k[dir][i];
      ChildSearchable(k, root, dir, i, limit);
      var own, rest := Own(c, prefix, filter), Entries(k, root, dir, i + 1, prefix, filter, limit);
      var deeper := if c.kind == Dir then Entries(k, root, c, 0, prefix + c.name + "/", filter, limit) else [];
      if c.kind == Dir {
        EntriesOnce(k, root, c, 0, prefix + c.name + "/", filter, limit);
      }
      EntriesOnce(k, root, dir, i + 1, prefix, filter, limit);
      forall x
        ensures !(Lists(own, x) && Lists(deeper, x)) && !(Lists(own, x) && Lists(rest, x))
        ensures !(Lists(deeper, x) && Lists(rest, x))
      {
        PartsApart(k, root, dir, i, prefix, filter, limit, x);
      }
      OnceParts(own, deeper, rest);
    }
  }

  lemma PartsApart(k: Kids, root: Node, dir: Node, i: nat, prefix: string, filter: Filter, limit: nat, x: Node)
    requires Searchable(k, root, dir, limit) && i < |k[dir]|
    requires Searchable(k, root, k[dir][i], limit)
    ensures
      var c := k[dir][i];
      var own, rest := Own(c, prefix, filter), Entries(k, root, dir, i + 1, prefix, filter, limit);
      var deeper := if c.kind == Dir then Entries(k, root, c, 0, prefix + c.name + "/", filter, limit) else [];
      && !(Lists(own, x) && Lists(deeper, x)) && !(Lists(own, x) && Lists(rest, x))
      && !(Lists(deeper, x) && Lists(rest, x))
  {
    var c := k[dir][i];
    ChildSearchable(k, root, dir, i, limit);
    var rest := Entries(k, root, dir, i + 1, prefix, filter, limit);
    ListsOwn(c, prefix, filter, x);
    if c.kind == Dir && Lists(Entries(k, root, c, 0, prefix + c.name + "/", filter, limit), x) {
      EntriesInTree(k, root, c, 0, prefix + c.name + "/", filter, limit, x);
      ListsBelow(k, root, c, 0, prefix + c.name + "/", filter, limit, x);
      BelowOne(k, root, c, x);
      NotBelowOwnChild(k, root, c, x);
    }
    if Lists(rest, x) {
      EntriesInTree(k, root, dir, i + 1, prefix, filter, limit, x);
      ListsBelow(k, root, dir, i + 1, prefix, filter, limit, x);
      NotBelowLaterSibling(k, root, dir, i, x);
    }
  }

  lemma NotBelowOwnChild(k: Kids, root: Node, c: Node, x: Node)
    requires TreeOk(k, root) && c in k && Chain(x, root) && BelowFrom(k, root, c, 0, x)
    ensures x != c
  {
    var j :| 0 <= j < |k[c]| && Below(k, root, x, k[c][j]);
    assert NodeOk(k, root, c) && k[c][j] in k[c] && NodeOk(k, root, k[c][j]);
    BelowIsLater(k, root, x, k[c][j]);
  }

  lemma NotBelowLaterSibling(k: Kids, root: Node, dir: Node, i: nat, x: Node)
    requires TreeOk(k, root) && dir in k && i < |k[dir]| && Chain(x, root) && BelowFrom(k, root, dir, i + 1, x)
    ensures !Below(k, root, x, k[dir][i])
  {
    var j :| i + 1 <= j < |k[dir]| && Below(k, root, x, k[dir][j]);
    var c, d := k[dir][i], k[dir][j];
    assert NodeOk(k, root, dir) && c in k[dir] && d in k[dir];
    assert NodeOk(k, root, c) && NodeOk(k, root, d);
    assert c.name != d.name;
    if Below(k, root, x, c) {
      SiblingsApart(k, root, x, c, d);
    }
  }

  /** `find` prints every node below the directory whose name is accepted, and only
      those, each exactly once. */
  lemma FindsEachOnce(k: Kids, root: Node, dir: Node, filter: Filter, limit: nat, x: Node)
    requires Searchable(k, root, dir, limit) && x in k && Chain(x, root)
    ensures var es := Entries(k, root, dir, 0, "./", filter, limit);
      && (Lists(es, x) <==> x != dir && Below(k, root, x, dir) && filter.Accepts(x.name))
      && Once(es)
  {
    ListsBelow(k, root, dir, 0, "./", filter, limit, x);
    EntriesOnce(k, root, dir, 0, "./", filter, limit);
    BelowOne(k, root, dir, x);
    if BelowFrom(k, root, dir, 0, x) {
      NotBelowOwnChild(k, root, dir, x);
    }
  }

  // ----- the order of the lines

  lemma {:induction false} BelowTrans(k: Kids, root: Node, x: Node, c: Node, dir: Node)
    requires Chain(x, root) && Chain(c, root) && Below(k, root, x, c) && Below(k, root, c, dir)
    ensures Below(k, root, x, dir)
    decreases x.addr
  {
    if x != c && x != dir {
      BelowTrans(k, root, x.parent, c, dir);
    }
  }

  /** y and x are in one list, y in front of x. */
  ghost predicate SiblingBefore(k: Kids, y: Node, x: Node) {
    y.parent in k && exists i, j :: 0 <= i < j < |k[y.parent]| && k[y.parent][i] == y && k[y.parent][j] == x
  }

  /** A directory comes before everything below it, children in the order of their list. */
  ghost predicate ComesFirst(k: Kids, root: Node, y: Node, x: Node) {
    Chain(x, root) && ((x != y && Below(k, root, x, y)) || SiblingBefore(k, y, x))
  }

  ghost predicate TopDown(k: Kids, root: Node, es: seq<Entry>) {
    forall a, b :: 0 <= a < b < |es| ==> !ComesFirst(k, root, es[b].node, es[a].node)
  }

  /** Nothing in ys comes before something in xs. */
  ghost predicate After(k: Kids, root: Node, xs: seq<Entry>, ys: seq<Entry>) {
    forall a, b :: 0 <= a < |xs| && 0 <= b < |ys| ==> !ComesFirst(k, root, ys[b].node, xs[a].node)
  }

  lemma TopDownParts(k: Kids, root: Node, xs: seq<Entry>, ys: seq<Entry>)
    requires TopDown(k, root, xs) && TopDown(k, root, ys) && After(k, root, xs, ys)
    ensures TopDown(k, root, xs + ys)
  {
    hide ComesFirst;
    var all, n := xs + ys, |xs|;
    forall a, b | 0 <= a < b < |all|
      ensures !ComesFirst(k, root, all[b].node, all[a].node)
    {
      if b < n {
        assert all[a] == xs[a] && all[b] == xs[b];
      } else if a < n {
        assert all[a] == xs[a] && all[b] == ys[b - n];
      } else {
        assert all[a] == ys[a - n] && all[b] == ys[b - n];
      }
    }
  }

  /** What is below c does not come before c. */
  lemma ChildFirst(k: Kids, root: Node, c: Node, y: Node)
    requires TreeOk(k, root) && c in k && c != root && y in k && Chain(y, root) && Chain(c, root)
    requires BelowFrom(k, root, c, 0, y)
    ensures !ComesFirst(k, root, y, c)
  {
    NotBelowOwnChild(k, root, c, y);
    BelowOne(k, root, c, y);
    BelowIsLater(k, root, y, c);
    if c != y && Below(k, root, c, y) {
      BelowIsLater(k, root, c, y);
    }
    if SiblingBefore(k, y, c) {
      SameParent(k, root, y, c);
      BelowIsLater(k, root, y.parent, c);
    }
  }

  lemma SameParent(k: Kids, root: Node, y: Node, x: Node)
    requires TreeOk(k, root) && SiblingBefore(k, y, x)
    ensures x.parent == y.parent && x.parent in k && x in k[x.parent] && y in k[x.parent] && x != y
    ensures x in k && y in k && x != root && y != root && x.parent.addr < x.addr && y.parent.addr < y.addr
  {
    var p := y.parent;
    var i, j :| 0 <= i < j < |k[p]| && k[p][i] == y && k[p][j] == x;
    assert NodeOk(k, root, p) && x in k[p] && y in k[p];
    assert NodeOk(k, root, x) && NodeOk(k, root, y);
    assert k[p][i].name != k[p][j].name;
  }

  /** What is below a later child does not come before what is below an earlier one. */
  lemma EarlierChildFirst(k: Kids, root: Node, dir: Node, i: nat, x: Node, y: Node)
    requires TreeOk(k, root) && dir in k && i < |k[dir]| && Chain(x, root) && Chain(y, root)
    requires Below(k, root, x, k[dir][i]) && BelowFrom(k, root, dir, i + 1, y)
    ensures !ComesFirst(k, root, y, x)
  {
    var c := k[dir][i];
    var j :| i + 1 <= j < |k[dir]| && Below(k, root, y, k[dir][j]);
    var d := k[dir][j];
    if x != y && Below(k, root, x, y) {
      BelowTrans(k, root, x, y, d);
      NotBelowLaterSibling(k, root, dir, i, x);
    } else if SiblingBefore(k, y, x) {
      SameParent(k, root, y, x);
      assert NodeOk(k, root, dir) && c in k[dir] && d in k[dir];
      assert NodeOk(k, root, c) && NodeOk(k, root, d);
      if x == c {
        assert Below(k, root, y, y);
        SiblingsApart(k, root, y, y, d);
      } else {
        assert Below(k, root, y, c);
        NotBelowLaterSibling(k, root, dir, i, y);
      }
    }
  }

  lemma {:induction false} EntriesTopDown(k: Kids, root: Node, dir: Node, i: nat, prefix: string, filter: Filter,
      limit: nat)
    requires Searchable(k, root, dir, limit) && i <= |k[dir]|
    ensures TopDown(k, root, Entries(k, root, dir, i, prefix, filter, limit))
    decreases limit - dir.addr, |k[dir]| - i
  {
    if i < |k[dir]| {
      var c := k[dir][i];
      ChildSearchable(k, root, dir, i, limit);
      var own, rest := Own(c, prefix, filter), Entries(k, root, dir, i + 1, prefix, filter, limit);
      var deeper := if c.kind == Dir then Entries(k, root, c, 0, prefix + c.name + "/", filter, limit) else [];
      if c.kind == Dir {
        EntriesTopDown(k, root, c, 0, prefix + c.name + "/", filter, limit);
      }
      EntriesTopDown(k, root, dir, i + 1, prefix, filter, limit);
      OwnAfter(k, root, dir, i, prefix, filter, limit);
      RestAfter(k, root, dir, i, prefix, filter, limit);
      TopDownParts(k, root, own, deeper);
      TopDownParts(k, root, own + deeper, rest);
    }
  }

  lemma OwnAfter(k: Kids, root: Node, dir: Node, i: nat, prefix: string, filter: Filter, limit: nat)
    requires Searchable(k, root, dir, limit) && i < |k[dir]| && Searchable(k, root, k[dir][i], limit)
    ensures
      var c := k[dir][i];
      var deeper := if c.kind == Dir then Entries(k, root, c, 0, prefix + c.name + "/", filter, limit) else [];
      After(k, root, Own(c, prefix, filter), deeper)
  {
    var c := k[dir][i];
    ChildSearchable(k, root, dir, i, limit);
    var deeper := if c.kind == Dir then Entries(k, root, c, 0, prefix + c.name + "/", filter, limit) else [];
    var own := Own(c, prefix, filter);
    forall a, b | 0 <= a < |own| && 0 <= b < |deeper|
      ensures !ComesFirst(k, root, deeper[b].node, own[a].node)
    {
      var x, y := own[a].node, deeper[b].node;
      assert Lists(own, x) && Lists(deeper, y);
      ListsOwn(c, prefix, filter, x);
      EntriesInTree(k, root, c, 0, prefix + c.name + "/", filter, limit, y);
      ListsBelow(k, root, c, 0, prefix + c.name + "/", filter, limit, y);
      ChildFirst(k, root, c, y);
    }
  }

  lemma RestAfter(k: Kids, root: Node, dir: Node, i: nat, prefix: string, filter: Filter, limit: nat)
    requires Searchable(k, root, dir, limit) && i < |k[dir]| && Searchable(k, root, k[dir][i], limit)
    ensures
      var c := k[dir][i];
      var deeper := if c.kind == Dir then Entries(k, root, c, 0, prefix + c.name + "/", filter, limit) else [];
      After(k, root, Own(c, prefix, filter) + deeper, Entries(k, root, dir, i + 1, prefix, filter, limit))
  {
    var c := k[dir][i];
    ChildSearchable(k, root, dir, i, limit);
    var own, rest := Own(c, prefix, filter), Entries(k, root, dir, i + 1, prefix, filter, limit);
    var deeper := if c.kind == Dir then Entries(k, root, c, 0, prefix + c.name + "/", filter, limit) else [];
    var front := own + deeper;
    forall a, b | 0 <= a < |front| && 0 <= b < |rest|
      ensures !ComesFirst(k, root, rest[b].node, front[a].node)
    {
      var x, y := front[a].node, rest[b].node;
      assert Lists(front, x) && Lists(rest, y);
      OwnAndDeeper(k, root, dir, i, prefix, filter, limit, x);
      EntriesInTree(k, root, dir, i + 1, prefix, filter, limit, y);
      ListsBelow(k, root, dir, i + 1, prefix, filter, limit, y);
      EarlierChildFirst(k, root, dir, i, x, y);
    }
  }

  lemma OwnAndDeeper(k: Kids, root: Node, dir: Node, i: nat, prefix: string, filter: Filter, limit: nat, x: Node)
    requires Searchable(k, root, dir, limit) && i < |k[dir]| && Searchable(k, root, k[dir][i], limit)
    requires
      var c := k[dir][i];
      var deeper := if c.kind == Dir then Entries(k, root, c, 0, prefix + c.name + "/", filter, limit) else [];
      Lists(Own(c, prefix, filter) + deeper, x)
    ensures Chain(x, root) && Below(k, root, x, k[dir][i])
  {
    var c := k[dir][i];
    ChildSearchable(k, root, dir, i, limit);
    var deeper := if c.kind == Dir then Entries(k, root, c, 0, prefix + c.name + "/", filter, limit) else [];
    assert Own(c, prefix, filter) + deeper + [] == Own(c, prefix, filter) + deeper;
    ListsParts(Own(c, prefix, filter), deeper, [], x);
    ListsOwn(c, prefix, filter, x);
    if Lists(deeper, x) {
      EntriesInTree(k, root, c, 0, prefix + c.name + "/", filter, limit, x);
      ListsBelow(k, root, c, 0, prefix + c.name + "/", filter, limit, x);
      BelowOne(k, root, c, x);
    }
  }

  /** Every line ends in the name of its node, and a directory is marked by a slash. */
  ghost predicate WellMarked(e: Entry) {
    && (exists front :: e.text == front + e.node.name + (if e.node.kind == Dir then "/" else ""))
    && (Ordinary(e.node.name) ==> e.text != "" && (e.text[|e.text| - 1] == '/' <==> e.node.kind == Dir))
  }

  lemma OwnMarked(c: Node, prefix: string, filter: Filter)
    ensures forall e :: e in Own(c, prefix, filter) ==> WellMarked(e)
  {
    var e := Entry(c, prefix + c.name + Suffix(c));
    assert e.text == prefix + c.name + (if c.kind == Dir then "/" else "");
    if Ordinary(c.name) && c.kind != Dir {
      assert prefix + c.name + "" == prefix + c.name;
      assert e.text[|e.text| - 1] == c.name[|c.name| - 1];
    }
  }

  lemma {:induction false} EntriesMarked(k: Kids, root: Node, dir: Node, i: nat, prefix: string, filter: Filter,
      limit: nat)
    requires Searchable(k, root, dir, limit) && i <= |k[dir]|
    ensures forall e :: e in Entries(k, root, dir, i, prefix, filter, limit) ==> WellMarked(e)
    decreases limit - dir.addr, |k[dir]| - i
  {
    hide WellMarked, Own;
    if i < |k[dir]| {
      var c := k[dir][i];
      ChildSearchable(k, root, dir, i, limit);
      OwnMarked(c, prefix, filter);
      if c.kind == Dir {
        EntriesMarked(k, root, c, 0, prefix + c.name + "/", filter, limit);
      }
      EntriesMarked(k, root, dir, i + 1, prefix, filter, limit);
    }
  }

  // ----- the printed paths

  /** Only ordinary names below the directory. */
  ghost predicate OrdinaryBelow(k: Kids, root: Node, dir: Node) {
    forall x {:trigger Ordinary(x.name)} ::
      x in k && Chain(x, root) && Below(k, root, x, dir) && x != dir ==> Ordinary(x.name)
  }

  lemma OrdinaryChild(k: Kids, root: Node, dir: Node, i: nat, limit: nat)
    requires Searchable(k, root, dir, limit) && i < |k[dir]| && OrdinaryBelow(k, root, dir)
    ensures Ordinary(k[dir][i].name) && OrdinaryBelow(k, root, k[dir][i])
  {
    var c := k[dir][i];
    ChildSearchable(k, root, dir, i, limit);
    assert NodeOk(k, root, dir);
    assert Below(k, root, dir, dir) && Below(k, root, c, dir);
    forall x | x in k && Chain(x, root) && Below(k, root, x, c) && x != c
      ensures Ordinary(x.name)
    {
      BelowTrans(k, root, x, c, dir);
      BelowIsLater(k, root, x, c);
    }
  }

  /** One more name after a path that leads to the directory of the child. */
  lemma PathOfChild(k: Kids, root: Node, start: Node, dir: Node, i: nat, path: string, limit: nat)
    requires Searchable(k, root, dir, limit) && i < |k[dir]| && Ordinary(k[dir][i].name)
    requires Walk(k, root, start, Components(path)) == dir
    ensures var c := k[dir][i];
      && Walk(k, root, start, Components(path + "/" + c.name)) == c
      && Walk(k, root, start, Components(path + "/" + c.name + "/")) == c
  {
    var c := k[dir][i];
    ChildSearchable(k, root, dir, i, limit);
    ComponentsJoin(path, c.name);
    ComponentsJoin(path + "/" + c.name, "");
    assert path + "/" + c.name + "/" + "" == path + "/" + c.name + "/";
    assert Components("") == [];
    assert Components(path + "/" + c.name) + [] == Components(path + "/" + c.name);
    OrdinaryComponent(c.name);
    WalkAppend(k, root, start, Components(path), [c.name]);
    WalkOne(k, root, dir, c.name);
    assert c in k[dir];
    EnterFinds(k, root, c);
  }

  lemma OwnResolves(k: Kids, root: Node, start: Node, c: Node, path: string, filter: Filter, j: nat)
    requires Walk(k, root, start, Components(path + "/" + c.name)) == c
    requires Walk(k, root, start, Components(path + "/" + c.name + "/")) == c
    requires j < |Own(c, path + "/", filter)|
    ensures var e := Own(c, path + "/", filter)[j]; e.node == c && Walk(k, root, start, Components(e.text)) == c
  {
    PlusNothing(path + "/" + c.name);
  }

  /** Every printed path, walked from the start directory, leads to its node. */
  lemma {:induction false} EntriesResolve(k: Kids, root: Node, start: Node, dir: Node, i: nat, path: string,
      filter: Filter, limit: nat, j: nat)
    requires Searchable(k, root, dir, limit) && i <= |k[dir]| && OrdinaryBelow(k, root, dir)
    requires Walk(k, root, start, Components(path)) == dir
    requires j < |Entries(k, root, dir, i, path + "/", filter, limit)|
    ensures var e := Entries(k, root, dir, i, path + "/", filter, limit)[j];
      Walk(k, root, start, Components(e.text)) == e.node
    decreases limit - dir.addr, |k[dir]| - i
  {
    hide TreeOk, Walk, Components, OrdinaryBelow, Own;
    if i < |k[dir]| {
      var c := k[dir][i];
      ChildSearchable(k, root, dir, i, limit);
      OrdinaryChild(k, root, dir, i, limit);
      PathOfChild(k, root, start, dir, i, path, limit);
      var own := Own(c, path + "/", filter);
      var deeper := if c.kind == Dir then Entries(k, root, c, 0, path + "/" + c.name + "/", filter, limit) else [];
      if j < |own| {
        OwnResolves(k, root, start, c, path, filter, j);
      } else if j < |own| + |deeper| {
        EntriesResolve(k, root, start, c, 0, path + "/" + c.name, filter, limit, j - |own|);
      } else {
        EntriesResolve(k, root, start, dir, i + 1, path, filter, limit, j - |own| - |deeper|);
      }
    }
  }

  /** The paths `find` prints are relative to the directory it starts from. */
  lemma FoundPathsResolve(k: Kids, root: Node, dir: Node, filter: Filter, limit: nat, j: nat)
    requires Searchable(k, root, dir, limit) && OrdinaryBelow(k, root, dir)
    requires j < |Entries(k, root, dir, 0, "./", filter, limit)|
    ensures var e := Entries(k, root, dir, 0, "./", filter, limit)[j];
      Walk(k, root, dir, Components(e.text)) == e.node
  {
    SingleComponent(".");
    assert Components(".") == ["."];
    WalkOne(k, root, dir, ".");
    assert "." + "/" == "./";
    EntriesResolve(k, root, dir, dir, 0, ".", filter, limit, j);
  }

  // ----- the command

  function LinesOf(es: seq<Entry>): seq<string> {
    seq(|es|, j requires 0 <= j < |es| => es[j].text)
  }

  lemma LinesOfParts(xs: seq<Entry>, ys: seq<Entry>)
    ensures Unlines(LinesOf(xs + ys)) == Unlines(LinesOf(xs)) + Unlines(LinesOf(ys))
  {
    assert LinesOf(xs + ys) == LinesOf(xs) + LinesOf(ys);
    UnlinesAppend(LinesOf(xs), LinesOf(ys));
  }

  /** One round of find_rec, without what is deeper. */
  method PrintOwn(c: Node, prefix: string, filter: Filter) returns (out: string)
    ensures out == Unlines(LinesOf(Own(c, prefix, filter)))
  {
    out := "";
    var hit := true;
    if filter.Named? {
      hit := GlobMatch(filter.pat, c.name);
    }
    if hit {
      out := prefix + c.name;
      if c.kind == Dir {
        out := out + "/";
      }
      assert out == prefix + c.name + Suffix(c);
      UnlinesSnoc([], out);
      assert LinesOf(Own(c, prefix, filter)) == [] + [out];
      out := out + "\n";
    } else {
      assert LinesOf(Own(c, prefix, filter)) == [];
    }
  }

  /** What find_rec prints for one child. */
  ghost function ChildEntries(k: Kids, root: Node, c: Node, prefix: string, filter: Filter, limit: nat): seq<Entry>
    requires Searchable(k, root, c, limit)
  {
    Own(c, prefix, filter) + if c.kind == Dir then Entries(k, root, c, 0, prefix + c.name + "/", filter, limit) else []
  }

  ghost function ChildText(k: Kids, root: Node, c: Node, prefix: string, filter: Filter, limit: nat): string
    requires Searchable(k, root, c, limit)
  {
    Unlines(LinesOf(ChildEntries(k, root, c, prefix, filter, limit)))
  }

  /** The paths of directories fit the buffers of the recursion. */
  ghost predicate AllFit(es: seq<Entry>) {
    forall j {:trigger es[j]} :: 0 <= j < |es| && es[j].node.kind == Dir ==> |es[j].text| < 1024
  }

  /** find_rec stays inside its buffers: the path of every directory below the children
      from i on, whatever the filter is, is shorter than 1024 characters. */
  ghost predicate PathsFit(k: Kids, root: Node, dir: Node, i: nat, prefix: string, limit: nat)
    requires Searchable(k, root, dir, limit) && i <= |k[dir]|
  {
    AllFit(Entries(k, root, dir, i, prefix, Any, limit))
  }

  lemma AllFitParts(xs: seq<Entry>, ys: seq<Entry>)
    ensures AllFit(xs + ys) <==> AllFit(xs) && AllFit(ys)
  {
    var all := xs + ys;
    if AllFit(all) {
      forall j | 0 <= j < |xs| && xs[j].node.kind == Dir
        ensures |xs[j].text| < 1024
      {
        assert all[j] == xs[j];
      }
      forall j | 0 <= j < |ys| && ys[j].node.kind == Dir
        ensures |ys[j].text| < 1024
      {
        assert all[|xs| + j] == ys[j];
      }
    }
  }

  ghost predicate ChildFits(k: Kids, root: Node, c: Node, prefix: string, limit: nat)
    requires Searchable(k, root, c, limit)
  {
    c.kind == Dir ==>
      |prefix + c.name + "/"| < 1024 && PathsFit(k, root, c, 0, prefix + c.name + "/", limit)
  }

  lemma FitsNext(k: Kids, root: Node, dir: Node, i: nat, prefix: string, limit: nat)
    requires Searchable(k, root, dir, limit) && i < |k[dir]| && Searchable(k, root, k[dir][i], limit)
    ensures PathsFit(k, root, dir, i, prefix, limit)
      <==> ChildFits(k, root, k[dir][i], prefix, limit) && PathsFit(k, root, dir, i + 1, prefix, limit)
  {
    var c := k[dir][i];
    var own, rest := Own(c, prefix, Any), Entries(k, root, dir, i + 1, prefix, Any, limit);
    var deeper := if c.kind == Dir then Entries(k, root, c, 0, prefix + c.name + "/", Any, limit) else [];
    AllFitParts(own + deeper, rest);
    AllFitParts(own, deeper);
    assert own[0] == Entry(c, prefix + c.name + Suffix(c));
  }

  method FindChild(fs: Fs, c: Node, prefix: string, filter: Filter) returns (out: string, fits: bool)
    requires fs.Valid() && c in fs.nodes && Searchable(fs.Kids(), fs.root, c, fs.heap.used)
    ensures fits <==> ChildFits(fs.Kids(), fs.root, c, prefix, fs.heap.used)
    ensures fits ==> out == ChildText(fs.Kids(), fs.root, c, prefix, filter, fs.heap.used)
    decreases fs.heap.used - c.addr, 2
  {
    hide Fs.Valid, TreeOk, PathsFit, LinesOf;
    ghost var k, limit := fs.Kids(), fs.heap.used;
    out := PrintOwn(c, prefix, filter);
    fits := true;
    if c.kind == Dir {
      var path := prefix + c.name + "/";
      if |path| >= 1024 {
        return out, false;
      }
      var deeper;
      deeper, fits := FindRec(fs, c, path, filter);
      LinesOfParts(Own(c, prefix, filter), Entries(k, fs.root, c, 0, path, filter, limit));
      out := out + deeper;
    } else {
      assert Own(c, prefix, filter) + [] == Own(c, prefix, filter);
    }
  }

  /** The text of the entries for the children from i on. */
  ghost function TextFrom(k: Kids, root: Node, dir: Node, i: nat, prefix: string, filter: Filter, limit: nat): string
    requires Searchable(k, root, dir, limit) && i <= |k[dir]|
  {
    Unlines(LinesOf(Entries(k, root, dir, i, prefix, filter, limit)))
  }

  /** What is printed before child i and what is to come make up the whole, and what is
      to come decides whether everything fits. */
  ghost predicate Printing(k: Kids, root: Node, dir: Node, i: nat, prefix: string, filter: Filter, limit: nat,
      out: string)
    requires Searchable(k, root, dir, limit) && i <= |k[dir]|
  {
    && out + TextFrom(k, root, dir, i, prefix, filter, limit) == TextFrom(k, root, dir, 0, prefix, filter, limit)
    && (PathsFit(k, root, dir, 0, prefix, limit) <==> PathsFit(k, root, dir, i, prefix, limit))
  }

  lemma PrintingStarts(k: Kids, root: Node, dir: Node, prefix: string, filter: Filter, limit: nat)
    requires Searchable(k, root, dir, limit)
    ensures Printing(k, root, dir, 0, prefix, filter, limit, "")
  {
    PlusNothing(TextFrom(k, root, dir, 0, prefix, filter, limit));
  }

  /** One child is printed, if it fits. */
  lemma PrintingMoves(k: Kids, root: Node, dir: Node, i: nat, c: Node, prefix: string, filter: Filter, limit: nat,
                      out: string, text: string, more: string)
    requires Searchable(k, root, dir, limit) && i < |k[dir]| && c == k[dir][i] && Searchable(k, root, c, limit)
    requires Printing(k, root, dir, i, prefix, filter, limit, out) && more == out + text
    ensures !ChildFits(k, root, c, prefix, limit) ==> !PathsFit(k, root, dir, 0, prefix, limit)
    ensures ChildFits(k, root, c, prefix, limit) && text == ChildText(k, root, c, prefix, filter, limit) ==>
      Printing(k, root, dir, i + 1, prefix, filter, limit, more)
  {
    FitsNext(k, root, dir, i, prefix, limit);
    var own, rest := ChildEntries(k, root, c, prefix, filter, limit),
                     Entries(k, root, dir, i + 1, prefix, filter, limit);
    assert Entries(k, root, dir, i, prefix, filter, limit) == own + rest;
    LinesOfParts(own, rest);
    Associative(out, Unlines(LinesOf(own)), Unlines(LinesOf(rest)));
  }

  lemma PrintingEnds(k: Kids, root: Node, dir: Node, prefix: string, filter: Filter, limit: nat, out: string)
    requires Searchable(k, root, dir, limit) && Printing(k, root, dir, |k[dir]|, prefix, filter, limit, out)
    ensures out == TextFrom(k, root, dir, 0, prefix, filter, limit) && PathsFit(k, root, dir, 0, prefix, limit)
  {
    PlusNothing(out);
  }

  lemma ChildrenOf(fs: Fs, dir: Node)
    requires fs.Valid() && dir in fs.nodes && Searchable(fs.Kids(), fs.root, dir, fs.heap.used)
    ensures dir in fs.Kids() && fs.Kids()[dir] == dir.children
    ensures forall i {:trigger dir.children[i]} :: 0 <= i < |dir.children| ==> dir.children[i] in fs.nodes
  {
    forall i {:trigger dir.children[i]} | 0 <= i < |dir.children|
      ensures dir.children[i] in fs.nodes
    {
      ChildSearchable(fs.Kids(), fs.root, dir, i, fs.heap.used);
    }
  }

  /** One round of find_rec. */
  method FindNext(fs: Fs, dir: Node, i: nat, prefix: string, filter: Filter, out: string)
    returns (more: string, fits: bool)
    requires fs.Valid() && dir in fs.nodes && Searchable(fs.Kids(), fs.root, dir, fs.heap.used) && i < |dir.children|
    requires Printing(fs.Kids(), fs.root, dir, i, prefix, filter, fs.heap.used, out)
    ensures !fits ==> !PathsFit(fs.Kids(), fs.root, dir, 0, prefix, fs.heap.used)
    ensures fits ==> Printing(fs.Kids(), fs.root, dir, i + 1, prefix, filter, fs.heap.used, more)
    decreases fs.heap.used - dir.addr, 0
  {
    ghost var k, limit, root := fs.Kids(), fs.heap.used, fs.root;
    ChildrenOf(fs, dir);
    ChildSearchable(k, root, dir, i, limit);
    hide Fs.Kids, Fs.Valid, Searchable, PathsFit, ChildFits, ChildText, Printing;
    var c := dir.children[i];
    var text;
    text, fits := FindChild(fs, c, prefix, filter);
    more := out + text;
    PrintingMoves(k, root, dir, i, c, prefix, filter, limit, out, text, more);
  }

  /** `fits` says whether the paths stay inside their buffers; the walk ends otherwise. */
  method FindRec(fs: Fs, dir: Node, prefix: string, filter: Filter) returns (out: string, fits: bool)
    requires fs.Valid() && dir in fs.nodes && Searchable(fs.Kids(), fs.root, dir, fs.heap.used)
    ensures fits <==> PathsFit(fs.Kids(), fs.root, dir, 0, prefix, fs.heap.used)
    ensures fits ==> out == TextFrom(fs.Kids(), fs.root, dir, 0, prefix, filter, fs.heap.used)
    decreases fs.heap.used - dir.addr, 1
  {
    ghost var k, limit, root := fs.Kids(), fs.heap.used, fs.root;
    ChildrenOf(fs, dir);
    hide Fs.Kids, Fs.Valid, Searchable, PathsFit, TextFrom, Printing;
    out := "";
    PrintingStarts(k, root, dir, prefix, filter, limit);
    for i := 0 to |dir.children|
      invariant Printing(k, root, dir, i, prefix, filter, limit, out)
    {
      out, fits := FindNext(fs, dir, i, prefix, filter, out);
      if !fits {
        return;
      }
    }
    PrintingEnds(k, root, dir, prefix, filter, limit, out);
    fits := true;
  }

  // ----- the command line

  /** The argument belongs to the -name in front of it, which is not itself such an
      argument. */
  predicate IsPattern(args: seq<string>, i: nat)
    requires i <= |args|
  {
    i > 0 && args[i - 1] == "-name" && !IsPattern(args, i - 1)
  }

  predicate IsStart(args: seq<string>, i: nat)
    requires i < |args|
  {
    !IsPattern(args, i) && (args[i] == "" || args[i][0] != '-')
  }

  /** The last index below n with this property, or -1. */
  function LastIndex(p: nat -> bool, n: nat): (i: int)
    ensures -1 <= i < n && (i >= 0 ==> p(i))
    ensures forall j: nat :: i < j < n ==> !p(j)
  {
    if n == 0 then -1 else if p(n - 1) then n - 1 else LastIndex(p, n - 1)
  }

  /** The last of the first n arguments that names a start, else the working directory. */
  function StartOf(args: seq<string>, n: nat): string
    requires n <= |args|
  {
    var i := LastIndex((i: nat) => i < |args| && IsStart(args, i), n);
    if i < 0 then "." else args[i]
  }

  /** The last of the first n arguments that belongs to a -name. */
  function FilterOf(args: seq<string>, n: nat): Filter
    requires n <= |args|
  {
    var i := LastIndex((i: nat) => i < |args| && IsPattern(args, i), n);
    if i < 0 then Any else Named(args[i])
  }

  /** The loop of src/cmds.c:551-554, on the arguments behind the command name. */
  method ReadOptions(args: seq<string>) returns (start: string, filter: Filter)
    ensures start == StartOf(args, |args|) && filter == FilterOf(args, |args|)
  {
    start, filter := ".", Any;
    var i := 0;
    while i < |args|
      invariant i <= |args| && (i < |args| ==> !IsPattern(args, i))
      invariant start == StartOf(args, i) && filter == FilterOf(args, i)
      decreases |args| - i
    {
      if args[i] == "-name" && i + 1 < |args| {
        assert IsPattern(args, i + 1) && StartOf(args, i + 1) == start;
        i := i + 1;
        filter := Named(args[i]);
      } else if args[i] == "" || args[i][0] != '-' {
        start := args[i];
      }
      i := i + 1;
    }
  }

  /** `find`: the start directory as ".", then everything below it. */
  method CmdFind(fs: Fs, args: seq<string>) returns (out: string, rc: int, fits: bool)
    requires fs.Valid()
    ensures
      var start, filter := StartOf(args, |args|), FilterOf(args, |args|);
      var n := Tree.Resolve(fs.Kids(), fs.root, fs.cwd, start);
      if n == null || n.kind != Dir then
        rc == 1 && fits && out == "find: " + start + ": no such directory\n"
      else
        && rc == 0 && Searchable(fs.Kids(), fs.root, n, fs.heap.used)
        && (fits <==> PathsFit(fs.Kids(), fs.root, n, 0, "./", fs.heap.used))
        && (fits ==>
              out == "./\n" + TextFrom(fs.Kids(), fs.root, n, 0, "./", filter, fs.heap.used))
  {
    var start, filter := ReadOptions(args);
    var n := fs.Resolve(start);
    if n == null || n.kind != Dir {
      return "find: " + start + ": no such directory\n", 1, true;
    }
    var text;
    text, fits := FindRec(fs, n, "./", filter);
    out, rc := "./\n" + text, 0;
  }
}
