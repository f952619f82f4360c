/** Path strings as src/vfs.c:54-100 reads them. */
module Paths {
  const NAME_MAX: nat := 64

  /** The name buffer of vfs_resolve keeps 63 characters. */
  function Truncated(name: string): string {
    if |name| <= 63 then name else name[..63]
  }

  function Piece(text: string): seq<string> {
    if text == "" then [] else [Truncated(text)]
  }

  /** The components of a path: what stands between slashes. */
  function Components(path: string): seq<string> {
    ComponentsFrom(path, 0, 0)
  }

  /** The components from `start` on, when there is no slash between `start` and `i`. */
  function ComponentsFrom(path: string, start: nat, i: nat): seq<string>
    requires start <= i <= |path|
    decreases |path| - i
  {
    if i == |path| then Piece(path[start..i])
    else if path[i] == '/' then Piece(path[start..i]) + ComponentsFrom(path, i + 1, i + 1)
    else ComponentsFrom(path, start, i + 1)
  }

  lemma {:induction false} ShiftComponents(prefix: string, path: string, start: nat, i: nat)
    requires start <= i <= |path|
    ensures ComponentsFrom(prefix + path, |prefix| + start, |prefix| + i) == ComponentsFrom(path, start, i)
    decreases |path| - i
  {
    assert (prefix + path)[|prefix| + start..|prefix| + i] == path[start..i];
    if i < |path| {
      ShiftComponents(prefix, path, i + 1, i + 1);
      ShiftComponents(prefix, path, start, i + 1);
    }
  }

  lemma {:induction false} ComponentsJoinFrom(p: string, q: string, start: nat, i: nat)
    requires start <= i <= |p|
    ensures ComponentsFrom(p + "/" + q, start, i) == ComponentsFrom(p, start, i) + Components(q)
    decreases |p| - i
  {
    var path := p + "/" + q;
    assert path[start..i] == p[start..i];
    if i == |p| {
      assert path == (p + "/") + q;
      ShiftComponents(p + "/", q, 0, 0);
    } else {
      ComponentsJoinFrom(p, q, i + 1, i + 1);
      ComponentsJoinFrom(p, q, start, i + 1);
    }
  }

  /** Joining two paths with a slash joins their components. */
  lemma ComponentsJoin(p: string, q: string)
    ensures Components(p + "/" + q) == Components(p) + Components(q)
  {
    ComponentsJoinFrom(p, q, 0, 0);
  }

  lemma {:induction false} NoSlashComponents(path: string, start: nat, i: nat)
    requires start <= i <= |path| && '/' !in path[start..]
    ensures ComponentsFrom(path, start, i) == Piece(path[start..])
    decreases |path| - i
  {
    if i < |path| {
      assert path[i] == path[start..][i - start];
      NoSlashComponents(path, start, i + 1);
    } else {
      assert path[start..i] == path[start..];
    }
  }

  lemma SingleComponent(name: string)
    requires '/' !in name
    ensures Components(name) == Piece(name)
  {
    assert name[0..] == name;
    NoSlashComponents(name, 0, 0);
  }

  /** Of a longer component 63 characters count. */
  lemma LongComponent(name: string)
    requires '/' !in name && |name| > 63
    ensures Components(name) == [name[..63]]
  {
    SingleComponent(name);
  }

  /** A name vfs_resolve enters as a child. */
  predicate Ordinary(name: string) {
    1 <= |name| <= 63 && '/' !in name && name != "." && name != ".." && name != "~"
  }

  lemma OrdinaryComponent(name: string)
    requires Ordinary(name)
    ensures Components(name) == [name]
  {
    SingleComponent(name);
  }

  lemma {:induction false} ComponentsHaveNoSlash(path: string, start: nat, i: nat)
    requires start <= i <= |path| && '/' !in path[start..i]
    ensures forall c :: c in ComponentsFrom(path, start, i) ==> 1 <= |c| <= 63 && '/' !in c
    decreases |path| - i
  {
    if i < |path| {
      if path[i] == '/' {
        ComponentsHaveNoSlash(path, i + 1, i + 1);
      } else {
        assert path[start..i + 1] == path[start..i] + [path[i]];
        ComponentsHaveNoSlash(path, start, i + 1);
      }
    }
  }

  // ----- the last component (vfs_resolve_parent)

  /** The last slash among the first n characters, or -1. */
  function LastSlashIn(path: string, n: nat): (i: int)
    requires n <= |path|
    ensures -1 <= i < n
    ensures i >= 0 ==> path[i] == '/'
    ensures forall k {:trigger path[k]} :: i < k < n ==> path[k] != '/'
  {
    if n == 0 then -1
    else if path[n - 1] == '/' then n - 1
    else LastSlashIn(path, n - 1)
  }

  /** strrchr(path, '/'), or -1 */
  function LastSlash(path: string): int {
    LastSlashIn(path, |path|)
  }

  /** The 1024-byte buffer keeps 1023 characters of a path. */
  function Buffered(path: string): string {
    if |path| <= 1023 then path else path[..1023]
  }

  /** The name a new node gets: what follows the last slash, or "/" when nothing does. */
  function LastName(path: string): string {
    var buf := Buffered(path);
    var slash := LastSlash(buf);
    if slash < 0 then buf
    else if slash + 1 < |buf| then buf[slash + 1..]
    else "/"
  }

  lemma {:induction false} NextComponent(path: string, start: nat, i: nat, e: nat)
    requires start <= i <= e <= |path| && '/' !in path[i..e] && (e < |path| ==> path[e] == '/')
    ensures ComponentsFrom(path, start, i) ==
      Piece(path[start..e]) + if e < |path| then ComponentsFrom(path, e + 1, e + 1) else []
    decreases e - i
  {
    if i < e {
      assert path[i] == path[i..e][0] && path[i + 1..e] == path[i..e][1..];
      NextComponent(path, start, i + 1, e);
    }
  }

  lemma SlashFirst(path: string, i: nat)
    requires i < |path| && path[i] == '/'
    ensures ComponentsFrom(path, i, i) == ComponentsFrom(path, i + 1, i + 1)
  {
  }
}
