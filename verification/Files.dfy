/** File contents in the heap (src/vfs.c:102-142): a growing buffer that always ends in
    a NUL. */
module Files {
  import opened Arithmetic
  import opened KHeap
  import opened Tree

  const MAX_TEXT: nat := 0x1_0000_0000

  /** The capacity doubles until it is enough. */
  function Grow(cap: nat, need: nat): (nc: nat)
    requires cap > 0
    ensures cap <= nc && need <= nc
    decreases need - cap
  {
    if cap >= need then cap else Grow(2 * cap, need)
  }

  lemma {:induction false} GrowBounds(cap: nat, need: nat)
    requires cap > 0
    ensures Grow(cap, need) == cap || Grow(cap, need) < 2 * need
    ensures cap % 64 == 0 ==> Grow(cap, need) % 64 == 0
    decreases need - cap
  {
    if cap < need {
      TwiceAligned(cap);
      GrowBounds(2 * cap, need);
    }
  }

  lemma TwiceAligned(cap: nat)
    ensures cap % 64 == 0 ==> (2 * cap) % 64 == 0
  {
  }

  /** The buffer of a file lies in the granted part of the heap, with room for the NUL
      after the contents; without a buffer there are no contents. */
  ghost predicate BlockOk(n: Node, heap: Heap)
    reads n`data, n`size, n`cap, heap`used, heap.mem
  {
    match n.data
    case Null => n.size == 0 && n.cap == 0
    case At(p) =>
      && n.kind == File
      && n.size + 1 <= n.cap && n.cap % 64 == 0
      && p + n.cap <= heap.used <= heap.mem.Length
      && heap.mem[p + n.size] == '\0'
  }

  ghost function Content(n: Node, heap: Heap): string
    reads n`data, n`size, n`cap, heap`used, heap.mem
    requires BlockOk(n, heap)
  {
    if n.data == Null then "" else heap.mem[n.data.offset..n.data.offset + n.size]
  }

  /** The capacity a buffer gets when `need` bytes have to fit. */
  function NewCap(cap: nat, need: nat): nat {
    if need <= cap then cap else Grow(if cap > 0 then cap else 64, need)
  }

  /** Whether the contents can become `need` - 1 bytes long. */
  ghost predicate HasRoom(n: Node, heap: Heap, need: nat)
    reads n, heap
  {
    need <= n.cap || heap.used + NewCap(n.cap, need) <= heap.total
  }

  /** Nothing changed outside the buffer of n, which is the old one or newly granted. */
  twostate predicate OnlyBuffer(n: Node, heap: Heap, need: nat)
    reads n, heap, heap.mem
  {
    && n.data.At?
    && n.cap == NewCap(old(n.cap), need)
    && (need <= old(n.cap) ==> n.data == old(n.data) && heap.used == old(heap.used))
    && (need > old(n.cap) ==> n.data == At(old(heap.used)) && heap.used == old(heap.used) + n.cap)
    && forall k {:trigger heap.mem[k]} :: 0 <= k < heap.mem.Length && !(n.data.offset <= k < n.data.offset + n.cap) ==>
      heap.mem[k] == old(heap.mem[k])
  }

  method GrownCap(cap: nat, need: nat) returns (nc: nat)
    requires cap < need <= 2 * MAX_TEXT && cap % 64 == 0
    ensures nc == NewCap(cap, need) && nc % 64 == 0 && RoundUp16(nc) == nc && nc < 4 * MAX_TEXT + 64
  {
    nc := if cap > 0 then cap else 64;
    GrowBounds(nc, need);
    while nc < need
      invariant 0 < nc && nc % 64 == 0 && Grow(nc, need) == NewCap(cap, need)
      decreases need - nc
    {
      TwiceAligned(nc);
      nc := nc * 2;
    }
    AlreadyRound(nc, nc / 64);
  }

  lemma AlreadyRound(nc: nat, q: nat)
    requires nc == 64 * q
    ensures RoundUp16(nc) == nc
  {
  }

  twostate predicate Unchanged(n: Node, heap: Heap)
    reads n, heap, heap.mem
  {
    && heap.used == old(heap.used)
    && (forall k {:trigger heap.mem[k]} :: 0 <= k < heap.mem.Length ==> heap.mem[k] == old(heap.mem[k]))
    && n.data == old(n.data) && n.size == old(n.size) && n.cap == old(n.cap)
  }

  /** src/vfs.c:104-112 and 122-130: a bigger buffer when `need` bytes do not fit. */
  method Reserve(heap: Heap, n: Node, need: nat) returns (ok: bool)
    requires heap.Valid() && BlockOk(n, heap) && n.kind == File && 0 < need <= 2 * MAX_TEXT
    modifies heap`used, heap.mem, n`data, n`cap
    ensures heap.Valid()
    ensures ok <==> old(HasRoom(n, heap, need))
    ensures !ok ==> Unchanged(n, heap)
    ensures ok ==> OnlyBuffer(n, heap, need) && need <= n.cap && n.cap % 64 == 0 && n.data.offset + n.cap <= heap.used
    ensures ok ==> n.size < n.cap && heap.mem[n.data.offset..n.data.offset + n.size] == old(Content(n, heap))
  {
    hide Grow, RoundUp16;
    if need > n.cap {
      var nc := GrownCap(n.cap, need);
      var nd := heap.Kmalloc(nc);
      if nd == Null {
        return false;
      }
      if n.data != Null && n.size > 0 {
        heap.Copy(nd.offset, n.data.offset, n.size);
      }
      n.data := nd;
      n.cap := nc;
    }
    ok := true;
  }

  /** src/vfs.c:113-115 and 131-133: the bytes, the new size and the NUL. */
  method Store(heap: Heap, n: Node, at: nat, data: seq<char>)
    requires heap.Valid() && n.kind == File && n.data.At? && n.cap % 64 == 0
    requires at + |data| + 1 <= n.cap && n.data.offset + n.cap <= heap.used
    modifies heap.mem, n`size
    ensures BlockOk(n, heap) && n.size == at + |data|
    ensures Content(n, heap) == old(heap.mem[n.data.offset..n.data.offset + at]) + data
    ensures forall k {:trigger heap.mem[k]} ::
        0 <= k < heap.mem.Length && !(n.data.offset <= k < n.data.offset + n.cap) ==>
      heap.mem[k] == old(heap.mem[k])
  {
    var p := n.data.offset;
    heap.CopyIn(p + at, data);
    n.size := at + |data|;
    heap.mem[p + n.size] := '\0';
    assert heap.mem[p..p + at] == old(heap.mem[p..p + at]);
    assert heap.mem[p + at..p + n.size] == data;
    assert heap.mem[p..p + n.size] == heap.mem[p..p + at] + heap.mem[p + at..p + n.size];
  }

  method WriteFile(heap: Heap, n: Node, data: seq<char>) returns (ok: bool)
    requires heap.Valid() && BlockOk(n, heap) && |data| < MAX_TEXT
    modifies heap`used, heap.mem, n`data, n`cap, n`size
    ensures heap.Valid() && BlockOk(n, heap)
    ensures ok <==> n.kind == File && old(HasRoom(n, heap, |data| + 1))
    ensures !ok ==> Unchanged(n, heap)
    ensures ok ==> OnlyBuffer(n, heap, |data| + 1) && Content(n, heap) == data
  {
    hide Grow, NewCap;
    if n.kind != File {
      return false;
    }
    ok := Reserve(heap, n, |data| + 1);
    if ok {
      Store(heap, n, 0, data);
    }
  }

  method AppendFile(heap: Heap, n: Node, data: seq<char>) returns (ok: bool)
    requires heap.Valid() && BlockOk(n, heap) && |data| < MAX_TEXT
    modifies heap`used, heap.mem, n`data, n`cap, n`size
    ensures heap.Valid() && BlockOk(n, heap)
    ensures ok <==> n.kind == File && old(HasRoom(n, heap, n.size + |data| + 1))
    ensures !ok ==> Unchanged(n, heap)
    ensures ok ==> OnlyBuffer(n, heap, old(n.size) + |data| + 1) && Content(n, heap) == old(Content(n, heap)) + data
  {
    hide Grow, NewCap;
    if n.kind != File {
      return false;
    }
    ghost var before := Content(n, heap);
    ok := Reserve(heap, n, n.size + |data| + 1);
    if ok {
      assert heap.mem[n.data.offset..n.data.offset + n.size] == before;
      Store(heap, n, n.size, data);
    }
  }

  method Truncate(heap: Heap, n: Node)
    requires heap.Valid() && BlockOk(n, heap)
    modifies heap.mem, n`size
    ensures BlockOk(n, heap)
    ensures n.kind == File ==> Content(n, heap) == ""
    ensures n.kind != File || n.data == Null ==> Unchanged(n, heap)
    ensures forall k {:trigger heap.mem[k]} :: 0 <= k < heap.mem.Length && !(n.data.At? && n.data.offset == k) ==>
      heap.mem[k] == old(heap.mem[k])
  {
    if n.kind == File {
      n.size := 0;
      if n.data != Null {
        heap.mem[n.data.offset] := '\0';
      }
    }
  }

  // ----- streaming output (out_raw, src/shell.c:46-48)

  function StreamCost(length: nat): nat {
    if length == 0 then 0 else 2 * NewCap(0, length + 1) - 64
  }

  /** The k-th byte takes a new buffer exactly when the old one is full. */
  lemma {:induction false} GrowNext(cap: nat, need: nat)
    requires cap > 0 && need > 0
    ensures Grow(cap, need + 1) == if need < Grow(cap, need) then Grow(cap, need)
      else if Grow(cap, need) == need then 2 * need else Grow(cap, need)
    decreases need - cap
  {
    GrowBounds(cap, need);
    if cap < need {
      GrowNext(2 * cap, need);
    } else if cap == need {
      assert Grow(2 * cap, need + 1) == 2 * cap;
    }
  }

  /** The capacity after i bytes against the one that byte i + 1 asks for. */
  lemma NextByte(i: nat)
    ensures NewCap(if i == 0 then 0 else NewCap(0, i + 1), i + 2) == NewCap(0, i + 2)
    ensures StreamCost(i + 1) == StreamCost(i) +
      if i == 0 then 64 else if i + 2 <= NewCap(0, i + 1) then 0 else NewCap(0, i + 2)
  {
    if i > 0 {
      GrowNext(64, i + 1);
      var cap := Grow(64, i + 1);
      if cap == i + 1 {
        assert Grow(cap, i + 2) == Grow(2 * cap, i + 2) == 2 * cap;
      }
    }
  }

  /** After i bytes. */
  ghost predicate Streamed(n: Node, heap: Heap, start: nat, i: nat)
    reads n, heap
  {
    && n.size == i
    && n.cap == (if i == 0 then 0 else NewCap(0, i + 1))
    && heap.used == start + StreamCost(i)
  }

  lemma StreamBound(length: nat)
    ensures StreamCost(length) <= if length <= 32 then 64 else 4 * length - 64
  {
    GrowBounds(64, length + 1);
  }

  /** Whatever is written byte by byte to a fresh file, if no allocation fails, costs at
      most four bytes of heap a byte. */
  method Stream(heap: Heap, n: Node, text: string) returns (complete: bool)
    requires heap.Valid() && BlockOk(n, heap) && n.kind == File && n.data == Null && |text| < MAX_TEXT
    modifies heap`used, heap.mem, n`data, n`cap, n`size
    ensures heap.Valid() && BlockOk(n, heap)
    ensures complete ==> Content(n, heap) == text
    ensures complete ==> heap.used == old(heap.used) + StreamCost(|text|)
    ensures complete ==> heap.used - old(heap.used) <= if |text| <= 32 then 64 else 4 * |text| - 64
  {
    assert StreamCost(0) == 0;
    hide StreamCost;
    complete := true;
    for i := 0 to |text|
      invariant heap.Valid() && BlockOk(n, heap)
      invariant complete ==> Content(n, heap) == text[..i] && Streamed(n, heap, old(heap.used), i)
    {
      TakeMore(text, i);
      NextByte(i);
      var ok := AppendFile(heap, n, [text[i]]);
      complete := complete && ok;
    }
    assert text[..|text|] == text;
    StreamBound(|text|);
  }
}
