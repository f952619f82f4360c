/** `sort` and `uniq` on split lines (src/cmds.c:366-437), with strcmp and atoi
    (src/string.c:10-13, 101-108). */
module Sort {
  import opened Arithmetic
  import opened Strings
  import opened Lines

  // ----- comparing strings

  predicate NoNuls(s: string) {
    '\0' !in s
  }

  /** The character at an index of a C string: the terminating NUL after the end. */
  function CharAt(s: string, i: nat): int {
    if i < |s| then s[i] as int else 0
  }

  /** strcmp from position i on. */
  function CompareFrom(a: string, b: string, i: nat): int
    decreases |a| - i
  {
    if CharAt(a, i) != 0 && CharAt(a, i) == CharAt(b, i) then CompareFrom(a, b, i + 1)
    else CharAt(a, i) - CharAt(b, i)
  }

  function Strcmp(a: string, b: string): int {
    CompareFrom(a, b, 0)
  }

  lemma {:induction false} CompareZero(a: string, b: string, i: nat)
    requires NoNuls(a) && NoNuls(b) && i <= |a| && i <= |b| && a[..i] == b[..i]
    ensures CompareFrom(a, b, i) == 0 <==> a == b
    decreases |a| - i
  {
    if CharAt(a, i) != 0 && CharAt(a, i) == CharAt(b, i) {
      assert a[..i + 1] == b[..i + 1];
      CompareZero(a, b, i + 1);
    } else {
      assert i < |a| ==> a[i] in a;
      assert i < |b| ==> b[i] in b;
      if i == |a| && i == |b| {
        assert a == a[..i] && b == b[..i];
      }
    }
  }

  ghost predicate SameUpTo(a: string, b: string, i: nat) {
    i <= |a| && i <= |b| && forall k :: 0 <= k < i ==> a[k] == b[k]
  }

  /** a is a proper prefix of b, or has the smaller character where they first differ. */
  ghost predicate Precedes(a: string, b: string) {
    exists i: nat :: SameUpTo(a, b, i) && i < |b| && (i < |a| ==> a[i] < b[i])
  }

  lemma {:induction false} CompareMeans(a: string, b: string, i: nat)
    requires NoNuls(a) && NoNuls(b) && SameUpTo(a, b, i)
    ensures CompareFrom(a, b, i) < 0 <==> Precedes(a, b)
    decreases |a| - i
  {
    assert i < |a| ==> a[i] in a;
    assert i < |b| ==> b[i] in b;
    if i < |a| && i < |b| && a[i] == b[i] {
      CompareMeans(a, b, i + 1);
    } else if j: nat :| SameUpTo(a, b, j) && j < |b| && (j < |a| ==> a[j] < b[j]) {
      assert i == j;
    }
  }

  lemma StrcmpMeans(a: string, b: string)
    requires NoNuls(a) && NoNuls(b)
    ensures Strcmp(a, b) < 0 <==> Precedes(a, b)
  {
    CompareMeans(a, b, 0);
  }

  lemma {:induction false} CompareSwap(a: string, b: string, i: nat)
    ensures CompareFrom(a, b, i) == -CompareFrom(b, a, i)
    decreases |a| - i
  {
    if CharAt(a, i) != 0 && CharAt(a, i) == CharAt(b, i) {
      CompareSwap(a, b, i + 1);
    }
  }

  lemma {:induction false} CompareChain(a: string, b: string, c: string, i: nat)
    requires CompareFrom(a, b, i) <= 0 && CompareFrom(b, c, i) <= 0
    ensures CompareFrom(a, c, i) <= 0
    ensures CompareFrom(a, c, i) == 0 ==> CompareFrom(a, b, i) == 0 && CompareFrom(b, c, i) == 0
    decreases |a| - i
  {
    if CharAt(a, i) != 0 && CharAt(a, i) == CharAt(b, i) == CharAt(c, i) {
      CompareChain(a, b, c, i + 1);
    }
  }

  // ----- atoi

  predicate IsSpace(c: char) {
    c == ' ' || c == '\t' || c == '\n' || c == '\r' || c as int == 11 || c as int == 12
  }

  function SkipSpaces(s: string): string {
    if s != "" && IsSpace(s[0]) then SkipSpaces(s[1..]) else s
  }

  /** A value of type int: 32 bits, wrapping around. */
  function Int32(n: int): int {
    (n + 0x8000_0000) % 0x1_0000_0000 - 0x8000_0000
  }

  function DigitsValue(s: string, n: int): int
    decreases |s|
  {
    if s != "" && IsDigit(s[0]) then DigitsValue(s[1..], Int32(n * 10 + (s[0] as int - '0' as int))) else n
  }

  function Atoi(text: string): int {
    var s := SkipSpaces(text);
    if s != "" && s[0] == '-' then Int32(-DigitsValue(s[1..], 0))
    else if s != "" && s[0] == '+' then DigitsValue(s[1..], 0)
    else DigitsValue(s, 0)
  }

  /** Blanks, tabs, newlines, carriage returns, vertical tabs and form feeds. */
  predicate AllSpaces(spaces: string) {
    forall i :: 0 <= i < |spaces| ==> spaces[i] == ' ' || 9 <= spaces[i] as int <= 13
  }

  lemma {:induction false} SkipsSpaces(spaces: string, rest: string)
    requires AllSpaces(spaces)
    requires rest != "" && !IsSpace(rest[0])
    ensures SkipSpaces(spaces + rest) == rest
  {
    if spaces == "" {
      assert spaces + rest == rest;
    } else {
      assert (spaces + rest)[1..] == spaces[1..] + rest;
      SkipsSpaces(spaces[1..], rest);
    }
  }

  /** The last digit read, with n / 10 in front of it. */
  lemma LastDigit(n: nat, rest: string)
    requires n < 0x8000_0000
    ensures DigitsValue([DigitChar(n % 10)] + rest, n / 10) == DigitsValue(rest, n)
  {
    var c := DigitChar(n % 10);
    assert ([c] + rest)[1..] == rest;
    assert c as int == '0' as int + n % 10;
  }

  lemma {:induction false} ReadsDigits(n: nat, rest: string)
    requires n < 0x8000_0000
    ensures DigitsValue(Digits(n) + rest, 0) == DigitsValue(rest, n)
  {
    var tens, last := n / 10, [DigitChar(n % 10)];
    LastDigit(n, rest);
    DigitsSplit(n);
    hide DigitsValue, Digits, DigitChar;
    if n >= 10 {
      ReadsDigits(tens, last + rest);
      Associative(Digits(tens), last, rest);
    }
  }

  /** The least number: its last digit makes the sum wrap around, and its sign as well. */
  lemma ReadsLeast(n: nat, rest: string)
    requires n == 0x8000_0000 && (rest == "" || !IsDigit(rest[0]))
    ensures DigitsValue(Digits(n) + rest, 0) == -0x8000_0000
  {
    var tens, last := n / 10, [DigitChar(n % 10)];
    ReadsDigits(tens, last + rest);
    Associative(Digits(tens), last, rest);
    LastWraps(tens, n % 10, rest);
  }

  lemma LastWraps(tens: nat, k: nat, rest: string)
    requires tens * 10 + k == 0x8000_0000 && k < 10 && (rest == "" || !IsDigit(rest[0]))
    ensures DigitsValue([DigitChar(k)] + rest, tens) == -0x8000_0000
  {
    assert ([DigitChar(k)] + rest)[1..] == rest;
    assert DigitChar(k) as int == '0' as int + k;
    assert DigitsValue(rest, -0x8000_0000) == -0x8000_0000;
  }

  lemma AtoiOf(spaces: string, sign: string, text: string)
    requires AllSpaces(spaces)
    requires text != "" && IsDigit(text[0]) && (sign == "" || sign == "-" || sign == "+")
    ensures Atoi(spaces + (sign + text)) == if sign == "-" then Int32(-DigitsValue(text, 0)) else DigitsValue(text, 0)
  {
    hide DigitsValue;
    SkipsSpaces(spaces, sign + text);
    if sign == "" {
      assert sign + text == text;
    } else {
      assert (sign + text)[0] == sign[0] && (sign + text)[1..] == text;
    }
  }

  lemma ReadsNothing(rest: string, n: int)
    requires rest == "" || !IsDigit(rest[0])
    ensures DigitsValue(rest, n) == n
  {
  }

  lemma ReadsSize(m: nat, rest: string)
    requires m <= 0x8000_0000 && (rest == "" || !IsDigit(rest[0]))
    ensures var text := Digits(m) + rest; text != "" && IsDigit(text[0])
    ensures DigitsValue(Digits(m) + rest, 0) == if m == 0x8000_0000 then -0x8000_0000 else m
  {
    DigitsGiveNumber(m);
    assert (Digits(m) + rest)[0] in Digits(m);
    if m == 0x8000_0000 {
      ReadsLeast(m, rest);
    } else {
      ReadsDigits(m, rest);
      ReadsNothing(rest, m);
    }
  }

  lemma Negated(m: nat)
    requires m <= 0x8000_0000
    ensures Int32(-(if m == 0x8000_0000 then -0x8000_0000 else m as int)) == -(m as int)
  {
  }

  lemma AtoiMinus(spaces: string, m: nat, rest: string)
    requires AllSpaces(spaces) && m <= 0x8000_0000 && (rest == "" || !IsDigit(rest[0]))
    ensures Atoi(spaces + ("-" + (Digits(m) + rest))) == -(m as int)
  {
    ReadsSize(m, rest);
    Negated(m);
    hide Digits, DigitsValue, Int32, Atoi, AllSpaces;
    AtoiOf(spaces, "-", Digits(m) + rest);
  }

  lemma AtoiPlus(spaces: string, plus: string, m: nat, rest: string)
    requires AllSpaces(spaces) && m < 0x8000_0000 && (rest == "" || !IsDigit(rest[0]))
    requires plus == "" || plus == "+"
    ensures Atoi(spaces + (plus + (Digits(m) + rest))) == m
  {
    ReadsSize(m, rest);
    hide Digits, DigitsValue, Atoi, AllSpaces;
    AtoiOf(spaces, plus, Digits(m) + rest);
  }

  /** atoi reads back what was printed, behind blanks and in front of anything that is no
      digit, for every 32-bit number. */
  lemma AtoiReads(spaces: string, n: int, rest: string)
    requires AllSpaces(spaces)
    requires -0x8000_0000 <= n < 0x8000_0000 && (rest == "" || !IsDigit(rest[0]))
    ensures Atoi(spaces + (Decimal(n) + rest)) == n
    ensures n >= 0 ==> Atoi(spaces + ("+" + (Decimal(n) + rest))) == n
  {
    hide Atoi, Digits, AllSpaces;
    if n < 0 {
      AtoiMinus(spaces, -n, rest);
      Associative("-", Digits(-n), rest);
    } else {
      AtoiPlus(spaces, "", n, rest);
      AtoiPlus(spaces, "+", n, rest);
      PlusNothing(Digits(n) + rest);
    }
  }

  // ----- the order of a flag combination

  datatype Flags = Flags(rev: bool, num: bool)

  function CmpStrNum(x: string, y: string): int {
    if Atoi(x) < Atoi(y) then -1
    else if Atoi(x) > Atoi(y) then 1
    else Strcmp(x, y)
  }

  function Cmp(f: Flags, x: string, y: string): int {
    var c := if f.num then CmpStrNum(x, y) else Strcmp(x, y);
    if f.rev then -c else c
  }

  predicate Leq(f: Flags, x: string, y: string) {
    Cmp(f, x, y) <= 0
  }

  /** For every flag combination the comparison is a total order on C strings: any two
      are comparable, only equal strings tie, and it is transitive. */
  lemma TotalOrder(f: Flags, x: string, y: string, z: string)
    requires NoNuls(x) && NoNuls(y)
    ensures Leq(f, x, y) || Leq(f, y, x)
    ensures Leq(f, x, y) && Leq(f, y, x) <==> x == y
    ensures Cmp(f, x, y) < 0 <==> !Leq(f, y, x)
    ensures Leq(f, x, y) && Leq(f, y, z) ==> Leq(f, x, z)
  {
    CompareSwap(x, y, 0);
    CompareZero(x, y, 0);
    Transitive(f, x, y, z);
  }

  lemma Transitive(f: Flags, x: string, y: string, z: string)
    ensures Leq(f, x, y) && Leq(f, y, z) ==> Leq(f, x, z)
  {
    CompareSwap(x, y, 0);
    CompareSwap(y, z, 0);
    CompareSwap(x, z, 0);
    if Strcmp(x, y) <= 0 && Strcmp(y, z) <= 0 {
      CompareChain(x, y, z, 0);
    }
    if Strcmp(z, y) <= 0 && Strcmp(y, x) <= 0 {
      CompareChain(z, y, x, 0);
    }
  }

  /** What the flags ask for: -n goes by the numbers first, -r turns everything around. */
  ghost predicate Before(f: Flags, x: string, y: string)
    decreases f.rev
  {
    if f.rev then Before(f.(rev := false), y, x)
    else if f.num && Atoi(x) != Atoi(y) then Atoi(x) < Atoi(y)
    else Precedes(x, y)
  }

  lemma CmpMeans(f: Flags, x: string, y: string)
    requires NoNuls(x) && NoNuls(y)
    ensures Cmp(f, x, y) < 0 <==> Before(f, x, y)
  {
    StrcmpMeans(x, y);
    StrcmpMeans(y, x);
    CompareSwap(x, y, 0);
  }

  type Order = (string, string) -> int

  /** The comparison the flags select. */
  function By(f: Flags): Order {
    (x: string, y: string) => Cmp(f, x, y)
  }

  // ----- insertion sort

  function Insert(cmp: Order, sorted: seq<string>, key: string): seq<string> {
    if sorted == [] then [key]
    else
      var last := sorted[|sorted| - 1];
      if cmp(key, last) < 0 then Insert(cmp, sorted[..|sorted| - 1], key) + [last] else sorted + [key]
  }

  function Sorted(cmp: Order, lines: seq<string>): seq<string> {
    if lines == [] then [] else Insert(cmp, Sorted(cmp, lines[..|lines| - 1]), lines[|lines| - 1])
  }

  ghost predicate InOrder(f: Flags, lines: seq<string>) {
    forall i, j :: 0 <= i < j < |lines| ==> Leq(f, lines[i], lines[j])
  }

  ghost predicate CLines(lines: seq<string>) {
    forall k :: 0 <= k < |lines| ==> NoNuls(lines[k])
  }

  lemma {:induction false} InsertKeeps(cmp: Order, sorted: seq<string>, key: string)
    ensures multiset(Insert(cmp, sorted, key)) == multiset(sorted) + multiset{key}
  {
    if sorted != [] {
      var front, last := sorted[..|sorted| - 1], sorted[|sorted| - 1];
      assert sorted == front + [last];
      InsertKeeps(cmp, front, key);
    }
  }

  lemma {:induction false} SortedKeeps(cmp: Order, lines: seq<string>)
    ensures multiset(Sorted(cmp, lines)) == multiset(lines)
  {
    if lines != [] {
      var front, last := lines[..|lines| - 1], lines[|lines| - 1];
      assert lines == front + [last];
      SortedKeeps(cmp, front);
      InsertKeeps(cmp, Sorted(cmp, front), last);
    }
  }

  lemma SameLines(xs: seq<string>, ys: seq<string>, line: string)
    requires multiset(xs) == multiset(ys)
    ensures line in xs <==> line in ys
  {
    assert line in xs <==> line in multiset(xs);
    assert line in ys <==> line in multiset(ys);
  }

  lemma {:induction false} InsertInOrder(f: Flags, sorted: seq<string>, key: string)
    requires InOrder(f, sorted) && CLines(sorted) && NoNuls(key)
    ensures InOrder(f, Insert(By(f), sorted, key))
  {
    if sorted != [] {
      var front, last := sorted[..|sorted| - 1], sorted[|sorted| - 1];
      TotalOrder(f, key, last, last);
      if Cmp(f, key, last) < 0 {
        InsertInOrder(f, front, key);
        InsertKeeps(By(f), front, key);
        var r := Insert(By(f), front, key);
        forall i | 0 <= i < |r|
          ensures Leq(f, r[i], last)
        {
          SameLines(r, front + [key], r[i]);
        }
      } else {
        forall i | 0 <= i < |sorted|
          ensures Leq(f, sorted[i], key)
        {
          TotalOrder(f, sorted[i], last, key);
        }
      }
    }
  }

  lemma {:induction false} SortedInOrder(f: Flags, lines: seq<string>)
    requires CLines(lines)
    ensures InOrder(f, Sorted(By(f), lines)) && CLines(Sorted(By(f), lines))
  {
    if lines != [] {
      var front, last := lines[..|lines| - 1], lines[|lines| - 1];
      SortedInOrder(f, front);
      InsertInOrder(f, Sorted(By(f), front), last);
    }
    SortedKeeps(By(f), lines);
    forall k | 0 <= k < |Sorted(By(f), lines)|
      ensures NoNuls(Sorted(By(f), lines)[k])
    {
      SameLines(Sorted(By(f), lines), lines, Sorted(By(f), lines)[k]);
    }
  }

  /** Any two of the sorted lines are equal or stand in the order asked for. */
  lemma SortedAscends(f: Flags, lines: seq<string>, i: nat, j: nat)
    requires CLines(lines) && i < j < |lines|
    ensures var sorted := Sorted(By(f), lines);
      |sorted| == |lines| && (sorted[i] == sorted[j] || Before(f, sorted[i], sorted[j]))
  {
    SortedLength(By(f), lines);
    SortedInOrder(f, lines);
    var x, y := Sorted(By(f), lines)[i], Sorted(By(f), lines)[j];
    TotalOrder(f, x, y, y);
    CmpMeans(f, x, y);
  }

  lemma TailLines(xs: seq<string>)
    requires xs != []
    ensures multiset(xs[1..]) == multiset(xs) - multiset{xs[0]}
  {
    assert xs == [xs[0]] + xs[1..];
  }

  /** There is only one ordered arrangement of the same lines. */
  lemma {:induction false} OnlyOneOrder(f: Flags, xs: seq<string>, ys: seq<string>)
    requires InOrder(f, xs) && InOrder(f, ys) && CLines(xs) && CLines(ys)
    requires multiset(xs) == multiset(ys)
    ensures xs == ys
  {
    if xs == [] {
      assert |multiset(ys)| == 0;
    } else {
      SameLines(xs, ys, xs[0]);
      SameLines(xs, ys, ys[0]);
      TotalOrder(f, xs[0], ys[0], xs[0]);
      TailLines(xs);
      TailLines(ys);
      OnlyOneOrder(f, xs[1..], ys[1..]);
    }
  }

  /** The key goes in front of the last run of greater lines. */
  lemma {:induction false} InsertAt(cmp: Order, front: seq<string>, n: nat, key: string)
    requires n <= |front|
    requires forall k :: n <= k < |front| ==> cmp(key, front[k]) < 0
    requires n > 0 ==> cmp(key, front[n - 1]) >= 0
    ensures Insert(cmp, front, key) == front[..n] + [key] + front[n..]
  {
    if n < |front| {
      var shorter := front[..|front| - 1];
      InsertAt(cmp, shorter, n, key);
      assert shorter[..n] == front[..n] && shorter[n..] + [front[|front| - 1]] == front[n..];
    } else {
      assert front[..n] == front && front[n..] == [];
    }
  }

  lemma Assemble(all: seq<string>, front: seq<string>, n: nat, key: string, rest: seq<string>)
    requires n <= |front| && |all| == |front| + 1 + |rest|
    requires forall k {:trigger all[k]} :: 0 <= k < n ==> all[k] == front[k]
    requires all[n] == key
    requires forall k {:trigger all[k]} :: n < k <= |front| ==> all[k] == front[k - 1]
    requires forall k {:trigger all[k]} :: |front| < k < |all| ==> all[k] == rest[k - |front| - 1]
    ensures all == front[..n] + [key] + front[n..] + rest
  {
  }

  /** Down to j + 2 the greater lines have moved up by one; the slot j + 1 is free. */
  ghost predicate Moved(lines: seq<string>, before: seq<string>, i: nat, j: int, cmp: Order) {
    && |lines| == |before| && -1 <= j < i < |lines|
    && (forall k {:trigger lines[k]} :: 0 <= k <= j || i < k < |lines| ==> lines[k] == before[k])
    && (forall k {:trigger lines[k]} :: j + 2 <= k <= i ==>
          lines[k] == before[k - 1] && cmp(before[i], before[k - 1]) < 0)
  }

  lemma MoveOne(lines: seq<string>, before: seq<string>, i: nat, j: nat, cmp: Order, after: seq<string>)
    requires Moved(lines, before, i, j, cmp) && cmp(before[i], lines[j]) < 0 && after == lines[j + 1 := lines[j]]
    ensures Moved(after, before, i, j - 1, cmp)
  {
    forall k {:trigger after[k]} | j + 1 <= k <= i
      ensures after[k] == before[k - 1] && cmp(before[i], before[k - 1]) < 0
    {
      assert k > j + 1 ==> after[k] == lines[k];
    }
  }

  /** The loop of src/cmds.c:397-402: greater lines move up by one, until the slot for
      the key is free. */
  method ShiftGreater(lines: array<string>, i: nat, cmp: Order) returns (slot: nat)
    requires 1 <= i < lines.Length
    modifies lines
    ensures slot <= i && Moved(lines[..], old(lines[..]), i, slot - 1, cmp)
    ensures slot > 0 ==> cmp(old(lines[i]), old(lines[slot - 1])) >= 0
  {
    ghost var before := lines[..];
    var key := lines[i];
    var j := i - 1;
    while j >= 0
      invariant Moved(lines[..], before, i, j, cmp)
    {
      var c := cmp(key, lines[j]);
      if c >= 0 {
        assert lines[..][j] == before[j];
        break;
      }
      MoveOne(lines[..], before, i, j, cmp, lines[..][j + 1 := lines[j]]);
      lines[j + 1] := lines[j];
      j := j - 1;
    }
    slot := j + 1;
  }

  /** One round of src/cmds.c:394-404. */
  method InsertLine(lines: array<string>, i: nat, cmp: Order)
    requires 1 <= i < lines.Length
    modifies lines
    ensures lines[..] == Insert(cmp, old(lines[..i]), old(lines[i])) + old(lines[i + 1..])
  {
    ghost var front, rest := lines[..i], lines[i + 1..];
    var key := lines[i];
    var slot := ShiftGreater(lines, i, cmp);
    lines[slot] := key;
    forall k | slot <= k < |front|
      ensures cmp(key, front[k]) < 0
    {
      assert lines[k + 1] == front[k];
    }
    InsertAt(cmp, front, slot, key);
    Assemble(lines[..], front, slot, key, rest);
  }

  lemma SortedNext(cmp: Order, all: seq<string>, i: nat)
    requires i < |all|
    ensures Sorted(cmp, all[..i + 1]) == Insert(cmp, Sorted(cmp, all[..i]), all[i])
  {
    assert all[..i + 1][..i] == all[..i];
  }

  lemma SortedLength(cmp: Order, lines: seq<string>)
    ensures |Sorted(cmp, lines)| == |lines|
  {
    SortedKeeps(cmp, lines);
    assert |multiset(Sorted(cmp, lines))| == |multiset(lines)|;
  }

  /** Insertion sort in place. */
  method SortLines(lines: array<string>, lc: nat, cmp: Order)
    requires lc <= lines.Length
    modifies lines
    ensures lines[..] == Sorted(cmp, old(lines[..lc])) + old(lines[lc..])
  {
    ghost var all := lines[..];
    if lc == 0 {
      return;
    }
    SortedNext(cmp, all, 0);
    for i := 1 to lc
      invariant lines[..] == Sorted(cmp, all[..i]) + all[i..]
    {
      SortedLength(cmp, all[..i]);
      assert lines[..i] == Sorted(cmp, all[..i]) && lines[i] == all[i] && lines[i + 1..] == all[i + 1..];
      InsertLine(lines, i, cmp);
      SortedNext(cmp, all, i);
    }
  }

  // ----- runs of equal lines

  datatype Run = Run(count: nat, line: string)

  function AddLine(runs: seq<Run>, line: string): seq<Run> {
    if runs != [] && runs[|runs| - 1].line == line then
      runs[..|runs| - 1] + [Run(runs[|runs| - 1].count + 1, line)]
    else runs + [Run(1, line)]
  }

  function Runs(lines: seq<string>): seq<Run> {
    if lines == [] then [] else AddLine(Runs(lines[..|lines| - 1]), lines[|lines| - 1])
  }

  function Heads(runs: seq<Run>): seq<string> {
    seq(|runs|, k requires 0 <= k < |runs| => runs[k].line)
  }

  function Repeat(line: string, count: nat): seq<string> {
    seq(count, _ => line)
  }

  function Expand(runs: seq<Run>): seq<string> {
    if runs == [] then []
    else Expand(runs[..|runs| - 1]) + Repeat(runs[|runs| - 1].line, runs[|runs| - 1].count)
  }

  lemma ExpandSnoc(runs: seq<Run>, run: Run)
    ensures Expand(runs + [run]) == Expand(runs) + Repeat(run.line, run.count)
  {
    assert (runs + [run])[..|runs|] == runs;
  }

  /** Runs that cannot be joined, and none of them empty. */
  ghost predicate Maximal(runs: seq<Run>) {
    && (forall k :: 0 <= k < |runs| ==> runs[k].count > 0)
    && (forall k :: 0 < k < |runs| ==> runs[k - 1].line != runs[k].line)
  }

  lemma ExpandAddLine(runs: seq<Run>, line: string)
    ensures Expand(AddLine(runs, line)) == Expand(runs) + [line]
  {
    if runs != [] && runs[|runs| - 1].line == line {
      var front, n := runs[..|runs| - 1], runs[|runs| - 1].count;
      assert runs == front + [Run(n, line)];
      ExpandSnoc(front, Run(n, line));
      ExpandSnoc(front, Run(n + 1, line));
      assert Repeat(line, n + 1) == Repeat(line, n) + [line];
    } else {
      ExpandSnoc(runs, Run(1, line));
      assert Repeat(line, 1) == [line];
    }
  }

  lemma MaximalAddLine(runs: seq<Run>, line: string)
    requires Maximal(runs)
    ensures Maximal(AddLine(runs, line))
  {
  }

  lemma RunsSnoc(front: seq<string>, last: string)
    ensures Runs(front + [last]) == AddLine(Runs(front), last)
  {
    Parts(front, [last]);
  }

  /** The runs are the run-length encoding of the lines. */
  lemma {:induction false} RunsEncode(lines: seq<string>)
    ensures Expand(Runs(lines)) == lines && Maximal(Runs(lines))
  {
    if lines != [] {
      var front, last := lines[..|lines| - 1], lines[|lines| - 1];
      assert lines == front + [last];
      RunsEncode(front);
      RunsSnoc(front, last);
      hide Runs, AddLine, Expand, Maximal;
      ExpandAddLine(Runs(front), last);
      MaximalAddLine(Runs(front), last);
    }
  }

  lemma RunsNext(all: seq<string>, i: nat)
    requires i < |all|
    ensures Runs(all[..i + 1]) == AddLine(Runs(all[..i]), all[i])
    ensures var runs := Runs(all[..i + 1]); runs != [] && runs[|runs| - 1].line == all[i]
  {
    assert all[..i + 1][..i] == all[..i];
  }

  lemma HeadsAddLine(runs: seq<Run>, line: string)
    ensures Heads(AddLine(runs, line)) ==
      if runs != [] && runs[|runs| - 1].line == line then Heads(runs) else Heads(runs) + [line]
  {
    if runs != [] && runs[|runs| - 1].line == line {
      assert Heads(AddLine(runs, line)) == Heads(runs);
    } else {
      assert Heads(AddLine(runs, line)) == Heads(runs) + [line];
    }
  }

  ghost predicate Strict(f: Flags, lines: seq<string>) {
    forall i, j :: 0 <= i < j < |lines| ==> Leq(f, lines[i], lines[j]) && lines[i] != lines[j]
  }

  /** A line before a strictly greater neighbour pair is below the greater one. */
  lemma NotAfter(f: Flags, lines: seq<string>, n: nat, line: string)
    requires 0 < n < |lines| && InOrder(f, lines) && CLines(lines)
    requires line in lines[..n] && lines[n - 1] != lines[n]
    ensures Leq(f, line, lines[n]) && line != lines[n]
  {
    var k :| 0 <= k < n && lines[k] == line;
    TotalOrder(f, lines[n - 1], lines[n], lines[n]);
    if k < n - 1 {
      assert Leq(f, lines[k], lines[n - 1]);
    }
  }

  lemma SeenBefore(lines: seq<string>, n: nat)
    requires 1 < n <= |lines| && lines[n - 2] == lines[n - 1]
    ensures lines[n - 1] in lines[..n - 1]
  {
    assert lines[..n - 1][n - 2] == lines[n - 1];
  }

  lemma {:induction false} HeadsMembers(lines: seq<string>, n: nat, line: string)
    requires n <= |lines|
    ensures line in Heads(Runs(lines[..n])) <==> line in lines[..n]
  {
    if n > 0 {
      HeadsMembers(lines, n - 1, line);
      HeadsNext(lines, n - 1);
      TakeMore(lines, n - 1);
      hide Heads, Runs;
      if n > 1 && lines[n - 2] == lines[n - 1] {
        SeenBefore(lines, n);
      }
    }
  }

  lemma HeadsNext(lines: seq<string>, i: nat)
    requires i < |lines|
    ensures Heads(Runs(lines[..i + 1])) ==
      if i > 0 && lines[i - 1] == lines[i] then Heads(Runs(lines[..i])) else Heads(Runs(lines[..i])) + [lines[i]]
  {
    RunsNext(lines, i);
    HeadsAddLine(Runs(lines[..i]), lines[i]);
    if i > 0 {
      RunsNext(lines, i - 1);
    }
  }

  lemma StrictSnoc(f: Flags, heads: seq<string>, last: string)
    requires Strict(f, heads)
    requires forall k :: 0 <= k < |heads| ==> Leq(f, heads[k], last) && heads[k] != last
    ensures Strict(f, heads + [last])
  {
    hide Leq;
  }

  lemma HeadsBefore(f: Flags, lines: seq<string>, n: nat, heads: seq<string>)
    requires 0 < n < |lines| && InOrder(f, lines) && CLines(lines) && lines[n - 1] != lines[n]
    requires heads == Heads(Runs(lines[..n]))
    ensures forall k :: 0 <= k < |heads| ==> Leq(f, heads[k], lines[n]) && heads[k] != lines[n]
  {
    hide Leq, InOrder, CLines;
    forall k | 0 <= k < |heads|
      ensures Leq(f, heads[k], lines[n]) && heads[k] != lines[n]
    {
      HeadsMembers(lines, n, heads[k]);
      NotAfter(f, lines, n, heads[k]);
    }
  }

  /** In an ordered list equal lines are adjacent, so the heads of the runs are
      strictly ordered: every line once. */
  lemma {:induction false} HeadsStrict(f: Flags, lines: seq<string>, n: nat)
    requires n <= |lines| && InOrder(f, lines) && CLines(lines)
    ensures Strict(f, Heads(Runs(lines[..n])))
  {
    if n > 0 {
      var heads := Heads(Runs(lines[..n - 1]));
      HeadsStrict(f, lines, n - 1);
      HeadsNext(lines, n - 1);
      if n == 1 {
        assert heads == [];
        StrictSnoc(f, heads, lines[0]);
      } else if lines[n - 2] != lines[n - 1] {
        HeadsBefore(f, lines, n - 1, heads);
        StrictSnoc(f, heads, lines[n - 1]);
      }
    }
  }

  /** What `sort` prints: the lines of its input, all of them or with -u each once, in the
      order asked for. */
  lemma SortOutput(data: string, f: Flags, uniq: bool)
    requires CLines(Split(data))
    ensures var out := Split(SortText(data, f, uniq));
      && (forall line :: line in out <==> line in Split(data))
      && (!uniq ==> multiset(out) == multiset(Split(data)))
      && (forall i, j :: 0 <= i < j < |out| ==> (!uniq && out[i] == out[j]) || Before(f, out[i], out[j]))
  {
    var all := Split(data);
    var lines := Sorted(By(f), all);
    var out := Kept(lines, uniq);
    SplitThenPrint(data);
    SortedKeeps(By(f), all);
    SortedInOrder(f, all);
    HeadsStrict(f, lines, |lines|);
    assert lines[..|lines|] == lines;
    forall line
      ensures (line in lines <==> line in all) && (line in out <==> line in lines)
    {
      SameLines(lines, all, line);
      HeadsMembers(lines, |lines|, line);
    }
    forall i, j | 0 <= i < j < |out|
      ensures (!uniq && out[i] == out[j]) || Before(f, out[i], out[j])
    {
      assert out[i] in lines && out[j] in lines;
      TotalOrder(f, out[i], out[j], out[j]);
      CmpMeans(f, out[i], out[j]);
    }
    forall k | 0 <= k < |out|
      ensures '\n' !in out[k]
    {
      assert out[k] in all;
    }
    PrintThenSplit(out);
  }

  // ----- the commands

  function SortText(data: string, f: Flags, uniq: bool): string {
    Unlines(Kept(Sorted(By(f), Split(data)), uniq))
  }

  /** The lines `sort` prints of the sorted ones: with -u one of every run. */
  function Kept(lines: seq<string>, uniq: bool): seq<string> {
    if uniq then Heads(Runs(lines)) else lines
  }

  lemma KeptNext(lines: seq<string>, i: nat, uniq: bool)
    requires i < |lines|
    ensures Kept(lines[..i + 1], uniq) ==
      if uniq && i > 0 && lines[i - 1] == lines[i] then Kept(lines[..i], uniq) else Kept(lines[..i], uniq) + [lines[i]]
  {
    HeadsNext(lines, i);
  }

  /** A run as `uniq` prints it: with -c the count comes first, "%7d ". */
  function RunText(run: Run, count: bool): string {
    (if count then PadLeft(Decimal(run.count), 7) + " " else "") + run.line + "\n"
  }

  /** With -c: the decimal count, right in seven columns, a blank, and the line. */
  lemma CountedLine(run: Run, blanks: string)
    requires AllBlank(blanks)
    requires |blanks| == if |Digits(run.count)| < 7 then 7 - |Digits(run.count)| else 0
    ensures RunText(run, true) == blanks + Digits(run.count) + " " + run.line + "\n"
    ensures NumberOf(Digits(run.count)) == run.count
    ensures RunText(run, false) == run.line + "\n"
  {
    DigitsGiveNumber(run.count);
    PadLeftIs(blanks, Digits(run.count), 7);
    assert "" + run.line == run.line;
  }

  function RunTexts(runs: seq<Run>, count: bool): seq<string> {
    seq(|runs|, k requires 0 <= k < |runs| => RunText(runs[k], count))
  }

  function UniqText(data: string, count: bool): string {
    Concat(RunTexts(Runs(Split(data)), count))
  }

  lemma RunTextsSnoc(runs: seq<Run>, run: Run, count: bool)
    ensures Concat(RunTexts(runs + [run], count)) == Concat(RunTexts(runs, count)) + RunText(run, count)
  {
    assert RunTexts(runs + [run], count) == RunTexts(runs, count) + [RunText(run, count)];
    ConcatSnoc(RunTexts(runs, count), RunText(run, count));
  }

  method SortData(data: string, f: Flags, uniq: bool) returns (out: string)
    ensures out == SortText(data, f, uniq)
  {
    var lines, lc := SplitLines(data);
    SortLines(lines, lc, By(f));
    SortedLength(By(f), Split(data));
    assert lines[..lc] == Sorted(By(f), Split(data));
    out := PrintSorted(lines[..lc], uniq);
  }

  /** src/cmds.c:405-411 */
  method PrintSorted(lines: seq<string>, uniq: bool) returns (out: string)
    ensures out == Unlines(Kept(lines, uniq))
  {
    out := "";
    var prev, started := "", false;
    assert lines[..0] == [];
    for i := 0 to |lines|
      invariant started == (i > 0) && (i > 0 ==> prev == lines[i - 1])
      invariant out == Unlines(Kept(lines[..i], uniq))
    {
      KeptNext(lines, i, uniq);
      if uniq && started && prev == lines[i] {
        continue;
      }
      UnlinesSnoc(Kept(lines[..i], uniq), lines[i]);
      out := out + lines[i] + "\n";
      prev, started := lines[i], true;
    }
    assert lines[..|lines|] == lines;
  }

  method UniqData(data: string, count: bool) returns (out: string)
    ensures out == UniqText(data, count)
  {
    var lines, lc := SplitLines(data);
    out := PrintRuns(lines[..lc], count);
  }

  /** `printed` is what the runs up to i are without the open one of `run` lines. */
  ghost predicate OpenRun(lines: seq<string>, i: nat, printed: seq<Run>, run: nat)
    requires i <= |lines|
  {
    if run == 0 then printed == Runs(lines[..i]) && (0 < i < |lines| ==> lines[i - 1] != lines[i])
    else 0 < i < |lines| && lines[i - 1] == lines[i] && Runs(lines[..i]) == printed + [Run(run, lines[i])]
  }

  /** The open run takes one line more. */
  lemma TakeLine(before: seq<Run>, printed: seq<Run>, run: nat, line: string)
    requires run > 0 ==> before == printed + [Run(run, line)]
    requires run == 0 ==> before == printed && (before != [] ==> before[|before| - 1].line != line)
    ensures AddLine(before, line) == printed + [Run(run + 1, line)]
  {
    if run > 0 {
      Parts(printed, [Run(run, line)]);
    }
  }

  lemma LastLine(lines: seq<string>, i: nat)
    requires i <= |lines|
    ensures var runs := Runs(lines[..i]);
      if i == 0 then runs == [] else runs != [] && runs[|runs| - 1].line == lines[i - 1]
  {
    if i > 0 {
      RunsNext(lines, i - 1);
    }
  }

  lemma OneMore(lines: seq<string>, i: nat, printed: seq<Run>, run: nat)
    requires i < |lines| && OpenRun(lines, i, printed, run)
    ensures Runs(lines[..i + 1]) == printed + [Run(run + 1, lines[i])]
  {
    hide AddLine, Runs;
    RunsNext(lines, i);
    LastLine(lines, i);
    TakeLine(Runs(lines[..i]), printed, run, lines[i]);
  }

  /** The run of line i ends and is printed. */
  lemma PrintRun(printed: seq<Run>, run: Run, count: bool, out: string, text: string)
    requires out == Concat(RunTexts(printed, count)) && text == RunText(run, count)
    ensures out + text == Concat(RunTexts(printed + [run], count))
  {
    RunTextsSnoc(printed, run, count);
  }

  /** src/cmds.c:427-435 */
  method PrintRuns(lines: seq<string>, count: bool) returns (out: string)
    ensures out == Concat(RunTexts(Runs(lines), count))
  {
    var run: nat := 0;
    out := "";
    ghost var printed: seq<Run> := [];
    for i := 0 to |lines|
      invariant OpenRun(lines, i, printed, run)
      invariant out == Concat(RunTexts(printed, count))
    {
      OneMore(lines, i, printed, run);
      run := run + 1;
      if i + 1 < |lines| && lines[i] == lines[i + 1] {
        continue;
      }
      var text := (if count then PadLeft(Decimal(run), 7) + " " else "") + lines[i] + "\n";
      PrintRun(printed, Run(run, lines[i]), count, out, text);
      out := out + text;
      printed := printed + [Run(run, lines[i])];
      run := 0;
    }
    assert lines[..|lines|] == lines;
  }

  /** `sort -u` and `sort | uniq` print the same, as long as the sorted text fits in
      the pipe. */
  lemma SortThenUniq(data: string, f: Flags)
    requires |SortText(data, f, false)| <= PIPE_MAX
    ensures UniqText(ThroughPipe(SortText(data, f, false)), false) == SortText(data, f, true)
  {
    var lines := Sorted(By(f), Split(data));
    SplitThenPrint(data);
    SortedKeeps(By(f), Split(data));
    forall k | 0 <= k < |lines|
      ensures '\n' !in lines[k]
    {
      SameLines(lines, Split(data), lines[k]);
    }
    PrintThenSplit(lines);
    HeadsText(Runs(lines));
  }

  lemma {:induction false} HeadsText(runs: seq<Run>)
    ensures Concat(RunTexts(runs, false)) == Unlines(Heads(runs))
  {
    if runs != [] {
      var front, last := runs[..|runs| - 1], runs[|runs| - 1];
      HeadsText(front);
      assert runs == front + [last];
      RunTextsSnoc(front, last, false);
      assert Heads(runs) == Heads(front) + [last.line];
      assert RunText(last, false) == last.line + "\n";
      UnlinesSnoc(Heads(front), last.line);
    }
  }

  // ----- the commands

  /** A dash and something behind it. */
  predicate IsOption(arg: string) {
    |arg| >= 2 && arg[0] == '-'
  }

  /** The first argument from i on that is not an option. */
  function FirstOperand(args: seq<string>, i: nat): (idx: nat)
    requires i <= |args|
    ensures i <= idx <= |args| && (idx < |args| ==> !IsOption(args[idx]))
    ensures forall k :: i <= k < idx ==> IsOption(args[k])
    decreases |args| - i
  {
    if i < |args| && IsOption(args[i]) then FirstOperand(args, i + 1) else i
  }

  function Letters(arg: string): string {
    if arg == "" then "" else arg[1..]
  }

  /** One of the first n arguments has this letter behind its dash. */
  predicate HasFlag(args: seq<string>, n: nat, letter: char)
    requires n <= |args|
  {
    exists k :: 0 <= k < n && letter in Letters(args[k])
  }

  method AddLetters(arg: string, letters: set<char>) returns (more: set<char>)
    requires IsOption(arg)
    ensures forall c :: c in more <==> c in letters || c in Letters(arg)
  {
    more := letters;
    var text := Letters(arg);
    for i := 0 to |text|
      invariant forall c :: c in more <==> c in letters || c in text[..i]
    {
      TakeMore(text, i);
      more := more + {text[i]};
    }
    assert text[..|text|] == text;
  }

  /** src/cmds.c:381-388 and 418-421: the letters of all options, and where they end. */
  method ReadFlags(args: seq<string>) returns (idx: nat, letters: set<char>)
    ensures idx == FirstOperand(args, 0) && forall c :: c in letters <==> HasFlag(args, idx, c)
  {
    idx, letters := 0, {};
    while idx < |args| && IsOption(args[idx])
      invariant idx <= |args| && FirstOperand(args, idx) == FirstOperand(args, 0)
      invariant forall c :: c in letters <==> HasFlag(args, idx, c)
      decreases |args| - idx
    {
      ghost var before := letters;
      letters := AddLetters(args[idx], letters);
      forall c
        ensures HasFlag(args, idx + 1, c) <==> c in before || c in Letters(args[idx])
      {
        assert c in before <==> HasFlag(args, idx, c);
      }
      idx := idx + 1;
    }
  }

  /** Standard input without an operand, else the file of that name. */
  function OpenInput(args: seq<string>, stdin: string, files: map<string, string>): Opened {
    var idx := FirstOperand(args, 0);
    if idx == |args| then Text(stdin) else OpenFile(args[idx], files)
  }

  /** `sort`, on the arguments behind its name. */
  method CmdSort(args: seq<string>, stdin: string, files: map<string, string>) returns (out: string, rc: int)
    ensures var n := FirstOperand(args, 0);
      match OpenInput(args, stdin, files)
      case NoFile(name) => rc == 2 && out == NoSuchFile(name)
      case Text(data) =>
        rc == 0 && out == SortText(data, Flags(HasFlag(args, n, 'r'), HasFlag(args, n, 'n')), HasFlag(args, n, 'u'))
  {
    var idx, letters := ReadFlags(args);
    match OpenInput(args, stdin, files) {
      case NoFile(name) => return NoSuchFile(name), 2;
      case Text(data) =>
        out := SortData(data, Flags('r' in letters, 'n' in letters), 'u' in letters);
        rc := 0;
    }
  }

  /** `uniq`, on the arguments behind its name. */
  method CmdUniq(args: seq<string>, stdin: string, files: map<string, string>) returns (out: string, rc: int)
    ensures
      match OpenInput(args, stdin, files)
      case NoFile(name) => rc == 1 && out == NoSuchFile(name)
      case Text(data) => rc == 0 && out == UniqText(data, HasFlag(args, FirstOperand(args, 0), 'c'))
  {
    var idx, letters := ReadFlags(args);
    match OpenInput(args, stdin, files) {
      case NoFile(name) => return NoSuchFile(name), 1;
      case Text(data) =>
        out := UniqData(data, 'c' in letters);
        rc := 0;
    }
  }
}
