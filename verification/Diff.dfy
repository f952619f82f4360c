/** `diff` (src/cmds.c:439-488): a table of edit distances filled from the bottom
    right corner, and the greedy walk through it that prints the edit script.
    Lines are the sequences of characters before their terminating NUL. */
module Diff {
  import opened Arithmetic
  import opened Strings
  import opened Lines

  const CELL_LIMIT: nat := 0x1_0000  // a table cell is a uint16_t
  const MAX_LINES: nat := 0xFFFF

  // ----- edit scripts and what they mean

  datatype Step =
    | Keep(line: string)
    | Delete(line: string)
    | Insert(line: string)
    | Replace(before: string, after: string)
  {
    function Before(): seq<string> {
      match this
      case Keep(l) => [l]
      case Delete(l) => [l]
      case Insert(_) => []
      case Replace(b, _) => [b]
    }

    function After(): seq<string> {
      match this
      case Keep(l) => [l]
      case Delete(_) => []
      case Insert(l) => [l]
      case Replace(_, a) => [a]
    }

    function Cost(): nat {
      if Keep? then 0 else 1
    }

    /** What the step prints; a kept line prints nothing. */
    function Text(): string {
      match this
      case Keep(_) => ""
      case Delete(l) => "< " + l + "\n"
      case Insert(l) => "> " + l + "\n"
      case Replace(b, a) => "< " + b + "\n" + "> " + a + "\n"
    }
  }

  /** The lines a script reads: kept, deleted and replaced ones. */
  function Before(script: seq<Step>): seq<string> {
    if script == [] then [] else script[0].Before() + Before(script[1..])
  }

  /** The lines a script leaves: kept, inserted and replacing ones. */
  function After(script: seq<Step>): seq<string> {
    if script == [] then [] else script[0].After() + After(script[1..])
  }

  function Cost(script: seq<Step>): nat {
    if script == [] then 0 else script[0].Cost() + Cost(script[1..])
  }

  function Texts(script: seq<Step>): seq<string> {
    seq(|script|, k requires 0 <= k < |script| => script[k].Text())
  }

  /** Everything the script prints. */
  function Printed(script: seq<Step>): string {
    Concat(Texts(script))
  }

  predicate IsScript(script: seq<Step>, a: seq<string>, b: seq<string>) {
    Before(script) == a && After(script) == b
  }

  ghost predicate IsOptimal(script: seq<Step>, a: seq<string>, b: seq<string>) {
    && IsScript(script, a, b)
    && forall other :: IsScript(other, a, b) ==> Cost(script) <= Cost(other)
  }

  lemma {:induction false} Snoc(script: seq<Step>, step: Step, before: seq<string>, after: seq<string>)
    requires before == step.Before() && after == step.After()
    ensures Before(script + [step]) == Before(script) + before
    ensures After(script + [step]) == After(script) + after
    ensures Cost(script + [step]) == Cost(script) + step.Cost()
  {
    if script == [] {
      assert script + [step] == [step];
    } else {
      var first, rest := script[0], script[1..];
      Snoc(rest, step, before, after);
      assert (script + [step])[1..] == rest + [step];
      Associative(first.Before(), Before(rest), before);
      Associative(first.After(), After(rest), after);
    }
  }

  lemma SnocPrinted(script: seq<Step>, step: Step)
    ensures Printed(script + [step]) == Printed(script) + step.Text()
  {
    assert Texts(script + [step]) == Texts(script) + [step.Text()];
    ConcatSnoc(Texts(script), step.Text());
  }

  // ----- the edit distance between suffixes

  function Best(replaced: nat, deleted: nat, inserted: nat): nat {
    if inserted <= replaced && inserted <= deleted then inserted
    else if deleted <= replaced then deleted
    else replaced
  }

  function Max(x: int, y: int): int {
    if x <= y then y else x
  }

  function Mismatch(x: string, y: string): nat {
    if x == y then 0 else 1
  }

  function Distance(a: seq<string>, b: seq<string>, i: nat, j: nat): nat
    requires i <= |a| && j <= |b|
    decreases |a| - i + |b| - j
  {
    if i == |a| then |b| - j
    else if j == |b| then |a| - i
    else Best(Distance(a, b, i + 1, j + 1) + Mismatch(a[i], b[j]),
              Distance(a, b, i + 1, j) + 1,
              Distance(a, b, i, j + 1) + 1)
  }

  lemma {:induction false} DistanceBound(a: seq<string>, b: seq<string>, i: nat, j: nat)
    requires i <= |a| && j <= |b|
    ensures Distance(a, b, i, j) <= Max(|a| - i, |b| - j)
    decreases |a| - i + |b| - j
  {
    if i < |a| && j < |b| {
      DistanceBound(a, b, i + 1, j + 1);
    }
  }

  /** Dropping the first line on either side changes the distance by at most one. */
  lemma {:induction false} Neighbours(a: seq<string>, b: seq<string>, i: nat, j: nat)
    requires i <= |a| && j <= |b|
    ensures i < |a| ==> Distance(a, b, i + 1, j) - 1 <= Distance(a, b, i, j) <= Distance(a, b, i + 1, j) + 1
    ensures j < |b| ==> Distance(a, b, i, j + 1) - 1 <= Distance(a, b, i, j) <= Distance(a, b, i, j + 1) + 1
    decreases |a| - i + |b| - j
  {
    if i < |a| && j < |b| {
      Neighbours(a, b, i + 1, j);
      Neighbours(a, b, i, j + 1);
      Neighbours(a, b, i + 1, j + 1);
    }
  }

  /** Matching equal first lines is never worse than any other first step. */
  lemma {:induction false} KeepIsFree(a: seq<string>, b: seq<string>, i: nat, j: nat)
    requires i < |a| && j < |b| && a[i] == b[j]
    ensures Distance(a, b, i, j) == Distance(a, b, i + 1, j + 1)
  {
    Neighbours(a, b, i + 1, j);
    Neighbours(a, b, i, j + 1);
  }

  lemma {:induction false} ZeroDistance(a: seq<string>, b: seq<string>, i: nat, j: nat)
    requires i <= |a| && j <= |b|
    ensures Distance(a, b, i, j) == 0 <==> a[i..] == b[j..]
    decreases |a| - i + |b| - j
  {
    if i < |a| && j < |b| {
      ZeroDistance(a, b, i + 1, j + 1);
      assert a[i..] == [a[i]] + a[i + 1..];
      assert b[j..] == [b[j]] + b[j + 1..];
      if a[i] == b[j] {
        KeepIsFree(a, b, i, j);
        assert a[i..] == b[j..] ==> a[i..][1..] == b[j..][1..];
      } else {
        assert a[i..][0] != b[j..][0];
      }
    }
  }

  /** `step` consumes lines that both files have next. */
  ghost predicate Fits(step: Step, a: seq<string>, b: seq<string>, i: nat, j: nat) {
    && i + |step.Before()| <= |a| && j + |step.After()| <= |b|
    && step.Before() == a[i..i + |step.Before()|]
    && step.After() == b[j..j + |step.After()|]
  }

  lemma FirstFits(script: seq<Step>, a: seq<string>, b: seq<string>, i: nat, j: nat)
    requires i <= |a| && j <= |b| && script != [] && IsScript(script, a[i..], b[j..])
    ensures var step := script[0];
      Fits(step, a, b, i, j) && IsScript(script[1..], a[i + |step.Before()|..], b[j + |step.After()|..])
  {
    var step := script[0];
    FirstPart(a, i, step.Before(), Before(script[1..]));
    FirstPart(b, j, step.After(), After(script[1..]));
  }

  lemma FirstPart(a: seq<string>, i: nat, part: seq<string>, rest: seq<string>)
    requires i <= |a| && a[i..] == part + rest
    ensures i + |part| <= |a| && a[i..i + |part|] == part && a[i + |part|..] == rest
  {
    assert a[i..][..|part|] == part && a[i..][|part|..] == rest;
  }

  /** A step saves at most what it costs. */
  lemma StepBound(step: Step, a: seq<string>, b: seq<string>, i: nat, j: nat)
    requires i <= |a| && j <= |b| && Fits(step, a, b, i, j)
    ensures Distance(a, b, i, j) <= step.Cost() + Distance(a, b, i + |step.Before()|, j + |step.After()|)
  {
    if step.Keep? {
      assert a[i] == a[i..i + 1][0] && b[j] == b[j..j + 1][0];
      KeepIsFree(a, b, i, j);
    } else {
      Neighbours(a, b, i, j);
    }
  }

  lemma NothingLeft(script: seq<Step>, a: seq<string>, b: seq<string>, i: nat, j: nat)
    requires i <= |a| && j <= |b| && script == [] && IsScript(script, a[i..], b[j..])
    ensures Distance(a, b, i, j) == 0
  {
    assert a[i..] == [] && b[j..] == [];
  }

  /** No script is cheaper than the distance. */
  lemma {:induction false} DistanceIsLowerBound(script: seq<Step>, a: seq<string>, b: seq<string>, i: nat, j: nat)
    requires i <= |a| && j <= |b|
    requires IsScript(script, a[i..], b[j..])
    ensures Distance(a, b, i, j) <= Cost(script)
    decreases |script|
  {
    hide Distance, IsScript, Fits;
    if script == [] {
      NothingLeft(script, a, b, i, j);
    } else {
      var step := script[0];
      FirstFits(script, a, b, i, j);
      DistanceIsLowerBound(script[1..], a, b, i + |step.Before()|, j + |step.After()|);
      StepBound(step, a, b, i, j);
    }
  }

  // ----- the table

  /** A store into a uint16_t cell. */
  function Store(v: nat): nat {
    v % 0x1_0000
  }

  /** The contents of the cell for the suffixes from i and j, with the truncation
      of every store. */
  function CellValue(a: seq<string>, b: seq<string>, i: nat, j: nat): nat
    requires i <= |a| && j <= |b|
    decreases |a| - i + |b| - j
  {
    if i == |a| then Store(|b| - j)
    else if j == |b| then Store(|a| - i)
    else Store(Best(CellValue(a, b, i + 1, j + 1) + Mismatch(a[i], b[j]),
                    CellValue(a, b, i + 1, j) + 1,
                    CellValue(a, b, i, j + 1) + 1))
  }

  lemma StoreExact(v: nat)
    requires v < CELL_LIMIT
    ensures Store(v) == v
  {
  }

  /** A cell off the edges, from its three neighbours. */
  lemma CellFromNeighbours(a: seq<string>, b: seq<string>, i: nat, j: nat, replaced: nat, deleted: nat, inserted: nat)
    requires i < |a| && j < |b|
    requires replaced == CellValue(a, b, i + 1, j + 1) + Mismatch(a[i], b[j])
    requires deleted == CellValue(a, b, i + 1, j) + 1 && inserted == CellValue(a, b, i, j + 1) + 1
    ensures CellValue(a, b, i, j) == Store(Best(replaced, deleted, inserted))
  {
  }

  lemma DistanceFromNeighbours(a: seq<string>, b: seq<string>, i: nat, j: nat, replaced: nat, deleted: nat,
      inserted: nat)
    requires i < |a| && j < |b|
    requires replaced == Distance(a, b, i + 1, j + 1) + Mismatch(a[i], b[j])
    requires deleted == Distance(a, b, i + 1, j) + 1 && inserted == Distance(a, b, i, j + 1) + 1
    ensures Distance(a, b, i, j) == Best(replaced, deleted, inserted)
  {
  }

  /** Up to 65535 lines on both sides nothing is truncated. */
  lemma {:induction false} CellIsDistance(a: seq<string>, b: seq<string>, i: nat, j: nat)
    requires i <= |a| && j <= |b|
    requires |a| - i <= MAX_LINES && |b| - j <= MAX_LINES
    ensures CellValue(a, b, i, j) == Distance(a, b, i, j)
    decreases |a| - i + |b| - j
  {
    var best := Distance(a, b, i, j);
    DistanceBound(a, b, i, j);
    StoreExact(best);
    if i < |a| && j < |b| {
      CellIsDistance(a, b, i + 1, j + 1);
      CellIsDistance(a, b, i + 1, j);
      CellIsDistance(a, b, i, j + 1);
      var replaced := Distance(a, b, i + 1, j + 1) + Mismatch(a[i], b[j]);
      var deleted, inserted := Distance(a, b, i + 1, j) + 1, Distance(a, b, i, j + 1) + 1;
      DistanceFromNeighbours(a, b, i, j, replaced, deleted, inserted);
      CellFromNeighbours(a, b, i, j, replaced, deleted, inserted);
    }
  }

  /** The flat row-major index, for rows of nb + 1 cells. */
  function Index(nb: nat, i: nat, j: nat): nat {
    i * (nb + 1) + j
  }

  lemma IndexInRange(na: nat, nb: nat, i: nat, j: nat)
    requires i <= na && j <= nb
    ensures Index(nb, i, j) < (na + 1) * (nb + 1)
  {
    MulOrder(i, na, nb + 1);
    assert (na + 1) * (nb + 1) == na * (nb + 1) + (nb + 1);
  }

  lemma IndexOrder(nb: nat, i: nat, j: nat, k: nat, l: nat)
    requires j <= nb && l <= nb && i < k
    ensures Index(nb, i, j) < Index(nb, k, l)
  {
    MulOrder(i + 1, k, nb + 1);
    assert (i + 1) * (nb + 1) == i * (nb + 1) + (nb + 1);
  }

  lemma IndexInjective(nb: nat, i: nat, j: nat)
    requires j <= nb
    ensures forall k: nat, l: nat :: l <= nb && Index(nb, k, l) == Index(nb, i, j) ==> k == i && l == j
  {
    forall k: nat, l: nat | l <= nb && Index(nb, k, l) == Index(nb, i, j)
      ensures k == i && l == j
    {
      if i < k {
        IndexOrder(nb, i, j, k, l);
      } else if k < i {
        IndexOrder(nb, k, l, i, j);
      }
    }
  }

  /** Cell (i, j) of the table holds what the bottom-up loops put there. */
  ghost predicate Filled(d: array<nat>, a: seq<string>, b: seq<string>, i: nat, j: nat)
    reads d
    requires i <= |a| && j <= |b|
  {
    && Index(|b|, i, j) < d.Length
    && d[Index(|b|, i, j)] == CellValue(a, b, i, j)
  }

  method SetCell(d: array<nat>, a: seq<string>, b: seq<string>, i: nat, j: nat, v: nat)
    requires i <= |a| && j <= |b|
    requires d.Length == (|a| + 1) * (|b| + 1)
    requires Store(v) == CellValue(a, b, i, j)
    modifies d
    ensures Filled(d, a, b, i, j)
    ensures forall k: nat, l: nat :: k <= |a| && l <= |b| && old(Filled(d, a, b, k, l)) ==> Filled(d, a, b, k, l)
  {
    IndexInRange(|a|, |b|, i, j);
    IndexInjective(|b|, i, j);
    d[Index(|b|, i, j)] := Store(v);
  }

  /** The three candidates of src/cmds.c:454-458 for a cell off the edges. */
  method BestStep(d: array<nat>, la: seq<string>, lb: seq<string>, i: nat, j: nat) returns (best: nat)
    requires i < |la| && j < |lb|
    requires Filled(d, la, lb, i + 1, j + 1) && Filled(d, la, lb, i + 1, j) && Filled(d, la, lb, i, j + 1)
    ensures Store(best) == CellValue(la, lb, i, j)
  {
    best := d[Index(|lb|, i + 1, j + 1)] + Mismatch(la[i], lb[j]);
    var del := d[Index(|lb|, i + 1, j)] + 1;
    var ins := d[Index(|lb|, i, j + 1)] + 1;
    if del < best { best := del; }
    if ins < best { best := ins; }
  }

  method FillTable(la: seq<string>, lb: seq<string>) returns (d: array<nat>)
    ensures fresh(d)
    ensures forall i: nat, j: nat :: i <= |la| && j <= |lb| ==> Filled(d, la, lb, i, j)
  {
    var na, nb := |la|, |lb|;
    d := new nat[(na + 1) * (nb + 1)];
    for i := 0 to na + 1
      invariant forall k: nat :: k < i ==> Filled(d, la, lb, k, nb)
    {
      SetCell(d, la, lb, i, nb, na - i);
    }
    for j := 0 to nb + 1
      invariant forall k: nat :: k <= na ==> Filled(d, la, lb, k, nb)
      invariant forall l: nat :: l < j ==> Filled(d, la, lb, na, l)
    {
      SetCell(d, la, lb, na, j, nb - j);
    }
    for i := na downto 0
      invariant forall k: nat :: k <= na ==> Filled(d, la, lb, k, nb)
      invariant forall k: nat, l: nat :: i <= k <= na && l <= nb ==> Filled(d, la, lb, k, l)
    {
      for j := nb downto 0
        invariant forall k: nat :: k <= na ==> Filled(d, la, lb, k, nb)
        invariant forall k: nat, l: nat :: i < k <= na && l <= nb ==> Filled(d, la, lb, k, l)
        invariant forall l: nat :: j <= l <= nb ==> Filled(d, la, lb, i, l)
      {
        var best := BestStep(d, la, lb, i, j);
        SetCell(d, la, lb, i, j, best);
      }
    }
  }

  // ----- the walk

  /** The branch conditions of the walk, on an exact table. */
  ghost predicate Chosen(step: Step, a: seq<string>, b: seq<string>, i: nat, j: nat)
    requires i <= |a| && j <= |b| && Fits(step, a, b, i, j)
  {
    match step
    case Keep(_) => true
    case Insert(_) => i == |a| || Distance(a, b, i, j) == Distance(a, b, i, j + 1) + 1
    case Delete(_) => j == |b| || Distance(a, b, i, j) == Distance(a, b, i + 1, j) + 1
    case Replace(x, y) =>
      && x != y
      && Distance(a, b, i, j) != Distance(a, b, i, j + 1) + 1
      && Distance(a, b, i, j) != Distance(a, b, i + 1, j) + 1
  }

  /** Every branch stays on a cheapest way to the end. */
  lemma ChosenIsCheapest(step: Step, a: seq<string>, b: seq<string>, i: nat, j: nat)
    requires i <= |a| && j <= |b| && Fits(step, a, b, i, j) && Chosen(step, a, b, i, j)
    ensures Distance(a, b, i, j) == step.Cost() + Distance(a, b, i + |step.Before()|, j + |step.After()|)
  {
    if step.Keep? {
      assert a[i] == step.line == b[j];
      KeepIsFree(a, b, i, j);
    } else if step.Replace? {
      assert a[i] == step.before && b[j] == step.after;
    }
  }

  lemma OneLine(a: seq<string>, i: nat)
    requires i <= |a|
    ensures a[i..i] == [] && (i < |a| ==> a[i..i + 1] == [a[i]])
  {
  }

  lemma ExactCells(a: seq<string>, b: seq<string>, i: nat, j: nat)
    requires i <= |a| && j <= |b|
    ensures |a| <= MAX_LINES && |b| <= MAX_LINES ==>
      && CellValue(a, b, i, j) == Distance(a, b, i, j)
      && (i < |a| ==> CellValue(a, b, i + 1, j) == Distance(a, b, i + 1, j))
      && (j < |b| ==> CellValue(a, b, i, j + 1) == Distance(a, b, i, j + 1))
  {
    hide CellValue, Distance;
    if |a| <= MAX_LINES && |b| <= MAX_LINES {
      CellIsDistance(a, b, i, j);
      if i < |a| { CellIsDistance(a, b, i + 1, j); }
      if j < |b| { CellIsDistance(a, b, i, j + 1); }
    }
  }

  lemma ChooseStep(a: seq<string>, b: seq<string>, i: nat, j: nat) returns (step: Step)
    requires i <= |a| && j <= |b| && (i < |a| || j < |b|)
    ensures Fits(step, a, b, i, j) && Chosen(step, a, b, i, j)
  {
    OneLine(a, i);
    OneLine(b, j);
    if i < |a| && j < |b| && a[i] == b[j] {
      step := Keep(a[i]);
    } else if i == |a| || (j < |b| && Distance(a, b, i, j) == Distance(a, b, i, j + 1) + 1) {
      step := Insert(b[j]);
    } else if j == |b| || Distance(a, b, i, j) == Distance(a, b, i + 1, j) + 1 {
      step := Delete(a[i]);
    } else {
      step := Replace(a[i], b[j]);
    }
  }

  lemma Prepend(step: Step, rest: seq<Step>, a: seq<string>, b: seq<string>, i: nat, j: nat)
    requires i <= |a| && j <= |b| && Fits(step, a, b, i, j)
    requires IsScript(rest, a[i + |step.Before()|..], b[j + |step.After()|..])
    ensures IsScript([step] + rest, a[i..], b[j..]) && Cost([step] + rest) == step.Cost() + Cost(rest)
  {
    var script := [step] + rest;
    assert script[0] == step && script[1..] == rest;
    Whole(a, i, i + |step.Before()|);
    Whole(b, j, j + |step.After()|);
  }

  lemma Whole(a: seq<string>, i: nat, k: nat)
    requires i <= k <= |a|
    ensures a[i..] == a[i..k] + a[k..]
  {
  }

  /** A script of exactly the distance exists, so the distance is the minimum. */
  lemma {:induction false} BestScript(a: seq<string>, b: seq<string>, i: nat, j: nat) returns (script: seq<Step>)
    requires i <= |a| && j <= |b|
    ensures IsScript(script, a[i..], b[j..])
    ensures Cost(script) == Distance(a, b, i, j)
    decreases |a| - i + |b| - j
  {
    if i == |a| && j == |b| {
      script := [];
    } else {
      var step := ChooseStep(a, b, i, j);
      StepMoves(step);
      var rest := BestScript(a, b, i + |step.Before()|, j + |step.After()|);
      Prepend(step, rest, a, b, i, j);
      ChosenIsCheapest(step, a, b, i, j);
      script := [step] + rest;
    }
  }

  lemma CostIsMinimal(script: seq<Step>, a: seq<string>, b: seq<string>)
    requires IsScript(script, a, b)
    ensures IsOptimal(script, a, b) <==> Cost(script) == Distance(a, b, 0, 0)
  {
    assert a[0..] == a && b[0..] == b;
    forall other | IsScript(other, a, b)
      ensures Distance(a, b, 0, 0) <= Cost(other)
    {
      DistanceIsLowerBound(other, a, b, 0, 0);
    }
    var best := BestScript(a, b, 0, 0);
  }

  /** The branches of src/cmds.c:466-484. The last two are unreachable. */
  method NextStep(la: seq<string>, lb: seq<string>, d: array<nat>, i: nat, j: nat) returns (step: Step)
    requires i <= |la| && j <= |lb| && (i < |la| || j < |lb|)
    requires Filled(d, la, lb, i, j)
    requires i < |la| ==> Filled(d, la, lb, i + 1, j)
    requires j < |lb| ==> Filled(d, la, lb, i, j + 1)
    ensures Fits(step, la, lb, i, j)
    ensures |la| <= MAX_LINES && |lb| <= MAX_LINES ==> Chosen(step, la, lb, i, j)
  {
    var na, nb := |la|, |lb|;
    ExactCells(la, lb, i, j);
    OneLine(la, i);
    OneLine(lb, j);
    if i < na && j < nb && la[i] == lb[j] {
      step := Keep(la[i]);
    } else if j < nb && (i >= na || d[Index(nb, i, j)] == d[Index(nb, i, j + 1)] + 1) {
      step := Insert(lb[j]);
    } else if i < na && (j >= nb || d[Index(nb, i, j)] == d[Index(nb, i + 1, j)] + 1) {
      step := Delete(la[i]);
    } else if i < na && j < nb {
      step := Replace(la[i], lb[j]);
    } else if i < na {
      assert false;  // B is exhausted: the third branch was taken
    } else if j < nb {
      assert false;  // A is exhausted: the second branch was taken
    }
  }

  lemma Extend(script: seq<Step>, step: Step, a: seq<string>, b: seq<string>, i: nat, j: nat)
    requires i <= |a| && j <= |b| && Fits(step, a, b, i, j)
    requires IsScript(script, a[..i], b[..j])
    ensures IsScript(script + [step], a[..i + |step.Before()|], b[..j + |step.After()|])
    ensures Cost(script + [step]) == Cost(script) + step.Cost()
    ensures Printed(script + [step]) == Printed(script) + step.Text()
  {
    Snoc(script, step, step.Before(), step.After());
    SnocPrinted(script, step);
  }

  ghost predicate OnCheapestWay(script: seq<Step>, a: seq<string>, b: seq<string>, i: nat, j: nat)
    requires i <= |a| && j <= |b|
  {
    Cost(script) + Distance(a, b, i, j) == Distance(a, b, 0, 0)
  }

  lemma StayCheapest(script: seq<Step>, step: Step, a: seq<string>, b: seq<string>, i: nat, j: nat)
    requires i <= |a| && j <= |b| && Fits(step, a, b, i, j)
    ensures OnCheapestWay(script, a, b, i, j) && Chosen(step, a, b, i, j) ==>
      OnCheapestWay(script + [step], a, b, i + |step.Before()|, j + |step.After()|)
  {
    hide Fits, Chosen, Distance;
    Snoc(script, step, step.Before(), step.After());
    if Chosen(step, a, b, i, j) {
      ChosenIsCheapest(step, a, b, i, j);
    }
  }

  /** The walk has come to lines i and j, and printed its script so far. */
  ghost predicate Walked(script: seq<Step>, out: string, a: seq<string>, b: seq<string>, i: nat, j: nat) {
    && i <= |a| && j <= |b|
    && IsScript(script, a[..i], b[..j]) && out == Printed(script)
    && (|a| <= MAX_LINES && |b| <= MAX_LINES ==> OnCheapestWay(script, a, b, i, j))
  }

  lemma WalkOn(script: seq<Step>, out: string, step: Step, a: seq<string>, b: seq<string>, i: nat, j: nat,
               longer: seq<Step>, more: string, ni: nat, nj: nat)
    requires Walked(script, out, a, b, i, j) && Fits(step, a, b, i, j)
    requires |a| <= MAX_LINES && |b| <= MAX_LINES ==> Chosen(step, a, b, i, j)
    requires longer == script + [step] && more == out + step.Text()
    requires ni == i + |step.Before()| && nj == j + |step.After()|
    ensures Walked(longer, more, a, b, ni, nj)
  {
    hide IsScript, Printed, Chosen, Distance;
    Extend(script, step, a, b, i, j);
    StayCheapest(script, step, a, b, i, j);
  }

  lemma WalkedAll(script: seq<Step>, out: string, a: seq<string>, b: seq<string>)
    requires Walked(script, out, a, b, |a|, |b|)
    ensures IsScript(script, a, b) && out == Printed(script)
    ensures |a| <= MAX_LINES && |b| <= MAX_LINES ==> Cost(script) == Distance(a, b, 0, 0)
  {
    assert a[..|a|] == a && b[..|b|] == b;
  }

  lemma StepMoves(step: Step)
    ensures |step.Before()| + |step.After()| > 0
  {
  }

  /** One round of the walk. */
  method TakeStep(la: seq<string>, lb: seq<string>, d: array<nat>, i: nat, j: nat, out: string, ghost script: seq<Step>)
    returns (ni: nat, nj: nat, more: string, ghost longer: seq<Step>)
    requires Walked(script, out, la, lb, i, j) && (i < |la| || j < |lb|)
    requires Filled(d, la, lb, i, j)
    requires i < |la| ==> Filled(d, la, lb, i + 1, j)
    requires j < |lb| ==> Filled(d, la, lb, i, j + 1)
    ensures Walked(longer, more, la, lb, ni, nj) && ni + nj > i + j
  {
    var step := NextStep(la, lb, d, i, j);
    StepMoves(step);
    longer := script + [step];
    more := out + step.Text();
    ni, nj := i + |step.Before()|, j + |step.After()|;
    WalkOn(script, out, step, la, lb, i, j, longer, more, ni, nj);
  }

  method PrintScript(la: seq<string>, lb: seq<string>, d: array<nat>) returns (out: string)
    requires forall i: nat, j: nat :: i <= |la| && j <= |lb| ==> Filled(d, la, lb, i, j)
    ensures exists script :: (
      && IsScript(script, la, lb) && out == Printed(script)
      && (|la| <= MAX_LINES && |lb| <= MAX_LINES ==> Cost(script) == Distance(la, lb, 0, 0)))
  {
    var i: nat, j: nat := 0, 0;
    out := "";
    ghost var script: seq<Step> := [];
    while i < |la| || j < |lb|
      invariant i <= |la| && j <= |lb| && Walked(script, out, la, lb, i, j)
      decreases |la| - i + |lb| - j
    {
      i, j, out, script := TakeStep(la, lb, d, i, j, out, script);
    }
    WalkedAll(script, out, la, lb);
  }

  // ----- what the printed text tells

  /** The two parts make up the whole, each in its order. */
  ghost predicate Mix(whole: seq<string>, kept: seq<string>, part: seq<string>) {
    if whole == [] then kept == [] && part == []
    else
      || (kept != [] && kept[0] == whole[0] && Mix(whole[1..], kept[1..], part))
      || (part != [] && part[0] == whole[0] && Mix(whole[1..], kept, part[1..]))
  }

  /** The lines behind this sign and a blank. */
  function Marked(lines: seq<string>, sign: char): seq<string> {
    if lines == [] then []
    else
      var rest := Marked(lines[1..], sign);
      if |lines[0]| >= 2 && lines[0][0] == sign && lines[0][1] == ' ' then [lines[0][2..]] + rest else rest
  }

  /** The text consists of lines with "< " or "> ". Some lines are in both files; with those
      behind "<" they make up a, with those behind ">" they make up b. */
  ghost predicate Tells(out: string, a: seq<string>, b: seq<string>) {
    && (forall l {:trigger l in Split(out)} :: l in Split(out) ==> |l| >= 2 && l[0] in "<>" && l[1] == ' ')
    && Unlines(Split(out)) == out
    && exists kept :: Mix(a, kept, Marked(Split(out), '<')) && Mix(b, kept, Marked(Split(out), '>'))
  }

  function Sign(sign: string, l: string): string {
    sign + " " + l
  }

  function StepLines(step: Step): seq<string> {
    match step
    case Keep(_) => []
    case Delete(l) => [Sign("<", l)]
    case Insert(l) => [Sign(">", l)]
    case Replace(b, a) => [Sign("<", b), Sign(">", a)]
  }

  function ScriptLines(script: seq<Step>): seq<string> {
    if script == [] then [] else StepLines(script[0]) + ScriptLines(script[1..])
  }

  function Common(script: seq<Step>): seq<string> {
    if script == [] then [] else (if script[0].Keep? then [script[0].line] else []) + Common(script[1..])
  }

  lemma StepPrints(step: Step)
    ensures Unlines(StepLines(step)) == step.Text()
  {
    assert "<" + " " == "< " && ">" + " " == "> ";
    match step {
      case Keep(_) =>
      case Delete(l) => OneLinePrinted(Sign("<", l));
      case Insert(l) => OneLinePrinted(Sign(">", l));
      case Replace(b, a) =>
        OneLinePrinted(Sign(">", a));
        UnlinesCons(Sign("<", b), [Sign(">", a)]);
        assert [Sign("<", b)] + [Sign(">", a)] == StepLines(step);
        Associative(Sign("<", b) + "\n", Sign(">", a), "\n");
    }
  }

  lemma OneLinePrinted(line: string)
    ensures Unlines([line]) == line + "\n"
  {
    assert [line][1..] == [];
    PlusNothing(line + "\n");
  }

  lemma {:induction false} ScriptPrints(script: seq<Step>)
    ensures Unlines(ScriptLines(script)) == Printed(script)
  {
    if script != [] {
      StepPrints(script[0]);
      ScriptPrints(script[1..]);
      UnlinesAppend(StepLines(script[0]), ScriptLines(script[1..]));
      assert Texts(script)[1..] == Texts(script[1..]);
    }
  }

  lemma SignedLine(sign: string, l: string)
    requires |sign| == 1
    ensures var line := Sign(sign, l);
      && |line| >= 2 && line[0] == sign[0] && line[1] == ' ' && line[2..] == l
      && ('\n' in line ==> sign == "\n" || '\n' in l)
  {
  }

  lemma {:induction false} ScriptLinesOk(script: seq<Step>)
    requires NoNewlines(Before(script)) && NoNewlines(After(script))
    ensures NoNewlines(ScriptLines(script))
    ensures forall l {:trigger l in ScriptLines(script)} ::
        l in ScriptLines(script) ==> |l| >= 2 && l[0] in "<>" && l[1] == ' '
  {
    if script != [] {
      var step, rest := script[0], script[1..];
      var before, after := Before(rest), After(rest);
      PartOfLines(step.Before(), before);
      PartOfLines(step.After(), after);
      ScriptLinesOk(rest);
      StepLinesOk(step);
    }
  }

  lemma PartOfLines(left: seq<string>, right: seq<string>)
    requires NoNewlines(left + right)
    ensures NoNewlines(left) && NoNewlines(right)
  {
    assert forall k :: 0 <= k < |left| ==> left[k] == (left + right)[k];
    assert forall k :: 0 <= k < |right| ==> right[k] == (left + right)[|left| + k];
  }

  lemma StepLinesOk(step: Step)
    requires NoNewlines(step.Before()) && NoNewlines(step.After())
    ensures NoNewlines(StepLines(step))
    ensures forall l {:trigger l in StepLines(step)} ::
        l in StepLines(step) ==> |l| >= 2 && l[0] in "<>" && l[1] == ' '
  {
    if step.Before() != [] {
      assert '\n' !in step.Before()[0];
      SignedLine("<", step.Before()[0]);
    }
    if step.After() != [] {
      assert '\n' !in step.After()[0];
      SignedLine(">", step.After()[0]);
    }
  }

  lemma MarkedNext(line: string, rest: seq<string>, sign: char)
    ensures Marked([line] + rest, sign) ==
      (if |line| >= 2 && line[0] == sign && line[1] == ' ' then [line[2..]] else []) + Marked(rest, sign)
  {
    assert ([line] + rest)[1..] == rest;
  }

  /** The marked lines of one step, in front of the others. */
  lemma MarkedStep(step: Step, rest: seq<string>)
    ensures Marked(StepLines(step) + rest, '<') == (if step.Keep? then [] else step.Before()) + Marked(rest, '<')
    ensures Marked(StepLines(step) + rest, '>') == (if step.Keep? then [] else step.After()) + Marked(rest, '>')
  {
    match step {
      case Keep(_) => assert [] + rest == rest;
      case Delete(l) =>
        SignedLine("<", l);
        MarkedNext(Sign("<", l), rest, '<');
        MarkedNext(Sign("<", l), rest, '>');
      case Insert(l) =>
        SignedLine(">", l);
        MarkedNext(Sign(">", l), rest, '<');
        MarkedNext(Sign(">", l), rest, '>');
      case Replace(b, a) =>
        SignedLine("<", b);
        SignedLine(">", a);
        assert StepLines(step) + rest == [Sign("<", b)] + ([Sign(">", a)] + rest);
        MarkedNext(Sign("<", b), [Sign(">", a)] + rest, '<');
        MarkedNext(Sign("<", b), [Sign(">", a)] + rest, '>');
        MarkedNext(Sign(">", a), rest, '<');
        MarkedNext(Sign(">", a), rest, '>');
    }
  }

  lemma MixKept(l: string, whole: seq<string>, kept: seq<string>, part: seq<string>)
    requires Mix(whole, kept, part)
    ensures Mix([l] + whole, [l] + kept, part)
  {
    assert ([l] + whole)[1..] == whole && ([l] + kept)[1..] == kept;
  }

  lemma MixPart(l: string, whole: seq<string>, kept: seq<string>, part: seq<string>)
    requires Mix(whole, kept, part)
    ensures Mix([l] + whole, kept, [l] + part)
  {
    assert ([l] + whole)[1..] == whole && ([l] + part)[1..] == part;
  }

  /** What the signs say of a script. */
  lemma {:induction false} ScriptMixes(script: seq<Step>)
    ensures Mix(Before(script), Common(script), Marked(ScriptLines(script), '<'))
    ensures Mix(After(script), Common(script), Marked(ScriptLines(script), '>'))
  {
    if script != [] {
      var step, rest := script[0], script[1..];
      var lines, common := ScriptLines(rest), Common(rest);
      ScriptMixes(rest);
      MarkedStep(step, lines);
      hide Mix, Marked, StepLines;
      match step {
        case Keep(l) =>
          MixKept(l, Before(rest), common, Marked(lines, '<'));
          MixKept(l, After(rest), common, Marked(lines, '>'));
          PlusNothing(Marked(lines, '<'));
          PlusNothing(Marked(lines, '>'));
        case Delete(l) =>
          MixPart(l, Before(rest), common, Marked(lines, '<'));
          PlusNothing(After(rest));
          PlusNothing(common);
          PlusNothing(Marked(lines, '>'));
        case Insert(l) =>
          MixPart(l, After(rest), common, Marked(lines, '>'));
          PlusNothing(Before(rest));
          PlusNothing(common);
          PlusNothing(Marked(lines, '<'));
        case Replace(b, a) =>
          MixPart(b, Before(rest), common, Marked(lines, '<'));
          MixPart(a, After(rest), common, Marked(lines, '>'));
          PlusNothing(common);
      }
    }
  }

  /** The printed text of a script tells the two files apart. */
  lemma ScriptTells(script: seq<Step>, a: seq<string>, b: seq<string>)
    requires IsScript(script, a, b) && NoNewlines(a) && NoNewlines(b)
    ensures Tells(Printed(script), a, b)
  {
    ScriptPrints(script);
    ScriptLinesOk(script);
    PrintThenSplit(ScriptLines(script));
    ScriptMixes(script);
  }

  // ----- the command

  /** The outcome for these lines; `memory` says whether the table could be allocated. The
      printed script is always a script from A to B, and up to 65535 lines on both sides it
      is an optimal one. */
  ghost predicate Compared(la: seq<string>, lb: seq<string>, memory: bool, out: string, rc: int) {
    && (!memory ==> rc == 1 && out == "diff: out of memory\n")
    && (memory ==> (rc == 0 <==> CellValue(la, lb, 0, 0) == 0))
    && (memory && rc == 0 ==> out == "Files are identical\n")
    && (memory && rc != 0 ==> rc == 1 && exists script :: IsScript(script, la, lb) && out == Printed(script))
    && (memory && |la| <= MAX_LINES && |lb| <= MAX_LINES ==>
        && (rc == 0 <==> la == lb)
        && (rc != 0 ==> exists script :: IsOptimal(script, la, lb) && out == Printed(script)))
    && (memory && rc != 0 && NoNewlines(la) && NoNewlines(lb) ==> Tells(out, la, lb))
  }

  method DiffLines(la: seq<string>, lb: seq<string>, memory: bool) returns (out: string, rc: int)
    ensures Compared(la, lb, memory, out, rc)
  {
    if !memory {
      return "diff: out of memory\n", 1;
    }
    var d := FillTable(la, lb);
    assert Filled(d, la, lb, 0, 0);
    if |la| <= MAX_LINES && |lb| <= MAX_LINES {
      CellIsDistance(la, lb, 0, 0);
      ZeroDistance(la, lb, 0, 0);
    }
    if d[Index(|lb|, 0, 0)] == 0 {
      return "Files are identical\n", 0;
    }
    out := PrintScript(la, lb, d);
    ghost var script :| IsScript(script, la, lb) && out == Printed(script)
      && (|la| <= MAX_LINES && |lb| <= MAX_LINES ==> Cost(script) == Distance(la, lb, 0, 0));
    if |la| <= MAX_LINES && |lb| <= MAX_LINES {
      CostIsMinimal(script, la, lb);
    }
    if NoNewlines(la) && NoNewlines(lb) {
      ScriptTells(script, la, lb);
    }
    return out, 1;
  }

  /** `diff`, on the arguments behind its name. */
  method CmdDiff(args: seq<string>, files: map<string, string>, memory: bool) returns (out: string, rc: int)
    ensures |args| < 2 ==> rc == 2 && out == "diff: two files required\n"
    ensures |args| >= 2 ==>
      match (OpenFile(args[0], files), OpenFile(args[1], files))
      case (NoFile(name), _) => rc == 2 && out == NoSuchFile(name)
      case (Text(_), NoFile(name)) => rc == 2 && out == NoSuchFile(name)
      case (Text(a), Text(b)) =>
        && Compared(Split(a), Split(b), memory, out, rc)
        && (memory && rc != 0 ==> Tells(out, Split(a), Split(b)))
  {
    if |args| < 2 {
      return "diff: two files required\n", 2;
    }
    match OpenFile(args[0], files) {
      case NoFile(name) => return NoSuchFile(name), 2;
      case Text(a) =>
        match OpenFile(args[1], files) {
          case NoFile(name) => return NoSuchFile(name), 2;
          case Text(b) =>
            SplitThenPrint(a);
            SplitThenPrint(b);
            var la, na := SplitLines(a);
            var lb, nb := SplitLines(b);
            out, rc := DiffLines(la[..na], lb[..nb], memory);
        }
    }
  }

  // ----- the 16-bit limit is exact

  /** `diff` reports "identical" exactly for equal files of up to n lines. */
  ghost predicate IdenticalIsRight(n: nat) {
    forall a: seq<string>, b: seq<string> ::
      |a| <= n && |b| <= n ==> (CellValue(a, b, 0, 0) == 0 <==> a == b)
  }

  /** 65536 lines against none: the distance wraps around to zero. */
  lemma WrapAround(a: seq<string>)
    requires |a| == CELL_LIMIT
    ensures CellValue(a, [], 0, 0) == 0 && a != []
  {
  }

  lemma IdenticalLimit(n: nat)
    ensures IdenticalIsRight(n) <==> n <= MAX_LINES
  {
    if n <= MAX_LINES {
      forall a: seq<string>, b: seq<string> | |a| <= n && |b| <= n
        ensures CellValue(a, b, 0, 0) == 0 <==> a == b
      {
        CellIsDistance(a, b, 0, 0);
        ZeroDistance(a, b, 0, 0);
      }
    } else {
      var a := seq(CELL_LIMIT, _ => "");
      WrapAround(a);
    }
  }
}
