/** The word loop of tokenize() on the memory as it is (src/shell.c:258-277): it writes into
    the text it still reads, and "$?" can write more than it reads. */
module Overtaking {
  import opened Strings
  import opened Lexer

  datatype Outcome = OffMemory | Ended(mem: seq<char>, p: nat, out: nat)

  function Overwrite(mem: seq<char>, at: nat, text: string): (after: seq<char>)
    requires at + |text| <= |mem|
    ensures |after| == |mem|
    ensures forall k {:trigger after[k]} :: 0 <= k < |mem| ==>
      after[k] == if at <= k < at + |text| then text[k - at] else mem[k]
  {
    mem[..at] + text + mem[at + |text|..]
  }

  /** From read pointer p and write pointer out on, until the word or the memory ends. */
  function Loop(mem: seq<char>, status: nat, p: nat, out: nat, quote: Quote): Outcome
    requires p <= |mem| && out <= |mem|
    decreases |mem| - p, 0
  {
    if p == |mem| then OffMemory
    else if mem[p] == '\0' then Ended(mem, p, out)
    else
      match ActionAt(mem, p, quote)
      case Stop => Ended(mem, p, out)
      case Toggle(q) => Loop(mem, status, p + 1, out, q)
      case Status => Written(mem, status, p + 2, out, quote, Digits(status))
      case Copy => Written(mem, status, p + 1, out, quote, [mem[p]])
  }

  function Written(mem: seq<char>, status: nat, p: nat, out: nat, quote: Quote, text: string): Outcome
    requires p <= |mem| && out <= |mem|
    decreases |mem| - p, 1
  {
    if out + |text| > |mem| then OffMemory
    else Loop(Overwrite(mem, out, text), status, p, out + |text|, quote)
  }

  /** The line from p on: no NUL before the one at its end. */
  ghost predicate Line(mem: seq<char>, p: nat, s: string) {
    && p <= |s| < |mem| && mem[|s|] == '\0'
    && (forall k {:trigger mem[k]} {:trigger s[k]} :: p <= k < |s| ==> mem[k] == s[k] && s[k] != '\0')
  }

  lemma DigitsAreDigits(n: nat)
    ensures |Digits(n)| > 0 && forall k :: 0 <= k < |Digits(n)| ==> IsDigit(Digits(n)[k])
  {
  }

  /** Once the write pointer is ahead, the loop reads only digits of its own. */
  lemma {:induction false} RunsAway(mem: seq<char>, status: nat, p: nat, out: nat)
    requires p < out <= |mem| && forall k :: p <= k < out ==> IsDigit(mem[k])
    ensures Loop(mem, status, p, out, Plain) == OffMemory
    decreases |mem| - p
  {
    assert ActionAt(mem, p, Plain) == Copy;
    if out < |mem| {
      RunsAway(Overwrite(mem, out, [mem[p]]), status, p + 1, out + 1);
    }
  }

  /** Writing behind the read pointer leaves the rest of the line. */
  lemma LineStays(mem: seq<char>, s: string, p: nat, out: nat, text: string, q: nat)
    requires Line(mem, p, s) && p <= q <= |s| && out + |text| <= q
    ensures Line(Overwrite(mem, out, text), q, s)
  {
    var next := Overwrite(mem, out, text);
    forall k | q <= k < |s|
      ensures next[k] == s[k] && s[k] != '\0'
    {
      assert mem[k] == s[k];
    }
  }

  lemma SameAction(mem: seq<char>, s: string, p: nat, quote: Quote)
    requires Line(mem, p, s) && p < |s|
    ensures mem[p] != '\0' && ActionAt(mem, p, quote) == ActionAt(s, p, quote)
  {
  }

  /** When the word does not fit, the loop leaves the memory, whatever stands behind the
      line and however far the memory goes. */
  lemma {:induction false} Overtakes(mem: seq<char>, s: string, status: nat, p: nat, out: nat, quote: Quote)
    requires Line(mem, p, s) && out <= p && !WordFits(s, status, p, quote, p - out)
    ensures Loop(mem, status, p, out, quote) == OffMemory
    decreases |s| - p, 0
  {
    SameAction(mem, s, p, quote);
    hide Overwrite;
    match ActionAt(s, p, quote) {
      case Toggle(q) => Overtakes(mem, s, status, p + 1, out, q);
      case Copy => OvertakesLater(mem, s, status, p, out, quote, [mem[p]], p + 1);
      case Status =>
        if |Digits(status)| <= p - out + 2 {
          OvertakesLater(mem, s, status, p, out, quote, Digits(status), p + 2);
        } else {
          OvertakesNow(mem, status, p + 2, out);
        }
    }
  }

  lemma OvertakesLater(mem: seq<char>, s: string, status: nat, p: nat, out: nat, quote: Quote, text: string, q: nat)
    requires Line(mem, p, s) && out + |text| <= q && p < q <= |s|
    requires !WordFits(s, status, q, quote, q - out - |text|)
    ensures Written(mem, status, q, out, quote, text) == OffMemory
    decreases |s| - q, 1
  {
    hide WordFits;
    LineStays(mem, s, p, out, text, q);
    Overtakes(Overwrite(mem, out, text), s, status, q, out + |text|, quote);
  }

  lemma OvertakesNow(mem: seq<char>, status: nat, p: nat, out: nat)
    requires out <= p <= |mem| && p < out + |Digits(status)|
    ensures Written(mem, status, p, out, Plain, Digits(status)) == OffMemory
  {
    var num := Digits(status);
    if out + |num| <= |mem| {
      DigitsAreDigits(status);
      RunsAway(Overwrite(mem, out, num), status, p, out + |num|);
    }
  }

  lemma OverwriteTwice(mem: seq<char>, at: nat, left: string, right: string)
    requires at + |left| + |right| <= |mem|
    ensures Overwrite(Overwrite(mem, at, left), at + |left|, right) == Overwrite(mem, at, left + right)
  {
  }

  /** The rest of a word that fits: where it goes, and where reading ends. */
  function Compacted(mem: seq<char>, s: string, status: nat, p: nat, out: nat, quote: Quote): Outcome
    requires p <= |s| && out + |WordText(s, status, p, quote)| <= |mem|
  {
    var text := WordText(s, status, p, quote);
    Ended(Overwrite(mem, out, text), WordEnd(s, p, quote), out + |text|)
  }

  lemma WriteOn(mem: seq<char>, at: nat, left: string, right: string, e: nat)
    requires at + |left| + |right| <= |mem|
    ensures Ended(Overwrite(Overwrite(mem, at, left), at + |left|, right), e, at + |left| + |right|)
      == Ended(Overwrite(mem, at, left + right), e, at + |left + right|)
  {
    OverwriteTwice(mem, at, left, right);
  }

  /** When it fits, the loop leaves the word in place of its beginning and changes nothing else. */
  lemma {:induction false} Compacts(mem: seq<char>, s: string, status: nat, p: nat, out: nat, quote: Quote)
    requires Line(mem, p, s) && out <= p && WordFits(s, status, p, quote, p - out)
    ensures out + |WordText(s, status, p, quote)| <= WordEnd(s, p, quote)
    ensures Loop(mem, status, p, out, quote) == Compacted(mem, s, status, p, out, quote)
    decreases |s| - p, 0
  {
    hide Overwrite;
    if p < |s| {
      SameAction(mem, s, p, quote);
    }
    match ActionAt(s, p, quote) {
      case Stop => OverwriteNothing(mem, out);
      case Toggle(q) => Compacts(mem, s, status, p + 1, out, q);
      case Copy => CompactsText(mem, s, status, p, out, quote, [s[p]], p + 1);
      case Status => CompactsText(mem, s, status, p, out, quote, Digits(status), p + 2);
    }
  }

  lemma OverwriteNothing(mem: seq<char>, at: nat)
    requires at <= |mem|
    ensures Overwrite(mem, at, "") == mem
  {
  }

  lemma CompactsText(mem: seq<char>, s: string, status: nat, p: nat, out: nat, quote: Quote, text: string, q: nat)
    requires Line(mem, p, s) && out + |text| <= q && p < q <= |s|
    requires WordFits(s, status, q, quote, q - out - |text|)
    ensures var rest := WordText(s, status, q, quote);
      && out + |text| + |rest| <= WordEnd(s, q, quote)
      && Written(mem, status, q, out, quote, text)
           == Ended(Overwrite(mem, out, text + rest), WordEnd(s, q, quote), out + |text + rest|)
    decreases |s| - q, 1
  {
    hide WordFits, WordText, WordEnd, Line;
    LineStays(mem, s, p, out, text, q);
    var next := Overwrite(mem, out, text);
    Compacts(next, s, status, q, out + |text|, quote);
    WriteOn(mem, out, text, WordText(s, status, q, quote), WordEnd(s, q, quote));
  }

  /** On any memory the loop ends exactly when the word fits. */
  lemma EndsIfFits(mem: seq<char>, s: string, status: nat, start: nat)
    requires Line(mem, start, s)
    ensures Loop(mem, status, start, start, Plain).Ended? <==> WordFits(s, status, start, Plain, 0)
  {
    if WordFits(s, status, start, Plain, 0) {
      Compacts(mem, s, status, start, start, Plain);
    } else {
      Overtakes(mem, s, status, start, start, Plain);
    }
  }

  /** "$?" with a status of three digits, as in "echo $?" behind an unknown command. */
  lemma LongStatusRunsAway(mem: seq<char>, start: nat, status: nat)
    requires start + 2 < |mem| && mem[start] == '$' && mem[start + 1] == '?' && status >= 100
    ensures Loop(mem, status, start, start, Plain) == OffMemory
  {
    DigitsLength(status);
    OvertakesNow(mem, status, start + 2, start);
  }

  ghost predicate AlwaysEnds(status: nat) {
    forall mem: seq<char>, start: nat, s: string {:trigger Line(mem, start, s)} ::
      Line(mem, start, s) ==> Loop(mem, status, start, start, Plain).Ended?
  }

  /** Exactly with a status of at most two digits the loop ends for every word. */
  lemma EndsBelowHundred(status: nat)
    ensures AlwaysEnds(status) <==> status < 100
  {
    if status < 100 {
      forall mem: seq<char>, start: nat, s: string {:trigger Line(mem, start, s)} | Line(mem, start, s)
        ensures Loop(mem, status, start, start, Plain).Ended?
      {
        ShortStatusWordFits(s, status, start, Plain, 0);
        EndsIfFits(mem, s, status, start);
      }
    } else {
      var mem := ['$', '?', '\0'];
      assert Line(mem, 0, "$?");
      LongStatusRunsAway(mem, 0, status);
    }
  }
}
