/** tokenize() rewrites the line it reads (src/shell.c:202-289): words are compacted where
    they stand and ended by a NUL, and the items point into the line. */
module Tokenizer {
  import opened Arithmetic
  import opened Strings
  import opened Lexer
  import Overtaking

  /** An item points into the line, or to the copy that expand_tilde made. */
  datatype Item = InLine(start: nat) | Copied(text: string)

  /** The C string that starts at `start`. */
  function CString(buf: seq<char>, start: nat): string
    requires start <= |buf|
    decreases |buf| - start
  {
    if start == |buf| || buf[start] == '\0' then "" else [buf[start]] + CString(buf, start + 1)
  }

  function ItemText(buf: seq<char>, item: Item): string {
    match item
    case Copied(text) => text
    case InLine(start) => if start <= |buf| then CString(buf, start) else ""
  }

  function ItemTexts(buf: seq<char>, items: seq<Item>): seq<string> {
    seq(|items|, k requires 0 <= k < |items| => ItemText(buf, items[k]))
  }

  /** The text and a NUL after it stand at `start`. */
  ghost predicate Stands(buf: array<char>, start: nat, text: string)
    reads buf
  {
    && start + |text| < buf.Length && buf[start + |text|] == '\0'
    && (forall k {:trigger text[k]} :: 0 <= k < |text| ==> text[k] != '\0' && buf[start + k] == text[k])
  }

  lemma {:induction false} StandsReads(buf: seq<char>, start: nat, text: string, done: nat)
    requires start + |text| < |buf| && buf[start + |text|] == '\0' && done <= |text|
    requires forall k {:trigger text[k]} :: 0 <= k < |text| ==> text[k] != '\0' && buf[start + k] == text[k]
    ensures CString(buf, start + done) == text[done..]
    decreases |text| - done
  {
    if done < |text| {
      assert text[done] != '\0';
      StandsReads(buf, start, text, done + 1);
      assert text[done..] == [text[done]] + text[done + 1..];
    }
  }

  /** The line from `p` on: no NUL before the one at its end. */
  ghost predicate LineAt(buf: array<char>, p: nat, s: string)
    reads buf
  {
    && p <= |s| < buf.Length && buf[|s|] == '\0'
    && (forall k {:trigger buf[k]} {:trigger s[k]} :: p <= k < |s| ==> buf[k] == s[k] && s[k] != '\0')
  }

  method SkipBlanksAt(buf: array<char>, p: nat, ghost s: string) returns (q: nat)
    requires LineAt(buf, p, s)
    ensures q == SkipBlanks(s, p)
  {
    q := p;
    while buf[q] == ' ' || buf[q] == '\t'
      invariant p <= q <= |s| && SkipBlanks(s, q) == SkipBlanks(s, p)
      decreases |s| - q
    {
      q := q + 1;
    }
  }

  /** strncpy(name, start, 255) */
  method CopyName(buf: array<char>, start: nat, ghost e: nat) returns (name: string)
    requires start <= e < buf.Length && buf[e] == '\0' && forall k :: start <= k < e ==> buf[k] != '\0'
    ensures name == FileName(buf[start..e])
  {
    name := "";
    var i := start;
    while i < start + 255 && buf[i] != '\0'
      invariant start <= i <= e && |name| == i - start <= 255 && name == buf[start..i]
    {
      name := name + [buf[i]];
      i := i + 1;
    }
    assert name == buf[start..e][..i - start];
  }

  method FindTargetEnd(buf: array<char>, p: nat, ghost s: string) returns (e: nat)
    requires LineAt(buf, p, s)
    ensures e == TargetEnd(s, p)
  {
    e := p;
    while buf[e] != '\0' && buf[e] != ' ' && buf[e] != '\t' && buf[e] != '>' && buf[e] != '<'
      invariant p <= e <= |s| && TargetEnd(s, e) == TargetEnd(s, p)
      decreases |s| - e
    {
      e := e + 1;
    }
  }

  /** The target is ended by a NUL while it is copied, and what stood there is put back. */
  method TakeName(buf: array<char>, start: nat, e: nat, ghost s: string) returns (name: string, q: nat)
    requires LineAt(buf, start, s) && start <= e <= |s|
    modifies buf
    ensures name == FileName(s[start..e]) && q == After(s, e)
    ensures buf[..] == old(buf[..])
  {
    var saved := buf[e];
    buf[e] := '\0';
    name := CopyName(buf, start, e);
    assert buf[start..e] == s[start..e];
    q := e;
    if saved != '\0' {
      buf[e] := saved;
      q := e + 1;
    }
    assert forall k :: 0 <= k < buf.Length ==> buf[k] == old(buf[k]);
  }

  lemma LineFurther(buf: array<char>, p: nat, q: nat, s: string)
    requires LineAt(buf, p, s) && p <= q <= |s|
    ensures LineAt(buf, q, s)
  {
  }

  method TakeTarget(buf: array<char>, p: nat, ghost s: string)
    returns (toFile: bool, append: bool, name: string, q: nat)
    requires LineAt(buf, p, s) && p < |s| && Redirects(s[p])
    modifies buf
    ensures toFile == (s[p] == '>') && append == Appends(s, p)
    ensures name == FileName(s[TargetStart(s, p)..TargetEnd(s, TargetStart(s, p))])
    ensures q == NextPos(s, p)
    ensures buf[..] == old(buf[..])
  {
    hide SkipBlanks, TargetEnd, FileName;
    toFile, append := buf[p] == '>', false;
    q := p;
    if toFile && buf[q + 1] == '>' {
      append, q := true, q + 1;
    }
    q := q + 1;
    LineFurther(buf, p, q, s);
    q := SkipBlanksAt(buf, q, s);
    LineFurther(buf, p, q, s);
    var e := FindTargetEnd(buf, q, s);
    name, q := TakeName(buf, q, e, s);
  }

  ghost function DigitsLeft(code: nat): string {
    if code == 0 then "" else Digits(code)
  }

  lemma DigitsMove(code: nat, num: string)
    requires code > 0
    ensures DigitsLeft(code / 10) + ([DigitChar(code % 10)] + num) == DigitsLeft(code) + num
  {
    var left, right := DigitsLeft(code / 10), [DigitChar(code % 10)];
    assert Digits(code) == left + right;
    assert left + right + num == left + (right + num);
  }

  /** The decimal digits of the last exit status. */
  method StatusDigits(status: nat) returns (num: string)
    ensures num == Digits(status)
  {
    if status == 0 {
      return "0";
    }
    num := "";
    var code := status;
    assert DigitsLeft(code) + num == Digits(status);
    while code != 0
      invariant DigitsLeft(code) + num == Digits(status)
      decreases code
    {
      DigitsMove(code, num);
      num := [DigitChar(code % 10)] + num;
      code := code / 10;
    }
    assert "" + num == num;
  }

  /** append_str */
  method AppendText(buf: array<char>, start: nat, text: string) returns (out: nat)
    requires start + |text| <= buf.Length
    modifies buf
    ensures out == start + |text|
    ensures forall k {:trigger text[k]} :: 0 <= k < |text| ==> buf[start + k] == text[k]
    ensures forall k {:trigger buf[k]} :: 0 <= k < start || out <= k < buf.Length ==> buf[k] == old(buf[k])
  {
    out := start;
    for i := 0 to |text|
      invariant out == start + i
      invariant forall k {:trigger text[k]} :: 0 <= k < i ==> buf[start + k] == text[k]
      invariant forall k {:trigger buf[k]} :: 0 <= k < start || out <= k < buf.Length ==> buf[k] == old(buf[k])
    {
      buf[out] := text[i];
      out := out + 1;
    }
  }

  // ----- one word

  /** What has been written, and what is still to be read, make up the whole word. */
  ghost predicate Reading(s: string, status: nat, start: nat, p: nat, quote: Quote, done: string)
    requires start <= p <= |s|
  {
    && done + WordText(s, status, p, quote) == WordText(s, status, start, Plain)
    && WordEnd(s, p, quote) == WordEnd(s, start, Plain)
    && start + |done| <= p
    && WordFits(s, status, p, quote, p - start - |done|) == WordFits(s, status, start, Plain, 0)
  }

  lemma ReadingMoves(s: string, status: nat, start: nat, p: nat, quote: Quote, done: string)
    requires start <= p <= |s| && Reading(s, status, start, p, quote, done)
    ensures match ActionAt(s, p, quote)
      case Stop =>
        && done == WordText(s, status, start, Plain) && p == WordEnd(s, start, Plain)
        && WordFits(s, status, start, Plain, 0)
      case Toggle(q) => Reading(s, status, start, p + 1, q, done)
      case Status =>
        && p + 2 <= |s|
        && if start + |done + Digits(status)| <= p + 2
           then Reading(s, status, start, p + 2, quote, done + Digits(status))
           else !WordFits(s, status, start, Plain, 0)
      case Copy => Reading(s, status, start, p + 1, quote, done + [s[p]])
  {
    match ActionAt(s, p, quote) {
      case Stop => PlusNothing(done);
      case Toggle(q) =>
      case Status => Associative(done, Digits(status), WordText(s, status, p + 2, quote));
      case Copy => Associative(done, [s[p]], WordText(s, status, p + 1, quote));
    }
  }

  lemma DigitsAreText(n: nat)
    ensures forall k :: 0 <= k < |Digits(n)| ==> Digits(n)[k] != '\0'
  {
  }

  /** The word written so far, character by character. */
  ghost predicate Written(buf: array<char>, start: nat, done: string)
    reads buf
  {
    && start + |done| <= buf.Length
    && (forall k {:trigger done[k]} :: 0 <= k < |done| ==> done[k] != '\0' && buf[start + k] == done[k])
  }

  method PutDigits(buf: array<char>, start: nat, out: nat, num: string, ghost status: nat, ghost done: string)
    returns (next: nat)
    requires Written(buf, start, done) && out == start + |done| && out + |num| <= buf.Length
    requires num == Digits(status)
    modifies buf
    ensures next == out + |num| && Written(buf, start, done + num)
    ensures forall k {:trigger buf[k]} :: 0 <= k < out || next <= k < buf.Length ==> buf[k] == old(buf[k])
  {
    DigitsAreText(status);
    next := AppendText(buf, out, num);
    ghost var all := done + num;
    forall k | 0 <= k < |all|
      ensures all[k] != '\0' && buf[start + k] == all[k]
    {
      if k < |done| {
        assert all[k] == done[k];
      } else {
        assert all[k] == num[k - |done|];
      }
    }
  }

  method PutChar(buf: array<char>, start: nat, out: nat, c: char, ghost done: string)
    requires Written(buf, start, done) && out == start + |done| < buf.Length && c != '\0'
    modifies buf
    ensures Written(buf, start, done + [c])
    ensures forall k {:trigger buf[k]} :: 0 <= k < buf.Length && k != out ==> buf[k] == old(buf[k])
  {
    buf[out] := c;
    ghost var all := done + [c];
    forall k | 0 <= k < |all|
      ensures all[k] != '\0' && buf[start + k] == all[k]
    {
      if k < |done| {
        assert all[k] == done[k];
      }
    }
  }

  lemma ReadingStarts(s: string, status: nat, start: nat)
    requires start <= |s|
    ensures Reading(s, status, start, start, Plain, "")
  {
    PlusNothing(WordText(s, status, start, Plain));
  }

  /** Reads one word and writes it, without its quotes, over itself. When the digits of the
      status pass the read pointer, the loop has no end. */
  method CompactWord(buf: array<char>, start: nat, ghost s: string, status: nat)
    returns (ends: bool, p: nat, out: nat)
    requires LineAt(buf, start, s) && start < |s|
    modifies buf
    ensures ends <==> Overtaking.Loop(old(buf[..]), status, start, start, Plain).Ended?
    ensures ends <==> WordFits(s, status, start, Plain, 0)
    ensures ends ==>
      && p == WordEnd(s, start, Plain) && start <= out <= p
      && out == start + |WordText(s, status, start, Plain)|
      && Written(buf, start, WordText(s, status, start, Plain))
    ensures ends ==> forall k {:trigger buf[k]} :: 0 <= k < start || p <= k < buf.Length ==> buf[k] == old(buf[k])
  {
    hide WordText, WordEnd, WordFits, Reading;
    p, out := start, start;
    var quote := Plain;
    ghost var done := "";
    ReadingStarts(s, status, start);
    Overtaking.EndsIfFits(buf[..], s, status, start);
    while buf[p] != '\0'
      invariant start <= out <= p <= |s| && out == start + |done|
      invariant Reading(s, status, start, p, quote, done)
      invariant Written(buf, start, done)
      invariant forall k {:trigger buf[k]} :: 0 <= k < start || p <= k < buf.Length ==> buf[k] == old(buf[k])
      decreases |s| - p
    {
      ReadingMoves(s, status, start, p, quote, done);
      if buf[p] == '\'' && quote != Double {
        quote := if quote == Single then Plain else Single;
        p := p + 1;
      } else if buf[p] == '"' && quote != Single {
        quote := if quote == Double then Plain else Double;
        p := p + 1;
      } else if quote == Plain && (buf[p] == ' ' || buf[p] == '\t' || buf[p] == '>' || buf[p] == '<') {
        break;
      } else if quote == Plain && buf[p] == '$' && buf[p + 1] == '?' {
        var num := StatusDigits(status);
        if out + |num| > p + 2 {
          return false, p, out;
        }
        out := PutDigits(buf, start, out, num, status, done);
        done := done + num;
        p := p + 2;
      } else {
        PutChar(buf, start, out, buf[p], done);
        done := done + [s[p]];
        out, p := out + 1, p + 1;
      }
    }
    ReadingMoves(s, status, start, p, quote, done);
    ends := true;
  }

  method ReadString(buf: array<char>, start: nat, ghost text: string) returns (copy: string)
    requires Stands(buf, start, text)
    ensures copy == text
  {
    copy := "";
    var i := start;
    assert text != "" ==> buf[start + 0] == text[0];
    while buf[i] != '\0'
      invariant start <= i <= start + |text| && copy == text[..i - start]
      invariant buf[i] != '\0' <==> i < start + |text|
      decreases start + |text| - i
    {
      assert buf[start + (i - start)] == text[i - start];
      copy := copy + [buf[i]];
      i := i + 1;
      assert i < start + |text| ==> buf[start + (i - start)] == text[i - start];
    }
  }

  /** expand_tilde; `memory` says whether the copy could be allocated. */
  method ExpandTildeAt(buf: array<char>, start: nat, memory: bool, ghost word: string) returns (item: Item)
    requires Stands(buf, start, word)
    ensures item == (if !memory || ExpandTilde(word) == word then InLine(start) else Copied(ExpandTilde(word)))
  {
    assert word != "" ==> buf[start + 0] == word[0];
    assert |word| > 1 ==> buf[start + 1] == word[1] && word[1] != '\0';
    if buf[start] == '~' && (buf[start + 1] == '\0' || buf[start + 1] == '/') {
      if !memory {
        return InLine(start);
      }
      StandsFurther(buf, start, word);
      var rest := ReadString(buf, start + 1, word[1..]);
      return Copied("/root" + rest);
    }
    return InLine(start);
  }

  lemma StandsFurther(buf: array<char>, start: nat, text: string)
    requires Stands(buf, start, text) && text != ""
    ensures Stands(buf, start + 1, text[1..])
  {
    var rest := text[1..];
    forall k | 0 <= k < |rest|
      ensures rest[k] != '\0' && buf[start + 1 + k] == rest[k]
    {
      assert rest[k] == text[k + 1];
      assert buf[start + (k + 1)] == text[k + 1];
    }
  }

  /** The item reads as the text, and later words are written behind its NUL. */
  ghost predicate ItemOk(buf: array<char>, item: Item, text: string, p: nat, z: nat)
    reads buf
  {
    match item
    case Copied(copy) => copy == text
    case InLine(start) => Stands(buf, start, text) && (start + |text| < p || (p == z && start + |text| == z))
  }

  method TakeWord(buf: array<char>, start: nat, ghost s: string, status: nat)
    returns (ends: bool, item: Item, q: nat)
    requires LineAt(buf, start, s) && start < |s| && !Blank(s[start]) && !Redirects(s[start])
    modifies buf
    ensures ends <==> TokenFits(s, status, start)
    ensures ends ==>
      q == NextPos(s, start) && ItemOk(buf, item, ExpandTilde(WordText(s, status, start, Plain)), q, |s|)
    ensures ends ==> forall k {:trigger buf[k]} :: 0 <= k < start || q <= k < buf.Length ==> buf[k] == old(buf[k])
  {
    ghost var word := WordText(s, status, start, Plain);
    var p, out;
    ends, p, out := CompactWord(buf, start, s, status);
    item, q := InLine(start), p;
    if !ends {
      return;
    }
    if buf[p] != '\0' {
      buf[p] := '\0';
      p := p + 1;
    }
    buf[out] := '\0';
    item := ExpandTildeAt(buf, start, true, word);
    q := p;
  }

  // ----- the line

  lemma ItemReads(buf: array<char>, item: Item, text: string, p: nat, z: nat)
    requires ItemOk(buf, item, text, p, z)
    ensures ItemText(buf[..], item) == text
  {
    if item.InLine? {
      var start := item.start;
      forall k {:trigger text[k]} | 0 <= k < |text|
        ensures text[k] != '\0' && buf[..][start + k] == text[k]
      {
        assert buf[start + k] == text[k];
      }
      StandsReads(buf[..], start, text, 0);
    }
  }

  ghost predicate ItemsOk(buf: array<char>, items: seq<Item>, texts: seq<string>, p: nat, z: nat)
    reads buf
  {
    && |items| == |texts|
    && (forall j {:trigger items[j]} :: 0 <= j < |items| ==> ItemOk(buf, items[j], texts[j], p, z))
  }

  lemma ItemsRead(buf: array<char>, items: seq<Item>, texts: seq<string>, p: nat, z: nat)
    requires ItemsOk(buf, items, texts, p, z)
    ensures ItemTexts(buf[..], items) == texts
  {
    forall j | 0 <= j < |items|
      ensures ItemText(buf[..], items[j]) == texts[j]
    {
      ItemReads(buf, items[j], texts[j], p, z);
    }
  }

  method StoreTarget(buf: array<char>, p: nat, ghost s: string, out: Output, inp: Input, ghost cl: Cmdline)
    returns (newOut: Output, newInp: Input, q: nat)
    requires LineAt(buf, p, s) && p < |s| && Redirects(s[p]) && cl.out == out && cl.inp == inp
    modifies buf
    ensures Cmdline(cl.items, newOut, newInp) == WithTarget(s, p, cl) && q == NextPos(s, p)
    ensures buf[..] == old(buf[..])
  {
    newOut, newInp := out, inp;
    var toFile, append, name, next := TakeTarget(buf, p, s);
    if toFile {
      newOut := Output(name, append);
    } else {
      newInp := Input(name);
    }
    q := next;
  }

  /** The new item stands behind the earlier ones, and writing it leaves them alone. */
  method StoreWord(buf: array<char>, p: nat, ghost s: string, status: nat, items: seq<Item>, ghost texts: seq<string>)
    returns (ends: bool, newItems: seq<Item>, q: nat)
    requires LineAt(buf, p, s) && p < |s| && !Blank(s[p]) && !Redirects(s[p])
    requires ItemsOk(buf, items, texts, p, |s|)
    modifies buf
    ensures ends <==> TokenFits(s, status, p)
    ensures ends ==>
      && q == NextPos(s, p) && |newItems| == |items| + 1
      && ItemsOk(buf, newItems, texts + [ExpandTilde(WordText(s, status, p, Plain))], q, |s|)
    ensures ends ==> forall k {:trigger buf[k]} :: 0 <= k < p || q <= k < buf.Length ==> buf[k] == old(buf[k])
  {
    var item, next;
    ends, item, next := TakeWord(buf, p, s, status);
    newItems, q := items, next;
    if !ends {
      return;
    }
    forall j | 0 <= j < |items|
      ensures ItemOk(buf, items[j], texts[j], next, |s|)
    {
      assert old(ItemOk(buf, items[j], texts[j], p, |s|));
    }
    newItems := items + [item];
  }

  lemma ItemsFurther(buf: array<char>, items: seq<Item>, texts: seq<string>, p: nat, q: nat, z: nat)
    requires ItemsOk(buf, items, texts, p, z) && p <= q && p < z
    ensures ItemsOk(buf, items, texts, q, z)
  {
  }

  method StoreToken(buf: array<char>, p: nat, ghost s: string, status: nat, items: seq<Item>, out: Output,
      inp: Input, ghost cl: Cmdline)
    returns (ends: bool, newItems: seq<Item>, newOut: Output, newInp: Input, q: nat)
    requires LineAt(buf, p, s) && p < |s| && !Blank(s[p])
    requires cl.out == out && cl.inp == inp && ItemsOk(buf, items, cl.items, p, |s|)
    modifies buf
    ensures ends <==> TokenFits(s, status, p)
    ensures ends ==>
      var next := WithToken(s, status, p, cl);
      newOut == next.out && newInp == next.inp && ItemsOk(buf, newItems, next.items, q, |s|)
    ensures ends ==> q == NextPos(s, p) && |newItems| == CountAfter(s, p, |items|)
    ensures ends ==> forall k {:trigger buf[k]} :: 0 <= k < p || q <= k < buf.Length ==> buf[k] == old(buf[k])
  {
    ends, newItems, newOut, newInp := true, items, out, inp;
    if buf[p] == '>' || buf[p] == '<' {
      newOut, newInp, q := StoreTarget(buf, p, s, out, inp, cl);
      forall k | 0 <= k < buf.Length
        ensures buf[k] == old(buf[k])
      {
        assert buf[..][k] == old(buf[..])[k];
      }
      ItemsFurther(buf, items, cl.items, p, q, |s|);
    } else {
      ends, newItems, q := StoreWord(buf, p, s, status, items, cl.items);
    }
  }

  /** The whole line; it ends exactly when every word does. */
  method Tokenize(buf: array<char>, line: nat, ghost s: string, status: nat)
    returns (ends: bool, items: seq<Item>, out: Output, inp: Input)
    requires LineAt(buf, line, s)
    modifies buf
    ensures ends <==> LineFits(s, status, line, 0)
    ensures ends ==> Cmdline(ItemTexts(buf[..], items), out, inp) == Lex(s, status, line, EMPTY)
    ensures ends ==> forall k {:trigger buf[k]} :: 0 <= k < line || |s| <= k < buf.Length ==> buf[k] == old(buf[k])
  {
    ends, items, out, inp := true, [], NoOutput, NoInput;
    ghost var cl := EMPTY;
    var p := line;
    while buf[p] != '\0' && |items| < 63
      invariant line <= p <= |s| && LineAt(buf, p, s)
      invariant cl.out == out && cl.inp == inp && ItemsOk(buf, items, cl.items, p, |s|)
      invariant Lex(s, status, p, cl) == Lex(s, status, line, EMPTY)
      invariant LineFits(s, status, p, |items|) == LineFits(s, status, line, 0)
      invariant forall k {:trigger buf[k]} :: 0 <= k < line || p <= k < buf.Length ==> buf[k] == old(buf[k])
      decreases |s| - p
    {
      var q := SkipBlanksAt(buf, p, s);
      if buf[q] == '\0' {
        break;
      }
      LexNext(s, status, p, q, cl, |items|);
      ItemsFurther(buf, items, cl.items, p, q, |s|);
      ends, items, out, inp, p := StoreToken(buf, q, s, status, items, out, inp, cl);
      if !ends {
        return;
      }
      cl := WithToken(s, status, q, cl);
    }
    ItemsRead(buf, items, cl.items, p, |s|);
  }
}
