/** Character sequences shared by the other modules. A C string is the sequence of
    the characters before its terminating NUL. */
module Strings {
  import opened Arithmetic

  function Concat(pieces: seq<string>): string {
    if pieces == [] then "" else pieces[0] + Concat(pieces[1..])
  }

  lemma {:induction false} ConcatAppend(left: seq<string>, right: seq<string>)
    ensures Concat(left + right) == Concat(left) + Concat(right)
  {
    if left == [] {
      assert left + right == right;
    } else {
      var head, rest, more := left[0], Concat(left[1..]), Concat(right);
      ConcatAppend(left[1..], right);
      assert (left + right)[1..] == left[1..] + right;
      Associative(head, rest, more);
    }
  }

  lemma ConcatSnoc(pieces: seq<string>, last: string)
    ensures Concat(pieces + [last]) == Concat(pieces) + last
  {
    ConcatAppend(pieces, [last]);
    assert [last][1..] == [];
    assert Concat([last]) == last + "";
  }

  /** Lines as they are printed, each followed by a newline. */
  function Unlines(lines: seq<string>): string {
    if lines == [] then "" else lines[0] + "\n" + Unlines(lines[1..])
  }

  lemma {:induction false} UnlinesSnoc(lines: seq<string>, last: string)
    ensures Unlines(lines + [last]) == Unlines(lines) + last + "\n"
  {
    if lines == [] {
      assert lines + [last] == [last];
      assert [last][1..] == [];
    } else {
      var head, rest := lines[0] + "\n", Unlines(lines[1..]);
      UnlinesSnoc(lines[1..], last);
      assert (lines + [last])[1..] == lines[1..] + [last];
      assert head + (rest + last + "\n") == head + rest + last + "\n";
    }
  }

  lemma {:induction false} UnlinesAppend(left: seq<string>, right: seq<string>)
    ensures Unlines(left + right) == Unlines(left) + Unlines(right)
  {
    if left == [] {
      assert left + right == right;
    } else {
      var head, rest, more := left[0] + "\n", Unlines(left[1..]), Unlines(right);
      UnlinesAppend(left[1..], right);
      assert (left + right)[1..] == left[1..] + right;
      Associative(head, rest, more);
    }
  }

  // ----- numbers as sh_printf prints them (src/shell.c:102-120)

  predicate IsDigit(c: char) {
    '0' <= c <= '9'
  }

  function DigitChar(k: nat): char
    requires k < 10
  {
    "0123456789"[k]
  }

  function Digits(n: nat): string {
    if n < 10 then [DigitChar(n)] else Digits(n / 10) + [DigitChar(n % 10)]
  }

  /** The last digit and those in front of it. */
  lemma DigitsSplit(n: nat)
    ensures Digits(n) == if n < 10 then [DigitChar(n % 10)] else Digits(n / 10) + [DigitChar(n % 10)]
  {
  }

  /** The number that a row of digits stands for in base ten. */
  function NumberOf(text: string): int {
    if text == "" then 0
    else NumberOf(text[..|text| - 1]) * 10 + (text[|text| - 1] as int - '0' as int)
  }

  lemma {:induction false} DigitsGiveNumber(n: nat)
    ensures NumberOf(Digits(n)) == n && Digits(n) != ""
    ensures forall c :: c in Digits(n) ==> '0' <= c <= '9'
    ensures n > 0 ==> Digits(n)[0] != '0'
  {
    var last := DigitChar(n % 10);
    assert last as int == '0' as int + n % 10;
    if n < 10 {
      assert [last][..0] == "" && NumberOf([last]) == NumberOf("") * 10 + n;
    } else {
      var front := Digits(n / 10);
      DigitsGiveNumber(n / 10);
      assert (front + [last])[..|front|] == front;
    }
  }

  function Decimal(n: int): string {
    if n < 0 then "-" + Digits(-n) else Digits(n)
  }

  function PadLeft(text: string, width: nat): string
    decreases width - |text|
  {
    if |text| >= width then text else PadLeft(" " + text, width)
  }

  predicate AllBlank(s: string) {
    forall i :: 0 <= i < |s| ==> s[i] == ' '
  }

  /** Blanks in front, just as many as are missing. */
  lemma {:induction false} PadLeftIs(blanks: string, text: string, width: nat)
    requires AllBlank(blanks) && |blanks| == if |text| < width then width - |text| else 0
    ensures PadLeft(text, width) == blanks + text
    decreases |blanks|
  {
    if blanks != "" {
      var fewer := blanks[1..];
      PadLeftIs(fewer, " " + text, width);
      assert fewer + " " == blanks;
      Associative(fewer, " ", text);
    }
  }

  // ----- pipes

  const PIPE_MAX: nat := 65536  // 64 * 1024

  /** What the reader of a pipe gets of everything written to it. */
  function ThroughPipe(text: string): string {
    if |text| <= PIPE_MAX then text else text[..PIPE_MAX]
  }
}
