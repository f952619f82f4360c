/** What a command line means to the shell (src/shell.c:202-289): words, quotes, "$?",
    "~" and redirections, as functions of the line. */
module Lexer {
  import opened Arithmetic
  import opened Strings

  datatype Quote = Plain | Single | Double

  datatype Output = NoOutput | Output(name: string, append: bool)
  datatype Input = NoInput | Input(name: string)

  /** cmdline_t */
  datatype Cmdline = Cmdline(items: seq<string>, out: Output, inp: Input)

  const EMPTY := Cmdline([], NoOutput, NoInput)

  predicate Blank(c: char) {
    c == ' ' || c == '\t'
  }

  predicate Redirects(c: char) {
    c == '<' || c == '>'
  }

  function SkipBlanks(s: string, i: nat): (j: nat)
    requires i <= |s|
    ensures i <= j <= |s| && (j < |s| ==> !Blank(s[j]))
    decreases |s| - i
  {
    if i < |s| && Blank(s[i]) then SkipBlanks(s, i + 1) else i
  }

  /** The end of a redirection target. */
  function TargetEnd(s: string, i: nat): (j: nat)
    requires i <= |s|
    ensures i <= j <= |s|
    decreases |s| - i
  {
    if i < |s| && !Blank(s[i]) && !Redirects(s[i]) then TargetEnd(s, i + 1) else i
  }

  /** What a character of a word does. */
  datatype Action = Toggle(quote: Quote) | Stop | Status | Copy

  function ActionAt(s: string, i: nat, quote: Quote): Action
    requires i <= |s|
  {
    if i == |s| then Stop
    else if s[i] == '\'' && quote != Double then Toggle(if quote == Single then Plain else Single)
    else if s[i] == '"' && quote != Single then Toggle(if quote == Double then Plain else Double)
    else if quote == Plain && (Blank(s[i]) || Redirects(s[i])) then Stop
    else if quote == Plain && s[i] == '$' && i + 1 < |s| && s[i + 1] == '?' then Status
    else Copy
  }

  /** The text of the rest of a word. */
  function WordText(s: string, status: nat, i: nat, quote: Quote): string
    requires i <= |s|
    decreases |s| - i
  {
    match ActionAt(s, i, quote)
    case Stop => ""
    case Toggle(q) => WordText(s, status, i + 1, q)
    case Status => Digits(status) + WordText(s, status, i + 2, quote)
    case Copy => [s[i]] + WordText(s, status, i + 1, quote)
  }

  function WordEnd(s: string, i: nat, quote: Quote): (e: nat)
    requires i <= |s|
    ensures i <= e <= |s|
    decreases |s| - i
  {
    match ActionAt(s, i, quote)
    case Stop => i
    case Toggle(q) => WordEnd(s, i + 1, q)
    case Status => WordEnd(s, i + 2, quote)
    case Copy => WordEnd(s, i + 1, quote)
  }

  function ExpandTilde(word: string): string {
    if word != "" && word[0] == '~' && (|word| == 1 || word[1] == '/') then "/root" + word[1..] else word
  }

  /** The name buffers take 255 characters. */
  function FileName(name: string): string {
    if |name| <= 255 then name else name[..255]
  }

  /** The character after a word or a target is skipped, whatever it is. */
  function After(s: string, e: nat): (i: nat)
    requires e <= |s|
    ensures e <= i <= |s|
  {
    if e < |s| then e + 1 else e
  }

  predicate Appends(s: string, p: nat)
    requires p < |s|
  {
    s[p] == '>' && p + 1 < |s| && s[p + 1] == '>'
  }

  function TargetStart(s: string, p: nat): (q: nat)
    requires p < |s|
    ensures p < q <= |s|
  {
    SkipBlanks(s, if Appends(s, p) then p + 2 else p + 1)
  }

  function WithTarget(s: string, p: nat, cl: Cmdline): Cmdline
    requires p < |s|
  {
    var q := TargetStart(s, p);
    var name := FileName(s[q..TargetEnd(s, q)]);
    if s[p] == '>' then cl.(out := Output(name, Appends(s, p))) else cl.(inp := Input(name))
  }

  lemma WordMoves(s: string, p: nat)
    requires p < |s| && !Blank(s[p]) && !Redirects(s[p])
    ensures WordEnd(s, p, Plain) > p
  {
  }

  /** Where reading goes on after the word or the redirection at p. */
  function NextPos(s: string, p: nat): (q: nat)
    requires p < |s| && !Blank(s[p])
    ensures p < q <= |s|
  {
    if Redirects(s[p]) then After(s, TargetEnd(s, TargetStart(s, p)))
    else
      WordMoves(s, p);
      After(s, WordEnd(s, p, Plain))
  }

  function WithToken(s: string, status: nat, p: nat, cl: Cmdline): Cmdline
    requires p < |s|
  {
    if Redirects(s[p]) then WithTarget(s, p, cl)
    else cl.(items := cl.items + [ExpandTilde(WordText(s, status, p, Plain))])
  }

  /** Everything from i on, added to what is there. */
  function Lex(s: string, status: nat, i: nat, cl: Cmdline): Cmdline
    requires i <= |s|
    decreases |s| - i
  {
    var p := SkipBlanks(s, i);
    if p == |s| || |cl.items| >= 63 then cl
    else Lex(s, status, NextPos(s, p), WithToken(s, status, p, cl))
  }

  // ----- in-place expansion

  /** The write pointer of the tokenizer, `gap` characters behind the read pointer,
      does not pass it in the rest of the word. */
  predicate WordFits(s: string, status: nat, i: nat, quote: Quote, gap: nat)
    requires i <= |s|
    decreases |s| - i
  {
    match ActionAt(s, i, quote)
    case Stop => true
    case Toggle(q) => WordFits(s, status, i + 1, q, gap + 1)
    case Status => |Digits(status)| <= gap + 2 && WordFits(s, status, i + 2, quote, gap + 2 - |Digits(status)|)
    case Copy => WordFits(s, status, i + 1, quote, gap)
  }

  predicate TokenFits(s: string, status: nat, p: nat)
    requires p < |s|
  {
    Redirects(s[p]) || WordFits(s, status, p, Plain, 0)
  }

  function CountAfter(s: string, p: nat, count: nat): nat
    requires p < |s|
  {
    if Redirects(s[p]) then count else count + 1
  }

  /** The line can be tokenized in place. */
  predicate LineFits(s: string, status: nat, i: nat, count: nat)
    requires i <= |s|
    decreases |s| - i
  {
    var p := SkipBlanks(s, i);
    p == |s| || count >= 63 || (TokenFits(s, status, p) && LineFits(s, status, NextPos(s, p), CountAfter(s, p, count)))
  }

  lemma {:induction false} ShortStatusWordFits(s: string, status: nat, i: nat, quote: Quote, gap: nat)
    requires i <= |s| && status < 100
    ensures WordFits(s, status, i, quote, gap)
    decreases |s| - i
  {
    DigitsLength(status);
    match ActionAt(s, i, quote) {
      case Stop =>
      case Toggle(q) => ShortStatusWordFits(s, status, i + 1, q, gap + 1);
      case Status => ShortStatusWordFits(s, status, i + 2, quote, gap + 2 - |Digits(status)|);
      case Copy => ShortStatusWordFits(s, status, i + 1, quote, gap);
    }
  }

  /** With a status of at most two digits every line can. */
  lemma {:induction false} ShortStatusFits(s: string, status: nat, i: nat, count: nat)
    requires i <= |s| && status < 100
    ensures LineFits(s, status, i, count)
    decreases |s| - i
  {
    var p := SkipBlanks(s, i);
    if p < |s| && count < 63 {
      ShortStatusWordFits(s, status, p, Plain, 0);
      ShortStatusFits(s, status, NextPos(s, p), CountAfter(s, p, count));
    }
  }

  lemma DigitsLength(n: nat)
    ensures |Digits(n)| >= 1
    ensures |Digits(n)| <= 2 <==> n < 100
  {
    if n >= 10 {
      DigitsPositive(n / 10);
      DigitsStep(n, n / 10);
      if n / 10 >= 10 {
        DigitsPositive(n / 10 / 10);
        DigitsStep(n / 10, n / 10 / 10);
      } else {
        assert Digits(n / 10) == [DigitChar(n / 10)];
      }
    }
  }

  lemma DigitsStep(n: nat, tens: nat)
    requires n >= 10 && tens == n / 10
    ensures |Digits(n)| == |Digits(tens)| + 1
  {
  }

  lemma DigitsPositive(n: nat)
    ensures |Digits(n)| >= 1
  {
  }

  /** Exactly the two-digit statuses are safe for every line. */
  lemma StatusLimit(status: nat)
    ensures (forall s: string :: LineFits(s, status, 0, 0)) <==> status < 100
  {
    if status < 100 {
      forall s: string
        ensures LineFits(s, status, 0, 0)
      {
        ShortStatusFits(s, status, 0, 0);
      }
    } else {
      LongStatusFails("$?", status);
    }
  }

  lemma LongStatusFails(s: string, status: nat)
    requires s == "$?" && status >= 100
    ensures !LineFits(s, status, 0, 0)
  {
    DigitsLength(status);
    assert ActionAt(s, 0, Plain) == Status;
    assert !WordFits(s, status, 0, Plain, 0);
    assert SkipBlanks(s, 0) == 0;
  }

  // ----- printing a command line

  /** A piece of a word: bare characters, something in single or double quotes, or "$?". */
  datatype Piece = Bare(text: string) | Quoted(text: string) | DoubleQuoted(text: string) | LastStatus
  {
    function Text(): string {
      match this
      case Bare(t) => t
      case Quoted(t) => "'" + t + "'"
      case DoubleQuoted(t) => "\"" + t + "\""
      case LastStatus => "$?"
    }

    /** Quotes keep everything as it is, "$?" included; outside it gives the status. */
    function Means(status: nat): string {
      match this
      case LastStatus => Digits(status)
      case _ => text
    }

    predicate Ok() {
      match this
      case Bare(t) => t != "" && AllBare(t)
      case Quoted(t) => '\'' !in t
      case DoubleQuoted(t) => '"' !in t
      case LastStatus => true
    }
  }

  predicate IsBare(c: char) {
    c != ' ' && c != '\t' && c != '\'' && c != '"' && c != '<' && c != '>'
  }

  /** No blanks, quotes or operators, and nowhere "$?". */
  predicate AllBare(t: string) {
    forall i {:trigger t[i]} :: 0 <= i < |t| ==> IsBare(t[i]) && !(t[i] == '$' && i + 1 < |t| && t[i + 1] == '?')
  }

  function PiecesText(pieces: seq<Piece>): string {
    if pieces == [] then "" else pieces[0].Text() + PiecesText(pieces[1..])
  }

  function PiecesMean(pieces: seq<Piece>, status: nat): string {
    if pieces == [] then "" else pieces[0].Means(status) + PiecesMean(pieces[1..], status)
  }

  /** A word: pieces in order, of which no two bare ones touch. */
  predicate PiecesOk(pieces: seq<Piece>) {
    && (forall k :: 0 <= k < |pieces| ==> pieces[k].Ok())
    && (forall k {:trigger pieces[k]} :: 0 <= k < |pieces| - 1 ==> !(pieces[k].Bare? && pieces[k + 1].Bare?))
  }

  /** How far the write pointer is behind the read pointer after a piece. */
  function GapAfter(piece: Piece, status: nat, gap: nat): int {
    match piece
    case Bare(_) => gap
    case LastStatus => gap + 2 - |Digits(status)|
    case _ => gap + 2
  }

  /** The pieces can be compacted in place: quotes in front of it leave room for the
      digits of the status. */
  predicate PiecesFit(pieces: seq<Piece>, status: nat, gap: nat)
    decreases |pieces|
  {
    pieces == [] || (GapAfter(pieces[0], status, gap) >= 0 &&
                     PiecesFit(pieces[1..], status, GapAfter(pieces[0], status, gap)))
  }

  /** "~" and what begins with "~/" stand for /root. */
  function AtHome(word: string): string {
    if word == "~" then "/root"
    else if |word| >= 2 && word[..2] == "~/" then "/root/" + word[2..]
    else word
  }

  /** A word, or a redirection with its own blanks. */
  datatype Part =
    | Word(pieces: seq<Piece>)
    | From(gap: string, name: string)
    | To(gap: string, name: string, append: bool)
  {
    function Text(): string {
      match this
      case Word(pieces) => PiecesText(pieces)
      case From(gap, name) => "<" + gap + name
      case To(gap, name, append) => (if append then ">>" else ">") + gap + name
    }

    predicate Ok() {
      match this
      case Word(pieces) => pieces != [] && PiecesOk(pieces)
      case From(gap, name) => Blanks(gap) && NameOk(name)
      case To(gap, name, _) => Blanks(gap) && NameOk(name)
    }

    predicate Fits(status: nat) {
      Word? ==> PiecesFit(pieces, status, 0)
    }

    function CountTo(count: nat): nat {
      if Word? then count + 1 else count
    }

    function AddTo(status: nat, cl: Cmdline): Cmdline {
      match this
      case Word(pieces) => cl.(items := cl.items + [AtHome(PiecesMean(pieces, status))])
      case From(_, name) => cl.(inp := Input(name))
      case To(_, name, append) => cl.(out := Output(name, append))
    }
  }

  predicate Blanks(s: string) {
    forall i :: 0 <= i < |s| ==> s[i] == ' ' || s[i] == '\t'
  }

  predicate NameOk(name: string) {
    && 1 <= |name| < 255
    && forall i :: 0 <= i < |name| ==> name[i] != ' ' && name[i] != '\t' && name[i] != '<' && name[i] != '>'
  }

  /** A part as it stands in the line, with the blanks in front of it. */
  datatype Spaced = Spaced(blanks: string, text: string, part: Part)
  {
    predicate Ok() {
      part.Ok() && text == part.Text() && Blanks(blanks)
    }
  }

  function Print(parts: seq<Spaced>): string {
    if parts == [] then "" else parts[0].blanks + parts[0].text + Print(parts[1..])
  }

  function AddAll(parts: seq<Spaced>, status: nat, cl: Cmdline): Cmdline
    decreases |parts|
  {
    if parts == [] then cl else AddAll(parts[1..], status, parts[0].part.AddTo(status, cl))
  }

  /** Reading ends with the 63rd word. */
  function Taken(parts: seq<Spaced>, status: nat, cl: Cmdline): Cmdline
    decreases |parts|
  {
    if parts == [] || |cl.items| >= 63 then cl else Taken(parts[1..], status, parts[0].part.AddTo(status, cl))
  }

  /** Every word that is read can be compacted in place. */
  predicate AllFit(parts: seq<Spaced>, status: nat, count: nat)
    decreases |parts|
  {
    || parts == [] || count >= 63
    || (parts[0].part.Fits(status) && AllFit(parts[1..], status, parts[0].part.CountTo(count)))
  }

  function WordsIn(parts: seq<Spaced>): nat {
    if parts == [] then 0 else parts[0].part.CountTo(WordsIn(parts[1..]))
  }

  /** Every part is in order, and blanks separate it from the one before. */
  ghost predicate AllOk(parts: seq<Spaced>) {
    forall k :: 0 <= k < |parts| ==> parts[k].Ok() && (k > 0 ==> parts[k].blanks != "")
  }

  // ----- the round trip

  lemma {:induction false} SkipsBlanks(s: string, i: nat, n: nat)
    requires i + n <= |s| && Blanks(s[i..i + n]) && (i + n < |s| ==> !Blank(s[i + n]))
    ensures SkipBlanks(s, i) == i + n
    decreases n
  {
    if n > 0 {
      assert s[i] == s[i..i + n][0];
      assert s[i + 1..i + n] == s[i..i + n][1..];
      SkipsBlanks(s, i + 1, n - 1);
    }
  }

  /** What stands in quotes, up to the closing one. */
  lemma {:induction false} InsideQuotes(s: string, status: nat, i: nat, n: nat, quote: Quote, close: char, gap: nat)
    requires i + n < |s| && close !in s[i..i + n] && s[i + n] == close
    requires (quote == Single && close == '\'') || (quote == Double && close == '"')
    ensures WordText(s, status, i, quote) == s[i..i + n] + WordText(s, status, i + n + 1, Plain)
    ensures WordEnd(s, i, quote) == WordEnd(s, i + n + 1, Plain)
    ensures WordFits(s, status, i, quote, gap) == WordFits(s, status, i + n + 1, Plain, gap + 1)
    decreases n
  {
    if n > 0 {
      assert s[i] == s[i..i + n][0] && s[i + 1..i + n] == s[i..i + n][1..];
      assert s[i..i + n] == [s[i]] + s[i + 1..i + n];
      InsideQuotes(s, status, i + 1, n - 1, quote, close, gap);
    } else {
      assert s[i..i + n] == "";
    }
  }

  predicate MeansItself(s: string, k: nat)
    requires k < |s|
  {
    ActionAt(s, k, Plain) == Copy
  }

  /** Characters that mean themselves. */
  lemma {:induction false} BareText(s: string, status: nat, i: nat, e: nat, gap: nat)
    requires i <= e <= |s|
    requires forall k :: i <= k < e ==> MeansItself(s, k)
    ensures WordText(s, status, i, Plain) == s[i..e] + WordText(s, status, e, Plain)
    ensures WordEnd(s, i, Plain) == WordEnd(s, e, Plain)
    ensures WordFits(s, status, i, Plain, gap) == WordFits(s, status, e, Plain, gap)
    decreases e - i
  {
    if i < e {
      assert MeansItself(s, i);
      BareText(s, status, i + 1, e, gap);
      assert s[i..e] == [s[i]] + s[i + 1..e];
      Associative([s[i]], s[i + 1..e], WordText(s, status, e, Plain));
    } else {
      assert s[i..e] == "";
    }
  }

  /** A bare piece that no "?" follows: all of its characters are copied. */
  lemma BareCopies(s: string, p: nat, t: string, q: nat)
    requires q == p + |t| <= |s| && s[p..q] == t && AllBare(t) && (q < |s| ==> s[q] != '?')
    ensures forall k :: p <= k < q ==> MeansItself(s, k)
  {
    forall k | p <= k < q
      ensures MeansItself(s, k)
    {
      assert s[k] == t[k - p];
      assert k + 1 < q ==> s[k + 1] == t[k - p + 1];
    }
  }

  lemma InnerSlice(s: string, p: nat, n: nat, open: string, inner: string)
    requires |open| == 1 && n == |inner| && p + n + 2 <= |s| && s[p..p + n + 2] == open + inner + open
    ensures s[p] == open[0] && s[p + 1..p + 1 + n] == inner && s[p + 1 + n] == open[0]
  {
    SplitSlice(s, p, open + inner, open);
    SplitSlice(s, p, open, inner);
    assert s[p] == s[p..p + 1][0];
    assert s[p + 1 + n] == s[p + 1 + n..p + n + 2][0];
  }

  lemma ReadQuotes(s: string, status: nat, p: nat, quote: Quote, mark: string, t: string, q: nat, gap: nat)
    requires (quote == Single && mark == "'") || (quote == Double && mark == "\"")
    requires mark[0] !in t && q == p + |t| + 2 <= |s| && s[p..q] == mark + t + mark
    ensures WordText(s, status, p, Plain) == t + WordText(s, status, q, Plain)
    ensures WordEnd(s, p, Plain) == WordEnd(s, q, Plain)
    ensures WordFits(s, status, p, Plain, gap) == WordFits(s, status, q, Plain, gap + 2)
  {
    InnerSlice(s, p, |t|, mark, t);
    InsideQuotes(s, status, p + 1, |t|, quote, mark[0], gap + 1);
  }

  lemma ReadStatus(s: string, status: nat, p: nat, gap: nat)
    requires p + 2 <= |s| && s[p..p + 2] == "$?"
    ensures WordText(s, status, p, Plain) == Digits(status) + WordText(s, status, p + 2, Plain)
    ensures WordEnd(s, p, Plain) == WordEnd(s, p + 2, Plain)
    ensures WordFits(s, status, p, Plain, gap) ==
      (|Digits(status)| <= gap + 2 && WordFits(s, status, p + 2, Plain, gap + 2 - |Digits(status)|))
  {
    assert s[p] == s[p..p + 2][0] && s[p + 1] == s[p..p + 2][1];
  }

  /** One piece of a word, at p and up to q. */
  lemma ReadPiece(s: string, status: nat, p: nat, piece: Piece, q: nat, gap: nat)
    requires piece.Ok() && q == p + |piece.Text()| <= |s| && s[p..q] == piece.Text()
    requires piece.Bare? && q < |s| ==> s[q] != '?'
    ensures WordText(s, status, p, Plain) == piece.Means(status) + WordText(s, status, q, Plain)
    ensures WordEnd(s, p, Plain) == WordEnd(s, q, Plain)
    ensures WordFits(s, status, p, Plain, gap) ==
      (GapAfter(piece, status, gap) >= 0 && WordFits(s, status, q, Plain, GapAfter(piece, status, gap)))
  {
    hide WordText, WordEnd, WordFits, AllBare;
    match piece {
      case Bare(t) =>
        BareCopies(s, p, t, q);
        BareText(s, status, p, q, gap);
      case Quoted(t) => ReadQuotes(s, status, p, Single, "'", t, q, gap);
      case DoubleQuoted(t) => ReadQuotes(s, status, p, Double, "\"", t, q, gap);
      case LastStatus => ReadStatus(s, status, p, gap);
    }
  }

  /** Outside quotes a word ends here. */
  predicate WordStops(s: string, e: nat) {
    e == |s| || (e < |s| && s[e] in " \t<>")
  }

  /** Behind a bare piece nothing makes a "$?" of its last character. */
  lemma NextStarts(s: string, q: nat, rest: seq<Piece>, e: nat)
    requires q <= e <= |s| && s[q..e] == PiecesText(rest) && PiecesOk(rest) && (rest != [] ==> !rest[0].Bare?)
    requires WordStops(s, e)
    ensures q < |s| ==> s[q] != '?'
  {
    if rest != [] {
      assert s[q] == s[q..e][0] == rest[0].Text()[0];
    }
  }

  lemma PiecesRest(pieces: seq<Piece>)
    requires pieces != [] && PiecesOk(pieces)
    ensures PiecesOk(pieces[1..]) && pieces[0].Ok()
    ensures pieces[0].Bare? && pieces[1..] != [] ==> !pieces[1..][0].Bare?
  {
    var rest := pieces[1..];
    forall k | 0 <= k < |rest|
      ensures rest[k].Ok() && (k < |rest| - 1 ==> !(rest[k].Bare? && rest[k + 1].Bare?))
    {
      assert rest[k] == pieces[k + 1] && (k < |rest| - 1 ==> rest[k + 1] == pieces[(k + 1) + 1]);
    }
    assert pieces[1..] != [] ==> pieces[1..][0] == pieces[0 + 1];
  }

  /** A word made of pieces, up to a blank, an operator or the end of the line. */
  lemma {:induction false} ReadPieces(s: string, status: nat, p: nat, pieces: seq<Piece>, e: nat, gap: nat)
    requires PiecesOk(pieces) && e == p + |PiecesText(pieces)| <= |s| && s[p..e] == PiecesText(pieces)
    requires WordStops(s, e)
    ensures WordText(s, status, p, Plain) == PiecesMean(pieces, status) && WordEnd(s, p, Plain) == e
    ensures WordFits(s, status, p, Plain, gap) == PiecesFit(pieces, status, gap)
    decreases |pieces|
  {
    hide WordText, WordEnd, WordFits, PiecesOk, GapAfter;
    if pieces == [] {
      AtEnd(s, status, e, gap);
    } else {
      var rest, q := pieces[1..], p + |pieces[0].Text()|;
      FirstPiece(s, p, pieces, e, q);
      ReadPiece(s, status, p, pieces[0], q, gap);
      hide Piece.Text, Piece.Means, PiecesText;
      var left := GapAfter(pieces[0], status, gap);
      ReadPieces(s, status, q, rest, e, if left >= 0 then left else 0);
    }
  }

  /** The first piece stands in front of the others. */
  lemma FirstPiece(s: string, p: nat, pieces: seq<Piece>, e: nat, q: nat)
    requires pieces != [] && PiecesOk(pieces) && q == p + |pieces[0].Text()|
    requires e == p + |PiecesText(pieces)| <= |s| && s[p..e] == PiecesText(pieces)
    requires WordStops(s, e)
    ensures PiecesOk(pieces[1..]) && pieces[0].Ok()
    ensures e == q + |PiecesText(pieces[1..])| && s[p..q] == pieces[0].Text() && s[q..e] == PiecesText(pieces[1..])
    ensures pieces[0].Bare? && q < |s| ==> s[q] != '?'
  {
    PiecesRest(pieces);
    CutSlice(s, p, pieces[0].Text(), PiecesText(pieces[1..]), PiecesText(pieces), q, e);
    hide PiecesOk, PiecesText, Piece.Text, Piece.Ok, WordStops;
    if pieces[0].Bare? {
      NextStarts(s, q, pieces[1..], e);
    }
  }

  lemma AtEnd(s: string, status: nat, e: nat, gap: nat)
    requires WordStops(s, e)
    ensures WordText(s, status, e, Plain) == "" && WordEnd(s, e, Plain) == e && WordFits(s, status, e, Plain, gap)
  {
  }

  lemma ExpandsTilde(word: string)
    ensures ExpandTilde(word) == AtHome(word)
  {
    if |word| >= 2 {
      assert word[..2] == [word[0], word[1]] && word[1..] == [word[1]] + word[2..];
    }
  }

  lemma {:induction false} TargetEnds(s: string, i: nat, n: nat)
    requires i + n <= |s| && (i + n < |s| ==> Blank(s[i + n]))
    requires forall k :: i <= k < i + n ==> !Blank(s[k]) && !Redirects(s[k])
    ensures TargetEnd(s, i) == i + n
    decreases n
  {
    if n > 0 {
      TargetEnds(s, i + 1, n - 1);
    }
  }

  lemma SplitSlice(s: string, p: nat, left: string, right: string)
    requires p + |left + right| <= |s| && s[p..p + |left + right|] == left + right
    ensures s[p..p + |left|] == left && s[p + |left|..p + |left| + |right|] == right
  {
    var text := s[p..p + |left + right|];
    assert text[..|left|] == left && text[|left|..] == right;
  }

  lemma CutSlice(s: string, p: nat, left: string, right: string, whole: string, q: nat, e: nat)
    requires whole == left + right && q == p + |left| && e == p + |whole| <= |s| && s[p..e] == whole
    ensures e == q + |right| && s[p..q] == left && s[q..e] == right
  {
    SplitSlice(s, p, left, right);
  }

  lemma SplitSuffix(s: string, p: nat, left: string, right: string)
    requires p <= |s| && s[p..] == left + right
    ensures p + |left| <= |s| && s[p..p + |left|] == left && s[p + |left|..] == right
  {
    assert s[p..][..|left|] == left && s[p..][|left|..] == right;
  }

  /** The operator in front of something that does not redirect. */
  lemma Operator(s: string, p: nat, op: string)
    requires op == "<" || op == ">" || op == ">>"
    requires p + |op| < |s| && s[p..p + |op|] == op && !Redirects(s[p + |op|])
    ensures s[p] == op[0] && Appends(s, p) == (op == ">>")
    ensures TargetStart(s, p) == SkipBlanks(s, p + |op|)
  {
    assert s[p] == s[p..p + |op|][0];
    if |op| == 2 {
      assert s[p + 1] == s[p..p + |op|][1];
    }
  }

  lemma TargetAt(s: string, p: nat, gap: string, name: string)
    requires Blanks(gap) && NameOk(name) && p + |gap| + |name| <= |s|
    requires s[p..p + |gap|] == gap && s[p + |gap|..p + |gap| + |name|] == name
    requires p + |gap| + |name| == |s| || Blank(s[p + |gap| + |name|])
    ensures SkipBlanks(s, p) == p + |gap| && TargetEnd(s, p + |gap|) == p + |gap| + |name|
    ensures !Redirects(s[p])
  {
    var q := p + |gap|;
    forall k | q <= k < q + |name|
      ensures !Blank(s[k]) && !Redirects(s[k])
    {
      assert s[k] == s[q..q + |name|][k - q];
    }
    TargetEnds(s, q, |name|);
    SkipsBlanks(s, p, |gap|);
    if gap != "" {
      assert s[p] == s[p..q][0];
    }
  }

  function Redirected(op: string, name: string, cl: Cmdline): Cmdline {
    if op == "<" then cl.(inp := Input(name)) else cl.(out := Output(name, op == ">>"))
  }

  /** A redirection with blanks before its target. */
  lemma TargetIsTaken(s: string, p: nat, op: string, q: nat, e: nat, name: string, cl: Cmdline)
    requires op == "<" || op == ">" || op == ">>"
    requires p < q <= e <= |s| && s[p] == op[0] && Appends(s, p) == (op == ">>")
    requires TargetStart(s, p) == q && TargetEnd(s, q) == e && s[q..e] == name && |name| < 255
    ensures WithTarget(s, p, cl) == Redirected(op, name, cl)
  {
  }

  lemma ReadRedirection(s: string, p: nat, op: string, gap: string, name: string, cl: Cmdline, e: nat)
    requires op == "<" || op == ">" || op == ">>"
    requires Blanks(gap) && NameOk(name)
    requires e == p + |op + gap + name| <= |s| && s[p..e] == op + gap + name
    requires e == |s| || Blank(s[e])
    ensures !Blank(s[p]) && Redirects(s[p])
    ensures NextPos(s, p) == After(s, e) && WithTarget(s, p, cl) == Redirected(op, name, cl)
  {
    hide Blanks, SkipBlanks, TargetEnd, FileName;
    SplitSlice(s, p, op + gap, name);
    SplitSlice(s, p, op, gap);
    TargetAt(s, p + |op|, gap, name);
    Operator(s, p, op);
    TargetIsTaken(s, p, op, p + |op| + |gap|, e, name, cl);
  }

  lemma WordStarts(pieces: seq<Piece>)
    requires pieces != [] && PiecesOk(pieces)
    ensures PiecesText(pieces) != "" && !Blank(PiecesText(pieces)[0]) && !Redirects(PiecesText(pieces)[0])
  {
    assert pieces[0].Ok() && PiecesText(pieces)[0] == pieces[0].Text()[0];
    if pieces[0].Bare? {
      assert pieces[0].text[0] in pieces[0].text;
    }
  }

  /** A word is read as what its pieces mean. The character behind it is skipped, so that an
      operator glued to a word redirects nothing. */
  lemma ReadWord(s: string, status: nat, p: nat, pieces: seq<Piece>, cl: Cmdline, e: nat)
    requires pieces != [] && PiecesOk(pieces)
    requires e == p + |PiecesText(pieces)| <= |s| && s[p..e] == PiecesText(pieces)
    requires WordStops(s, e)
    ensures p < |s| && !Blank(s[p]) && !Redirects(s[p])
    ensures NextPos(s, p) == After(s, e) && TokenFits(s, status, p) == PiecesFit(pieces, status, 0)
    ensures WithToken(s, status, p, cl) == cl.(items := cl.items + [AtHome(PiecesMean(pieces, status))])
  {
    hide PiecesOk, PiecesText;
    WordStarts(pieces);
    ReadPieces(s, status, p, pieces, e, 0);
    ExpandsTilde(PiecesMean(pieces, status));
    assert s[p] == s[p..e][0];
  }

  /** One part, read where it is printed. */
  lemma ReadPart(s: string, status: nat, p: nat, part: Part, cl: Cmdline, count: nat, e: nat)
    requires part.Ok() && e == p + |part.Text()| <= |s| && s[p..e] == part.Text()
    requires e == |s| || Blank(s[e])
    ensures p < |s| && !Blank(s[p])
    ensures NextPos(s, p) == After(s, e) && TokenFits(s, status, p) == part.Fits(status)
    ensures WithToken(s, status, p, cl) == part.AddTo(status, cl) && CountAfter(s, p, count) == part.CountTo(count)
  {
    match part {
      case Word(pieces) => ReadWord(s, status, p, pieces, cl, e);
      case From(gap, name) => ReadRedirection(s, p, "<", gap, name, cl, e);
      case To(gap, name, append) => ReadRedirection(s, p, if append then ">>" else ">", gap, name, cl, e);
    }
  }

  /** What is left to read after a part, without the skipped blank. */
  function DropBlank(parts: seq<Spaced>): seq<Spaced> {
    if parts == [] || parts[0].blanks == "" then parts
    else [parts[0].(blanks := parts[0].blanks[1..])] + parts[1..]
  }

  function DropFirst(s: string): string {
    if s == "" then s else s[1..]
  }

  lemma AllOkRest(parts: seq<Spaced>)
    requires AllOk(parts) && parts != []
    ensures AllOk(parts[1..])
    ensures parts[1..] != [] ==> parts[1..][0].blanks != "" && Blanks(parts[1..][0].blanks)
  {
    var rest := parts[1..];
    forall k | 0 <= k < |rest|
      ensures rest[k].Ok() && rest[k].blanks != ""
    {
      assert rest[k] == parts[k + 1];
    }
  }

  lemma DropBlankOk(parts: seq<Spaced>, status: nat, cl: Cmdline, count: nat)
    requires AllOk(parts)
    ensures AllOk(DropBlank(parts)) && Taken(DropBlank(parts), status, cl) == Taken(parts, status, cl)
    ensures AllFit(DropBlank(parts), status, count) == AllFit(parts, status, count)
    ensures |DropBlank(parts)| == |parts|
  {
    if parts != [] && parts[0].blanks != "" {
      var ps := DropBlank(parts);
      assert ps[0] == parts[0].(blanks := parts[0].blanks[1..]) && ps[1..] == parts[1..];
      forall k | 0 <= k < |ps|
        ensures ps[k].Ok() && (k > 0 ==> ps[k].blanks != "")
      {
        if k == 0 {
          forall i | 0 <= i < |ps[0].blanks|
            ensures Blank(ps[0].blanks[i])
          {
            assert ps[0].blanks[i] == parts[0].blanks[i + 1];
          }
        } else {
          assert ps[k] == parts[k];
        }
      }
    }
  }

  /** The parts stand in the line from i on, and after them the trailing blanks. */
  ghost predicate Shows(s: string, i: nat, parts: seq<Spaced>, trail: string)
    decreases |parts|
  {
    if parts == [] then i + |trail| == |s| && s[i..] == trail && Blanks(trail)
    else
      var p := i + |parts[0].blanks|;
      var e := p + |parts[0].text|;
      e <= |s| && s[i..p] == parts[0].blanks && s[p..e] == parts[0].text && Shows(s, e, parts[1..], trail)
  }

  lemma PrintNext(parts: seq<Spaced>)
    requires parts != []
    ensures Print(parts) == parts[0].blanks + parts[0].text + Print(parts[1..])
  {
  }

  lemma ShowsNext(s: string, i: nat, parts: seq<Spaced>, trail: string)
    requires i <= |s| && parts != []
    requires
      var p := i + |parts[0].blanks|;
      var e := p + |parts[0].text|;
      e <= |s| && s[i..p] == parts[0].blanks && s[p..e] == parts[0].text && Shows(s, e, parts[1..], trail)
    ensures Shows(s, i, parts, trail)
  {
  }

  lemma ShowsTrail(s: string, i: nat, trail: string)
    requires i <= |s| && s[i..] == trail && Blanks(trail)
    ensures Shows(s, i, [], trail)
  {
  }

  lemma {:induction false} PrintShows(s: string, i: nat, parts: seq<Spaced>, trail: string)
    requires i <= |s| && s[i..] == Print(parts) + trail && Blanks(trail)
    ensures Shows(s, i, parts, trail)
    decreases |parts|
  {
    hide Shows, Blanks;
    if parts == [] {
      PlusNothing(trail);
      ShowsTrail(s, i, trail);
    } else {
      var blanks, text, tail := parts[0].blanks, parts[0].text, Print(parts[1..]) + trail;
      PrintNext(parts);
      hide Print;
      Associative(blanks + text, Print(parts[1..]), trail);
      Associative(blanks, text, tail);
      SplitSuffix(s, i, blanks, text + tail);
      SplitSuffix(s, i + |blanks|, text, tail);
      PrintShows(s, i + |blanks| + |text|, parts[1..], trail);
      ShowsNext(s, i, parts, trail);
    }
  }

  lemma StandsBehind(s: string, i: nat, parts: seq<Spaced>, trail: string)
    requires i <= |s| && parts != [] && Shows(s, i, parts, trail)
    ensures
      var p := i + |parts[0].blanks|;
      var e := p + |parts[0].text|;
      e <= |s| && s[i..p] == parts[0].blanks && s[p..e] == parts[0].text && Shows(s, e, parts[1..], trail)
  {
  }

  /** What stands after the character skipped at e. */
  lemma AfterBlank(s: string, e: nat, parts: seq<Spaced>, trail: string)
    requires e <= |s| && Shows(s, e, parts, trail)
    requires parts != [] ==> parts[0].blanks != ""
    ensures Shows(s, After(s, e), DropBlank(parts), if parts == [] then DropFirst(trail) else trail)
  {
    hide Shows, Blanks;
    if parts != [] {
      var ps, blanks := DropBlank(parts), parts[0].blanks;
      assert ps[1..] == parts[1..] && ps[0] == parts[0].(blanks := blanks[1..]);
      StandsBehind(s, e, parts, trail);
      SliceTail(s, e, e + |blanks|);
      ShowsNext(s, e + 1, ps, trail);
    } else {
      LexNothing(s, e, parts, trail);
      DropFirstBlanks(trail);
      if trail != "" {
        SliceTail(s, e, |s|);
      }
      ShowsTrail(s, After(s, e), DropFirst(trail));
    }
  }

  lemma DropFirstBlanks(trail: string)
    requires Blanks(trail)
    ensures Blanks(DropFirst(trail))
  {
    forall i | 0 <= i < |DropFirst(trail)|
      ensures Blank(DropFirst(trail)[i])
    {
      assert DropFirst(trail)[i] == trail[i + 1];
    }
  }

  lemma LexEnd(s: string, status: nat, i: nat, trail: string, cl: Cmdline, count: nat)
    requires i <= |s| && s[i..] == trail && Blanks(trail)
    ensures Lex(s, status, i, cl) == cl && LineFits(s, status, i, count)
  {
    assert s[i..i + |trail|] == trail;
    SkipsBlanks(s, i, |trail|);
  }

  lemma LexNext(s: string, status: nat, i: nat, p: nat, cl: Cmdline, count: nat)
    requires i <= p < |s| && SkipBlanks(s, i) == p && !Blank(s[p]) && |cl.items| < 63 && count < 63
    ensures Lex(s, status, i, cl) == Lex(s, status, NextPos(s, p), WithToken(s, status, p, cl))
    ensures LineFits(s, status, i, count) ==
      (TokenFits(s, status, p) && LineFits(s, status, NextPos(s, p), CountAfter(s, p, count)))
  {
  }

  /** The first part in the line: blanks before it, and a blank or the end after it. */
  lemma FirstPart(s: string, i: nat, parts: seq<Spaced>, trail: string)
    requires parts != [] && Shows(s, i, parts, trail) && Blanks(trail)
    requires Blanks(parts[0].blanks) && parts[0].text != "" && !Blank(parts[0].text[0])
    requires parts[1..] != [] ==> parts[1..][0].blanks != "" && Blanks(parts[1..][0].blanks)
    ensures var p := i + |parts[0].blanks|; var e := p + |parts[0].text|;
      && p < |s| && SkipBlanks(s, i) == p && !Blank(s[p])
      && e <= |s| && (e == |s| || Blank(s[e]))
  {
    var n := |parts[0].blanks|;
    var p := i + n;
    var e := p + |parts[0].text|;
    assert s[p] == s[p..e][0];
    SkipsBlanks(s, i, n);
    StartsBlank(s, e, parts[1..], trail);
  }

  lemma FirstIsNotBlank(spaced: Spaced)
    requires spaced.Ok()
    ensures Blanks(spaced.blanks) && spaced.text != "" && !Blank(spaced.text[0])
  {
    if spaced.part.Word? {
      WordStarts(spaced.part.pieces);
    }
  }

  lemma StartsBlank(s: string, e: nat, rest: seq<Spaced>, trail: string)
    requires e <= |s| && Shows(s, e, rest, trail) && (rest != [] ==> rest[0].blanks != "" && Blanks(rest[0].blanks))
    ensures e == |s| || Blank(s[e])
  {
    if rest != [] {
      assert s[e] == s[e..e + |rest[0].blanks|][0];
    } else if e < |s| {
      assert s[e] == s[e..][0];
    }
  }

  /** The first part is read, and reading goes on behind it. */
  lemma ReadFirst(s: string, status: nat, i: nat, parts: seq<Spaced>, trail: string, cl: Cmdline, count: nat, e: nat)
    requires i <= |s| && parts != [] && Shows(s, i, parts, trail) && AllOk(parts) && Blanks(trail)
    requires parts[1..] != [] ==> parts[1..][0].blanks != "" && Blanks(parts[1..][0].blanks)
    requires e == i + |parts[0].blanks| + |parts[0].text| && |cl.items| < 63 && count < 63
    ensures e <= |s|
    ensures Lex(s, status, i, cl) == Lex(s, status, After(s, e), parts[0].part.AddTo(status, cl))
    ensures LineFits(s, status, i, count)
      == (parts[0].part.Fits(status) && LineFits(s, status, After(s, e), parts[0].part.CountTo(count)))
  {
    var p := i + |parts[0].blanks|;
    FirstIsNotBlank(parts[0]);
    FirstPart(s, i, parts, trail);
    ReadPart(s, status, p, parts[0].part, cl, count, e);
    LexNext(s, status, i, p, cl, count);
  }

  lemma LexFull(s: string, status: nat, i: nat, cl: Cmdline)
    requires i <= |s| && |cl.items| >= 63
    ensures Lex(s, status, i, cl) == cl && LineFits(s, status, i, |cl.items|)
  {
  }

  lemma LexNothing(s: string, i: nat, parts: seq<Spaced>, trail: string)
    requires i <= |s| && parts == [] && Shows(s, i, parts, trail)
    ensures s[i..] == trail && i + |trail| == |s| && Blanks(trail)
  {
  }

  lemma CountAdded(part: Part, status: nat, cl: Cmdline)
    ensures |part.AddTo(status, cl).items| == part.CountTo(|cl.items|)
  {
  }

  /** The line behind a part that has been read, and the blank behind that. */
  lemma RestOfLine(s: string, e: nat, rest: seq<Spaced>, trail: string, status: nat, cl: Cmdline, count: nat)
    returns (ps: seq<Spaced>, left: string)
    requires e <= |s| && Shows(s, e, rest, trail) && AllOk(rest) && Blanks(trail)
    requires rest != [] ==> rest[0].blanks != ""
    ensures Shows(s, After(s, e), ps, left) && AllOk(ps) && Blanks(left) && |ps| == |rest|
    ensures Taken(ps, status, cl) == Taken(rest, status, cl) && AllFit(ps, status, count) == AllFit(rest, status, count)
  {
    AfterBlank(s, e, rest, trail);
    DropBlankOk(rest, status, cl, count);
    DropFirstBlanks(trail);
    ps, left := DropBlank(rest), if rest == [] then DropFirst(trail) else trail;
  }

  /** Words and redirections, separated by blanks, come back as what they mean, up to the
      63rd word, and the line can be tokenized in place exactly when these words can. */
  lemma {:induction false} RoundTripFrom(s: string, status: nat, i: nat, parts: seq<Spaced>, trail: string, cl: Cmdline)
    requires i <= |s| && Shows(s, i, parts, trail) && AllOk(parts) && Blanks(trail)
    ensures Lex(s, status, i, cl) == Taken(parts, status, cl)
    ensures LineFits(s, status, i, |cl.items|) == AllFit(parts, status, |cl.items|)
    decreases |parts|
  {
    hide Lex, LineFits, Shows, AllOk, Blanks;
    if |cl.items| >= 63 {
      LexFull(s, status, i, cl);
    } else if parts == [] {
      LexNothing(s, i, parts, trail);
      LexEnd(s, status, i, trail, cl, |cl.items|);
    } else {
      var rest, added := parts[1..], parts[0].part.AddTo(status, cl);
      var e := i + |parts[0].blanks| + |parts[0].text|;
      AllOkRest(parts);
      ReadFirst(s, status, i, parts, trail, cl, |cl.items|, e);
      StandsBehind(s, i, parts, trail);
      CountAdded(parts[0].part, status, cl);
      var ps, left := RestOfLine(s, e, rest, trail, status, added, |added.items|);
      RoundTripFrom(s, status, After(s, e), ps, left, added);
    }
  }

  /** When no part follows 63 words, all of them are taken. */
  lemma {:induction false} AllTaken(parts: seq<Spaced>, status: nat, cl: Cmdline)
    requires parts != [] ==> |cl.items| + WordsIn(parts[..|parts| - 1]) <= 62
    ensures Taken(parts, status, cl) == AddAll(parts, status, cl)
    decreases |parts|
  {
    if parts != [] {
      var front, rest := parts[..|parts| - 1], parts[1..];
      if rest != [] {
        assert front[0] == parts[0] && front[1..] == rest[..|rest| - 1];
      }
      AllTaken(rest, status, parts[0].part.AddTo(status, cl));
    }
  }

  /** The tokenizer round trip for a whole line. */
  lemma RoundTrip(parts: seq<Spaced>, trail: string, status: nat)
    requires AllOk(parts) && Blanks(trail)
    ensures var line := Print(parts) + trail;
      && Lex(line, status, 0, EMPTY) == Taken(parts, status, EMPTY)
      && LineFits(line, status, 0, 0) == AllFit(parts, status, 0)
    ensures (parts != [] ==> WordsIn(parts[..|parts| - 1]) <= 62) ==>
      Lex(Print(parts) + trail, status, 0, EMPTY) == AddAll(parts, status, EMPTY)
  {
    var line := Print(parts) + trail;
    assert line[0..] == line;
    PrintShows(line, 0, parts, trail);
    RoundTripFrom(line, status, 0, parts, trail, EMPTY);
    if parts != [] ==> WordsIn(parts[..|parts| - 1]) <= 62 {
      AllTaken(parts, status, EMPTY);
    }
  }
}
