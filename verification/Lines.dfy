/** Opening an input by its name and splitting it into lines (`open_input` and
    `split_lines`, src/cmds.c:46-97). */
module Lines {
  import opened Strings

  /** The text that a command works on, or the name of the missing file. */
  datatype Opened = Text(data: string) | NoFile(name: string)

  function OpenFile(name: string, files: map<string, string>): Opened {
    if name in files then Text(files[name]) else NoFile(name)
  }

  function NoSuchFile(name: string): string {
    name + ": no such file\n"
  }

  predicate NoNewlines(lines: seq<string>) {
    forall k :: 0 <= k < |lines| ==> '\n' !in lines[k]
  }

  /** The lines of a text: everything between newlines, and an unfinished last line
      if there is one. */
  function Split(data: string): seq<string> {
    LinesFrom(data, 0, 0)
  }

  /** The lines from `start` on, when there is no newline between `start` and `i`. */
  function LinesFrom(data: string, start: nat, i: nat): seq<string>
    requires start <= i <= |data|
    decreases |data| - i
  {
    if i == |data| then if start < i then [data[start..i]] else []
    else if data[i] == '\n' then [data[start..i]] + LinesFrom(data, i + 1, i + 1)
    else LinesFrom(data, start, i + 1)
  }

  /** A text with its last line finished. */
  function Finished(data: string): string {
    if data == "" || data[|data| - 1] == '\n' then data else data + "\n"
  }

  lemma {:induction false} LinesHaveNoNewlines(data: string, start: nat, i: nat)
    requires start <= i <= |data| && '\n' !in data[start..i]
    ensures NoNewlines(LinesFrom(data, start, i))
    decreases |data| - i
  {
    if i < |data| {
      if data[i] == '\n' {
        LinesHaveNoNewlines(data, i + 1, i + 1);
      } else {
        assert data[start..i + 1] == data[start..i] + [data[i]];
        LinesHaveNoNewlines(data, start, i + 1);
      }
    }
  }

  lemma UnlinesCons(line: string, rest: seq<string>)
    ensures Unlines([line] + rest) == line + "\n" + Unlines(rest)
  {
    assert ([line] + rest)[1..] == rest;
  }

  lemma {:induction false} UnlinesOfLines(data: string, start: nat, i: nat)
    requires start <= i <= |data| && '\n' !in data[start..i]
    ensures Unlines(LinesFrom(data, start, i)) == Finished(data[start..])
    decreases |data| - i
  {
    if i == |data| {
      if start < i {
        UnlinesCons(data[start..i], []);
        assert data[start..] == data[start..i];
        assert data[i - 1] in data[start..i];
        assert data[start..i] + "\n" + "" == data[start..i] + "\n";
      }
    } else if data[i] == '\n' {
      UnlinesOfLines(data, i + 1, i + 1);
      UnlinesCons(data[start..i], LinesFrom(data, i + 1, i + 1));
      FinishedAfterLine(data, start, i);
    } else {
      assert data[start..i + 1] == data[start..i] + [data[i]];
      UnlinesOfLines(data, start, i + 1);
    }
  }

  lemma FinishedAfterLine(data: string, start: nat, i: nat)
    requires start <= i < |data| && data[i] == '\n'
    ensures Finished(data[start..]) == data[start..i] + "\n" + Finished(data[i + 1..])
  {
    var rest := data[i + 1..];
    assert data[start..] == data[start..i] + "\n" + rest;
  }

  /** Printing the lines of a text gives the text back, with its last line finished. */
  lemma SplitThenPrint(data: string)
    ensures NoNewlines(Split(data)) && Unlines(Split(data)) == Finished(data)
  {
    assert data[0..] == data;
    LinesHaveNoNewlines(data, 0, 0);
    UnlinesOfLines(data, 0, 0);
  }

  lemma {:induction false} NextNewline(data: string, start: nat, i: nat, k: nat)
    requires start <= i <= k < |data| && data[k] == '\n' && '\n' !in data[i..k]
    ensures LinesFrom(data, start, i) == [data[start..k]] + LinesFrom(data, k + 1, k + 1)
    decreases k - i
  {
    if i < k {
      assert data[i] == data[i..k][0] && data[i + 1..k] == data[i..k][1..];
      NextNewline(data, start, i + 1, k);
    }
  }

  lemma {:induction false} SkipPrefix(prefix: string, data: string, start: nat, i: nat)
    requires start <= i <= |data|
    ensures LinesFrom(prefix + data, |prefix| + start, |prefix| + i) == LinesFrom(data, start, i)
    decreases |data| - i
  {
    assert (prefix + data)[|prefix| + start..|prefix| + i] == data[start..i];
    if i < |data| {
      SkipPrefix(prefix, data, i + 1, i + 1);
      SkipPrefix(prefix, data, start, i + 1);
    }
  }

  /** Printed lines split into themselves again. */
  lemma {:induction false} PrintThenSplit(lines: seq<string>)
    requires NoNewlines(lines)
    ensures Split(Unlines(lines)) == lines
  {
    if lines != [] {
      var head, rest := lines[0] + "\n", Unlines(lines[1..]);
      PrintThenSplit(lines[1..]);
      SkipPrefix(head, rest, 0, 0);
      assert (head + rest)[0..|lines[0]|] == lines[0];
      NextNewline(head + rest, 0, 0, |lines[0]|);
    }
  }

  // ----- the two passes

  function NewlinesFrom(data: string, i: nat): nat
    requires i <= |data|
    decreases |data| - i
  {
    if i == |data| then 0 else (if data[i] == '\n' then 1 else 0) + NewlinesFrom(data, i + 1)
  }

  predicate Unfinished(data: string) {
    data != "" && data[|data| - 1] != '\n'
  }

  /** What the first pass counts is the number of lines. */
  lemma {:induction false} CountIsLength(data: string, start: nat, i: nat)
    requires start <= i <= |data| && '\n' !in data[start..i]
    ensures |LinesFrom(data, start, i)| ==
      NewlinesFrom(data, i) + if start < |data| && Unfinished(data) then 1 else 0
    decreases |data| - i
  {
    if i == |data| {
      if start < i {
        assert data[i - 1] in data[start..i];
      }
    } else if data[i] == '\n' {
      CountIsLength(data, i + 1, i + 1);
    } else {
      assert data[start..i + 1] == data[start..i] + [data[i]];
      CountIsLength(data, start, i + 1);
    }
  }

  method CountLines(data: string) returns (count: nat)
    requires data != ""
    ensures count == |Split(data)|
  {
    count := 0;
    for i := 0 to |data|
      invariant count + NewlinesFrom(data, i) == NewlinesFrom(data, 0)
    {
      if data[i] == '\n' {
        count := count + 1;
      }
    }
    if data[|data| - 1] != '\n' {
      count := count + 1;
    }
    CountIsLength(data, 0, 0);
  }

  /** Fills exactly the slots the first pass counted; one more slot is allocated. */
  method SplitLines(data: string) returns (lines: array<string>, li: nat)
    ensures fresh(lines) && lines.Length == li + 1
    ensures lines[..li] == Split(data)
  {
    var len := |data|;
    if len == 0 {
      lines := new string[1];
      li := 0;
      return;
    }
    var count := CountLines(data);
    lines := new string[count + 1];
    li := 0;
    var start := 0;
    for i := 0 to len + 1
      invariant start <= i && li <= count
      invariant i <= len ==> lines[..li] + LinesFrom(data, start, i) == Split(data)
      invariant i > len ==> lines[..li] == Split(data)
    {
      if i == len || data[i] == '\n' {
        if i > start || i < len {
          assert LinesFrom(data, start, i)[0] == data[start..i];
          lines[li] := data[start..i];
          li := li + 1;
        }
        start := i + 1;
      }
    }
  }
}
