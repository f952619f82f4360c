/** `glob_match` (src/cmds.c:522-527), on NUL-free strings. */
module Glob {
  import opened Strings

  function GlobMatch(pat: string, s: string): bool
    decreases |pat| + |s|
  {
    if pat == "" then s == ""
    else if pat[0] == '*' then GlobMatch(pat[1..], s) || (s != "" && GlobMatch(pat, s[1..]))
    else if pat[0] == '?' then s != "" && GlobMatch(pat[1..], s[1..])
    else s != "" && s[0] == pat[0] && GlobMatch(pat[1..], s[1..])
  }

  /** The texts one pattern character stands for. */
  predicate Fits(c: char, piece: string) {
    if c == '*' then true
    else if c == '?' then |piece| == 1
    else piece == [c]
  }

  /** The string is cut into one piece for every pattern character. */
  ghost predicate Cut(pieces: seq<string>, pat: string, s: string) {
    && |pieces| == |pat|
    && Concat(pieces) == s
    && forall k :: 0 <= k < |pat| ==> Fits(pat[k], pieces[k])
  }

  ghost predicate Matches(pat: string, s: string) {
    exists pieces :: Cut(pieces, pat, s)
  }

  lemma CutHead(pieces: seq<string>, pat: string, s: string)
    requires Cut(pieces, pat, s) && pat != ""
    ensures Fits(pat[0], pieces[0]) && s == pieces[0] + Concat(pieces[1..])
    ensures Cut(pieces[1..], pat[1..], Concat(pieces[1..]))
  {
  }

  lemma CutCons(piece: string, pieces: seq<string>, pat: string, s: string)
    requires pat != "" && Fits(pat[0], piece) && Cut(pieces, pat[1..], s)
    ensures Cut([piece] + pieces, pat, piece + s)
  {
    assert ([piece] + pieces)[1..] == pieces;
  }

  lemma {:induction false} MatchFindsCut(pat: string, s: string) returns (pieces: seq<string>)
    requires GlobMatch(pat, s)
    ensures Cut(pieces, pat, s)
    decreases |pat| + |s|
  {
    if pat == "" {
      pieces := [];
    } else if pat[0] == '*' {
      if GlobMatch(pat[1..], s) {
        var rest := MatchFindsCut(pat[1..], s);
        CutCons("", rest, pat, s);
        assert "" + s == s;
        pieces := [""] + rest;
      } else {
        var longer := MatchFindsCut(pat, s[1..]);
        CutHead(longer, pat, s[1..]);
        var piece := [s[0]] + longer[0];
        CutCons(piece, longer[1..], pat, Concat(longer[1..]));
        assert s == [s[0]] + s[1..] == piece + Concat(longer[1..]);
        pieces := [piece] + longer[1..];
      }
    } else {
      var rest := MatchFindsCut(pat[1..], s[1..]);
      CutCons([s[0]], rest, pat, s[1..]);
      assert s == [s[0]] + s[1..];
      pieces := [[s[0]]] + rest;
    }
  }

  lemma {:induction false} CutMatches(pieces: seq<string>, pat: string, s: string)
    requires Cut(pieces, pat, s)
    ensures GlobMatch(pat, s)
    decreases |pat| + |s|
  {
    if pat != "" {
      CutHead(pieces, pat, s);
      var rest := Concat(pieces[1..]);
      if pat[0] == '*' && pieces[0] != "" {
        var shorter := pieces[0][1..];
        assert s[1..] == shorter + rest;
        CutCons(shorter, pieces[1..], pat, rest);
        CutMatches([shorter] + pieces[1..], pat, s[1..]);
      } else {
        assert s == pieces[0] + rest;
        assert s[|pieces[0]|..] == rest;
        CutMatches(pieces[1..], pat[1..], rest);
      }
    }
  }

  /** A string matches exactly when it can be cut into pieces for the pattern: any text
      for "*", one character for "?", the character itself for every other. */
  lemma GlobMatchIsCutting(pat: string, s: string)
    ensures GlobMatch(pat, s) <==> Matches(pat, s)
  {
    if GlobMatch(pat, s) {
      var pieces := MatchFindsCut(pat, s);
    }
    if Matches(pat, s) {
      var pieces :| Cut(pieces, pat, s);
      CutMatches(pieces, pat, s);
    }
  }
}
