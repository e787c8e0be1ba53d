/** The two `split` functions the descriptor readers cut a line with:
    table.h splits at every occurrence of one delimiter character, table.hpp
    takes the maximal runs of non-whitespace. */
module Splitting {
  import opened Chars

  /** The pieces between the delimiters, left to right: one more piece than
      there are delimiters, empty pieces included. */
  function Pieces(s: string, d: char): (r: seq<string>)
    ensures |r| >= 1
    decreases |s|
  {
    if s == [] then [[]]
    else
      var rest := Pieces(s[1..], d);
      if s[0] == d then [[]] + rest else [[s[0]] + rest[0]] + rest[1..]
  }

  /** The pieces glued back together with the delimiter between them. */
  function Join(ps: seq<string>, d: char): string
    requires |ps| >= 1
  {
    if |ps| == 1 then ps[0] else ps[0] + [d] + Join(ps[1..], d)
  }

  /** split returns one piece more than the string has delimiters. */
  lemma {:induction false} PiecesCount(s: string, d: char)
    ensures |Pieces(s, d)| == multiset(s)[d] + 1
    decreases |s|
  {
    if s != [] {
      PiecesCount(s[1..], d);
      assert s == [s[0]] + s[1..];
      assert multiset(s) == multiset([s[0]]) + multiset(s[1..]);
    }
  }

  /** No piece holds the delimiter. */
  lemma {:induction false} PiecesPlain(s: string, d: char)
    ensures forall k | 0 <= k < |Pieces(s, d)| :: d !in Pieces(s, d)[k]
    decreases |s|
  {
    if s != [] {
      PiecesPlain(s[1..], d);
      var rest := Pieces(s[1..], d);
      if s[0] != d {
        assert forall k | 1 <= k < |Pieces(s, d)| :: Pieces(s, d)[k] == rest[k];
        assert Pieces(s, d)[0] == [s[0]] + rest[0];
      }
    }
  }

  /** Joining the pieces with the delimiter gives back the string. */
  lemma {:induction false} JoinPieces(s: string, d: char)
    ensures Join(Pieces(s, d), d) == s
    decreases |s|
  {
    if s != [] {
      JoinPieces(s[1..], d);
      var rest := Pieces(s[1..], d);
      if s[0] == d {
        JoinEmptyFront(rest, d);
      } else {
        JoinFront(s[0], rest, d);
      }
      assert s == [s[0]] + s[1..];
    }
  }

  /** An empty first piece puts the delimiter in front. */
  lemma JoinEmptyFront(ps: seq<string>, d: char)
    requires |ps| >= 1
    ensures Join([[]] + ps, d) == [d] + Join(ps, d)
  {
    var qs := [[]] + ps;
    assert qs[1..] == ps;
  }

  /** A character added to the front of the first piece is added to the
      front of the joined string. */
  lemma JoinFront(c: char, ps: seq<string>, d: char)
    requires |ps| >= 1
    ensures Join([[c] + ps[0]] + ps[1..], d) == [c] + Join(ps, d)
  {
    var qs := [[c] + ps[0]] + ps[1..];
    if |ps| > 1 {
      assert qs[1..] == ps[1..];
    }
  }

  /** A delimiter-free prefix becomes the start of the first piece. */
  lemma {:induction false} PiecesPrefix(w: string, tail: string, d: char)
    requires d !in w
    ensures Pieces(w + tail, d) == [w + Pieces(tail, d)[0]] + Pieces(tail, d)[1..]
    decreases |w|
  {
    if w == [] {
      var ps := Pieces(tail, d);
      assert w + tail == tail;
      assert w + ps[0] == ps[0];
      assert [ps[0]] + ps[1..] == ps;
    } else {
      var s := w + tail;
      assert s[0] == w[0] && s[1..] == w[1..] + tail;
      PiecesPrefix(w[1..], tail, d);
      assert [w[0]] + (w[1..] + Pieces(tail, d)[0]) == w + Pieces(tail, d)[0];
    }
  }

  /** Cutting at the first delimiter, at index `k`. */
  lemma PiecesAt(t: string, k: nat, d: char)
    requires k < |t| && t[k] == d && d !in t[..k]
    ensures Pieces(t, d) == [t[..k]] + Pieces(t[k + 1..], d)
  {
    assert t == t[..k] + ([d] + t[k + 1..]);
    var tail := [d] + t[k + 1..];
    PiecesPrefix(t[..k], tail, d);
    assert tail[0] == d && tail[1..] == t[k + 1..];
    assert Pieces(tail, d) == [[]] + Pieces(t[k + 1..], d);
    assert t[..k] + [] == t[..k];
  }

  /** A string without the delimiter is a single piece. */
  lemma PiecesOfPlain(t: string, d: char)
    requires d !in t
    ensures Pieces(t, d) == [t]
  {
    assert t + [] == t;
    PiecesPrefix(t, [], d);
  }

  /** Pieces undoes Join: the delimiter-free pieces are recovered exactly,
      so the pieces are the only ones that join to their string. */
  lemma {:induction false} PiecesOfJoin(ps: seq<string>, d: char)
    requires |ps| >= 1
    requires forall k | 0 <= k < |ps| :: d !in ps[k]
    ensures Pieces(Join(ps, d), d) == ps
    decreases |ps|
  {
    if |ps| == 1 {
      PiecesOfPlain(ps[0], d);
    } else {
      PiecesOfJoin(ps[1..], d);
      var tail := [d] + Join(ps[1..], d);
      assert Join(ps, d) == ps[0] + tail;
      PiecesPrefix(ps[0], tail, d);
      assert tail[1..] == Join(ps[1..], d);
      assert Pieces(tail, d) == [[]] + ps[1..];
      assert ps[0] + [] == ps[0];
    }
  }

  /** create_substring (table.h:68-71): a fresh copy of the characters from
      `start` up to, not including, `end`. */
  method CreateSubstring(s: string, start: nat, end: nat) returns (r: string)
    requires start <= end <= |s|
    ensures r == s[start..end]
  {
    r := [];
    var k := start;
    while k < end
      invariant start <= k <= end
      invariant r == s[start..k]
    {
      r := r + [s[k]];
      k := k + 1;
    }
  }

  /** split (table.h:73-92): the first loop counts the pieces, the second
      cuts a piece at each delimiter and at the end of the string. */
  method Split(s: string, d: char) returns (pieces: seq<string>, splits: nat)
    ensures splits == multiset(s)[d] + 1
    ensures pieces == Pieces(s, d) && |pieces| == splits
  {
    splits := CountPieces(s, d);
    pieces := CutPieces(s, d);
    PiecesCount(s, d);
  }

  /** The first loop of split (table.h:76-80): one piece, and one more for
      every delimiter. */
  method CountPieces(s: string, d: char) returns (splits: nat)
    ensures splits == multiset(s)[d] + 1
  {
    var length := |s|;
    splits := 1;
    var i := 0;
    while i < length
      invariant 0 <= i <= length
      invariant splits == multiset(s[..i])[d] + 1
    {
      CountStep(s, i, d);
      if s[i] == d {
        splits := splits + 1;
      }
      i := i + 1;
    }
    assert s[..length] == s;
  }

  /** The second loop of split (table.h:82-90): a copy of the run since the
      last cut at every delimiter, and the last run when the loop reaches
      the terminator. */
  method CutPieces(s: string, d: char) returns (pieces: seq<string>)
    ensures pieces == Pieces(s, d)
  {
    var length := |s|;
    pieces := [];
    var start := 0;
    var i := 0;
    assert s[0..] == s;
    while i < length
      invariant Cutting(s, d, pieces, start, i)
    {
      CuttingStep(s, d, pieces, start, i);
      if s[i] == d {
        var piece := CreateSubstring(s, start, i);
        pieces := pieces + [piece];
        start := i + 1;
      }
      i := i + 1;
    }
    var piece := CreateSubstring(s, start, length);
    CuttingEnd(s, d, pieces, start);
    pieces := pieces + [piece];
  }

  /** The state of split's second loop at index `i`: the pieces cut so far
      followed by the pieces of the rest from `start` are the pieces of the
      string, and the run since `start` has no delimiter yet. */
  ghost predicate Cutting(s: string, d: char, pieces: seq<string>, start: nat, i: nat) {
    && start <= i <= |s|
    && d !in s[start..i]
    && pieces + Pieces(s[start..], d) == Pieces(s, d)
  }

  /** One step of the second loop keeps its state. */
  lemma CuttingStep(s: string, d: char, pieces: seq<string>, start: nat, i: nat)
    requires Cutting(s, d, pieces, start, i) && i < |s|
    ensures s[i] == d ==> Cutting(s, d, pieces + [s[start..i]], i + 1, i + 1)
    ensures s[i] != d ==> Cutting(s, d, pieces, start, i + 1)
  {
    if s[i] == d {
      CutPiece(s, start, i, d);
      assert pieces + Pieces(s[start..], d) == (pieces + [s[start..i]]) + Pieces(s[i + 1..], d);
      assert s[i + 1..i + 1] == [];
    } else {
      PlainStep(s, start, i, d);
    }
  }

  /** At the terminator the run since the last cut is the last piece. */
  lemma CuttingEnd(s: string, d: char, pieces: seq<string>, start: nat)
    requires Cutting(s, d, pieces, start, |s|)
    ensures pieces + [s[start..|s|]] == Pieces(s, d)
  {
    LastPiece(s, start, d);
  }

  /** The first loop of split: one more delimiter counted at each one. */
  lemma CountStep(s: string, i: nat, d: char)
    requires i < |s|
    ensures multiset(s[..i + 1])[d] == multiset(s[..i])[d] + (if s[i] == d then 1 else 0)
  {
    assert s[..i + 1] == s[..i] + [s[i]];
  }

  /** The run since the last cut grows by a character that is not the
      delimiter. */
  lemma PlainStep(s: string, start: nat, i: nat, d: char)
    requires start <= i < |s| && s[i] != d && d !in s[start..i]
    ensures d !in s[start..i + 1]
  {
    assert s[start..i + 1] == s[start..i] + [s[i]];
  }

  /** The cut at a delimiter at `i`: the run since the last cut is the next
      piece, and the pieces after it are those of the rest. */
  lemma CutPiece(s: string, start: nat, i: nat, d: char)
    requires start <= i < |s| && s[i] == d && d !in s[start..i]
    ensures Pieces(s[start..], d) == [s[start..i]] + Pieces(s[i + 1..], d)
  {
    var t := s[start..];
    assert t[..i - start] == s[start..i] && t[i - start] == d;
    PiecesAt(t, i - start, d);
    assert t[i - start + 1..] == s[i + 1..];
  }

  /** The cut at the end of the string: the run since the last cut is the
      last piece. */
  lemma LastPiece(s: string, start: nat, d: char)
    requires start <= |s| && d !in s[start..|s|]
    ensures Pieces(s[start..], d) == [s[start..|s|]]
  {
    assert s[start..] == s[start..|s|];
    PiecesOfPlain(s[start..], d);
  }

  /** The end of the non-whitespace run that starts at `i`. */
  function RunEnd(s: string, i: nat): (j: nat)
    requires i <= |s|
    ensures i <= j <= |s|
    ensures forall m | i <= m < j :: !IsSpace(s[m])
    ensures j == |s| || IsSpace(s[j])
    decreases |s| - i
  {
    if i < |s| && !IsSpace(s[i]) then RunEnd(s, i + 1) else i
  }

  /** The maximal non-whitespace runs of `s` from `i` on, in order. */
  function WordsFrom(s: string, i: nat): seq<string>
    requires i <= |s|
    decreases |s| - i
  {
    if i == |s| then []
    else if IsSpace(s[i]) then WordsFrom(s, i + 1)
    else
      var j := RunEnd(s, i);
      [s[i..j]] + WordsFrom(s, j)
  }

  /** The C++ split with its default delimiter test, `isspace`. */
  function Words(s: string): seq<string> {
    WordsFrom(s, 0)
  }

  /** A word: non-empty and free of whitespace. */
  predicate IsWord(w: string) {
    |w| > 0 && forall m | 0 <= m < |w| :: !IsSpace(w[m])
  }

  /** The string without its whitespace. */
  function Strip(s: string): string {
    if s == [] then [] else (if IsSpace(s[0]) then [] else [s[0]]) + Strip(s[1..])
  }

  /** The words glued together without separators. */
  function Concat(ws: seq<string>): string {
    if ws == [] then [] else ws[0] + Concat(ws[1..])
  }

  /** The words glued together with one space between neighbours. */
  function JoinSpace(ws: seq<string>): string {
    if ws == [] then [] else if |ws| == 1 then ws[0] else ws[0] + " " + JoinSpace(ws[1..])
  }

  /** Stripping a whitespace-free run keeps it whole. */
  lemma {:induction false} StripRun(s: string, i: nat, j: nat)
    requires i <= j <= |s|
    requires forall m | i <= m < j :: !IsSpace(s[m])
    ensures Strip(s[i..]) == s[i..j] + Strip(s[j..])
    decreases j - i
  {
    if i < j {
      StripRun(s, i + 1, j);
      assert s[i..][1..] == s[i + 1..];
      assert s[i..j] == [s[i]] + s[i + 1..j];
    }
  }

  /** Every word is non-empty and whitespace-free, and the words together
      are the string with its whitespace removed. */
  lemma {:induction false} WordsSound(s: string, i: nat)
    requires i <= |s|
    ensures forall k | 0 <= k < |WordsFrom(s, i)| :: IsWord(WordsFrom(s, i)[k])
    ensures Concat(WordsFrom(s, i)) == Strip(s[i..])
    decreases |s| - i
  {
    if i < |s| {
      assert s[i..][1..] == s[i + 1..];
      if IsSpace(s[i]) {
        WordsSound(s, i + 1);
      } else {
        var j := RunEnd(s, i);
        WordsSound(s, j);
        StripRun(s, i, j);
        var ws := WordsFrom(s, i);
        assert ws[1..] == WordsFrom(s, j);
        assert forall k | 1 <= k < |ws| :: ws[k] == WordsFrom(s, j)[k - 1];
      }
    }
  }

  /** Words of a string depend only on what follows the start index. */
  lemma {:induction false} WordsShift(p: string, s: string, i: nat)
    requires i <= |s|
    ensures WordsFrom(p + s, |p| + i) == WordsFrom(s, i)
    decreases |s| - i
  {
    var ps := p + s;
    if i < |s| {
      assert ps[|p| + i] == s[i];
      if IsSpace(s[i]) {
        WordsShift(p, s, i + 1);
      } else {
        RunShift(p, s, i);
        WordsShift(p, s, RunEnd(s, i));
        assert ps[|p| + i..|p| + RunEnd(s, i)] == s[i..RunEnd(s, i)];
      }
    }
  }

  lemma {:induction false} RunShift(p: string, s: string, i: nat)
    requires i <= |s|
    ensures RunEnd(p + s, |p| + i) == |p| + RunEnd(s, i)
    decreases |s| - i
  {
    if i < |s| {
      assert (p + s)[|p| + i] == s[i];
      RunShift(p, s, i + 1);
    }
  }

  /** A word at the front of a string is the first word found. */
  lemma WordsOfWord(w: string, rest: string)
    requires IsWord(w)
    requires rest == [] || IsSpace(rest[0])
    ensures Words(w + rest) == [w] + WordsFrom(w + rest, |w|)
  {
    var s := w + rest;
    assert RunEnd(s, 0) == |w| by {
      RunWhole(s, 0, |w|);
    }
    assert s[0..|w|] == w;
  }

  lemma {:induction false} RunWhole(s: string, i: nat, j: nat)
    requires i <= j <= |s|
    requires forall m | i <= m < j :: !IsSpace(s[m])
    requires j == |s| || IsSpace(s[j])
    ensures RunEnd(s, i) == j
    decreases j - i
  {
    if i < j {
      RunWhole(s, i + 1, j);
    }
  }

  /** Splitting the space-joined words gives the words back. */
  lemma {:induction false} WordsOfJoinSpace(ws: seq<string>)
    requires forall k | 0 <= k < |ws| :: IsWord(ws[k])
    ensures Words(JoinSpace(ws)) == ws
    decreases |ws|
  {
    if |ws| == 1 {
      assert ws[0] + [] == ws[0];
      WordsOfWord(ws[0], []);
    } else if |ws| > 1 {
      var rest := JoinSpace(ws[1..]);
      WordsOfJoinSpace(ws[1..]);
      var s := ws[0] + " " + rest;
      assert s == ws[0] + (" " + rest);
      WordsOfWord(ws[0], " " + rest);
      assert s[|ws[0]|] == ' ';
      assert WordsFrom(s, |ws[0]|) == WordsFrom(s, |ws[0]| + 1);
      assert s == (ws[0] + " ") + rest;
      WordsShift(ws[0] + " ", rest, 0);
    }
  }

  /** split of table.hpp:69-81: skip whitespace, take the run up to the next
      whitespace, repeat until the end. */
  method SplitWords(s: string) returns (ws: seq<string>)
    ensures ws == Words(s)
  {
    ws := [];
    var i := 0;
    while i != |s|
      invariant 0 <= i <= |s|
      invariant ws + WordsFrom(s, i) == Words(s)
      decreases |s| - i
    {
      var k := i;
      while k < |s| && IsSpace(s[k])
        invariant i <= k <= |s|
        invariant WordsFrom(s, k) == WordsFrom(s, i)
      {
        k := k + 1;
      }
      if k == |s| {
        break;
      }
      var j := k;
      while j < |s| && !IsSpace(s[j])
        invariant k <= j <= RunEnd(s, k)
        invariant RunEnd(s, j) == RunEnd(s, k)
      {
        j := j + 1;
      }
      ws := ws + [s[k..j]];
      i := j;
    }
    assert WordsFrom(s, |s|) == [];
  }
}
