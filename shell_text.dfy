/**
 * Characters and words of a shell command line, shared by the two hw1
 * parsers: both split on space, newline, tab and carriage return.
 */
module ShellText {
  const Nul: char := '\0'

  /** The separators both parsers split on: " \n\t\r". */
  predicate IsSpace(c: char)
  {
    c == ' ' || c == '\n' || c == '\t' || c == '\r'
  }

  /** The first position at or after p that is not a separator, or the end. */
  function SkipSpace(s: seq<char>, p: nat): (q: nat)
    requires p <= |s|
    ensures p <= q <= |s|
    ensures q < |s| ==> !IsSpace(s[q])
    decreases |s| - p
  {
    if p == |s| || !IsSpace(s[p]) then p else SkipSpace(s, p + 1)
  }

  /** The first position at or after p that is a separator, or the end. */
  function RunEnd(s: seq<char>, p: nat): (e: nat)
    requires p <= |s|
    ensures p <= e <= |s|
    ensures e < |s| ==> IsSpace(s[e])
    decreases |s| - p
  {
    if p == |s| || IsSpace(s[p]) then p else RunEnd(s, p + 1)
  }

  /** Everything SkipSpace passes over is a separator. */
  lemma {:induction false} SkippedSpaces(s: seq<char>, p: nat)
    requires p <= |s|
    ensures forall j :: p <= j < SkipSpace(s, p) ==> IsSpace(s[j])
    decreases |s| - p
  {
    if p < |s| && IsSpace(s[p]) {
      SkippedSpaces(s, p + 1);
    }
  }

  /** A run holds no separator. */
  lemma {:induction false} RunHasNoSpace(s: seq<char>, p: nat)
    requires p <= |s|
    ensures forall j :: p <= j < RunEnd(s, p) ==> !IsSpace(s[j])
    decreases |s| - p
  {
    if p < |s| && !IsSpace(s[p]) {
      RunHasNoSpace(s, p + 1);
    }
  }

  /** The words of s from p on: its maximal runs of non-separators, in order. */
  function WordsFrom(s: seq<char>, p: nat): seq<seq<char>>
    requires p <= |s|
    decreases |s| - p
  {
    var q := SkipSpace(s, p);
    if q == |s| then [] else [s[q..RunEnd(s, q)]] + WordsFrom(s, RunEnd(s, q))
  }

  function Words(s: seq<char>): seq<seq<char>>
  {
    WordsFrom(s, 0)
  }

  /** A word: not empty and free of separators. */
  predicate IsWord(w: seq<char>)
  {
    w != [] && forall j :: 0 <= j < |w| ==> !IsSpace(w[j])
  }

  /** Words written out with one space after each. */
  function Spaced(ws: seq<seq<char>>): seq<char>
  {
    if ws == [] then [] else ws[0] + [' '] + Spaced(ws[1..])
  }

  /** Every word found is a word. */
  lemma {:induction false} WordsAreWords(s: seq<char>, p: nat)
    requires p <= |s|
    ensures forall k :: 0 <= k < |WordsFrom(s, p)| ==> IsWord(WordsFrom(s, p)[k])
    decreases |s| - p
  {
    var q := SkipSpace(s, p);
    if q < |s| {
      var e := RunEnd(s, q);
      WordsAreWords(s, e);
      RunHasNoSpace(s, q);
      var w := s[q..e];
      assert IsWord(w) by {
        forall j | 0 <= j < |w| ensures !IsSpace(w[j]) {
          assert w[j] == s[q + j];
        }
      }
    }
  }

  /** Splitting words written out with spaces gives the words back. */
  lemma {:induction false} WordsOfSpaced(ws: seq<seq<char>>)
    requires forall k :: 0 <= k < |ws| ==> IsWord(ws[k])
    ensures Words(Spaced(ws)) == ws
  {
    if ws != [] {
      var w, rest := ws[0], Spaced(ws[1..]);
      var s := Spaced(ws);
      assert s == w + ([' '] + rest);
      WordsOfSpaced(ws[1..]);
      assert SkipSpace(s, 0) == 0;
      RunOver(w, [' '] + rest);
      WordsShift(w + [' '], rest, 0);
      assert s == (w + [' ']) + rest;
      assert WordsFrom(s, |w|) == WordsFrom(s, |w + [' ']|) by {
        assert SkipSpace(s, |w|) == SkipSpace(s, |w| + 1);
      }
    }
  }

  /** The run of a word followed by a separator ends after the word. */
  lemma {:induction false} RunOver(w: seq<char>, t: seq<char>)
    requires IsWord(w) && t != [] && IsSpace(t[0])
    ensures RunEnd(w + t, 0) == |w|
    ensures (w + t)[..|w|] == w
  {
    RunFrom(w + t, 0, |w|);
  }

  lemma {:induction false} RunFrom(s: seq<char>, p: nat, e: nat)
    requires p <= e < |s| && IsSpace(s[e])
    requires forall j :: p <= j < e ==> !IsSpace(s[j])
    ensures RunEnd(s, p) == e
    decreases e - p
  {
    if p < e {
      RunFrom(s, p + 1, e);
    }
  }

  /** The words after a prefix are the words of what follows it. */
  lemma {:induction false} WordsShift(a: seq<char>, b: seq<char>, p: nat)
    requires p <= |b|
    ensures WordsFrom(a + b, |a| + p) == WordsFrom(b, p)
    decreases |b| - p
  {
    var s := a + b;
    SkipShift(a, b, p);
    var q := SkipSpace(b, p);
    if q < |b| {
      RunShift(a, b, q);
      var e := RunEnd(b, q);
      var sq, se := |a| + q, |a| + e;
      assert s[sq..se] == b[q..e];
      WordsShift(a, b, e);
      WordsUnfold(s, |a| + p, sq, se);
      WordsUnfold(b, p, q, e);
    } else {
      assert WordsFrom(s, |a| + p) == [];
    }
  }

  lemma WordsUnfold(s: seq<char>, p: nat, q: nat, e: nat)
    requires p <= |s| && q == SkipSpace(s, p) && q < |s| && e == RunEnd(s, q)
    ensures WordsFrom(s, p) == [s[q..e]] + WordsFrom(s, e)
  {
  }

  lemma {:induction false} SkipShift(a: seq<char>, b: seq<char>, p: nat)
    requires p <= |b|
    ensures SkipSpace(a + b, |a| + p) == |a| + SkipSpace(b, p)
    decreases |b| - p
  {
    if p < |b| {
      assert (a + b)[|a| + p] == b[p];
      if IsSpace(b[p]) {
        SkipShift(a, b, p + 1);
      }
    }
  }

  lemma {:induction false} RunShift(a: seq<char>, b: seq<char>, p: nat)
    requires p <= |b|
    ensures RunEnd(a + b, |a| + p) == |a| + RunEnd(b, p)
    decreases |b| - p
  {
    if p < |b| {
      assert (a + b)[|a| + p] == b[p];
      if !IsSpace(b[p]) {
        RunShift(a, b, p + 1);
      }
    }
  }
}
