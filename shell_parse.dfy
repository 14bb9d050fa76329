// parse_command of the hw1 shell (hw1/111511141.c): the line buffer is
// split in place by writing NULs into it, and args holds pointers into the
// buffer (here indices, None standing for NULL). The four passes are one
// method each: Tokenize, StripQuotes, the background check in
// ParseCommand, and Route for the redirections and the pipe.
module ShellParse {
  import opened Wrappers
  import opened ShellText

  /** MAX_ARGS: args and args2 hold at most 99 strings and a NULL. */
  const MaxArgs: nat := 100

  predicate IsQuote(c: char)
  {
    c == '"' || c == '\''
  }

  /** A C string's content: no NUL before the terminator. */
  predicate IsLine(s: seq<char>)
  {
    forall j :: 0 <= j < |s| ==> s[j] != Nul
  }

  /** The buffer holds the line and its terminator from p on. */
  ghost predicate Unread(b: seq<char>, s: seq<char>, p: nat)
  {
    && |b| == |s| + 1 && p <= |s| && b[|s|] == Nul
    && forall j :: p <= j < |s| ==> b[j] == s[j]
  }

  // ---------------------------------------------------------------- the tokens

  /** The first position at or after p holding the quote character, or the end. */
  function QuoteEnd(s: seq<char>, p: nat, quote: char): (e: nat)
    requires p <= |s|
    ensures p <= e <= |s| && (e < |s| ==> s[e] == quote)
    decreases |s| - p
  {
    if p == |s| || s[p] == quote then p else QuoteEnd(s, p + 1, quote)
  }

  /**
   * One token: it occupies [from, end) of the line and its text is
   * [start, end); a quoted token's text leaves out the opening quote, and
   * the closing quote (or the separator) at end is overwritten with NUL.
   */
  datatype Span = Span(from: nat, start: nat, end: nat)

  /** The token at q: to the matching quote when it opens with one, else to the next separator. */
  function TokenAt(s: seq<char>, q: nat): (t: Span)
    requires q < |s| && !IsSpace(s[q])
    ensures t.from == q && q <= t.start <= t.end <= |s| && t.start <= q + 1
    ensures IsQuote(s[q]) ==> t.start == q + 1 && (t.end < |s| ==> s[t.end] == s[q])
    ensures !IsQuote(s[q]) ==> t.start == q && (t.end < |s| ==> IsSpace(s[t.end]))
  {
    if IsQuote(s[q]) then Span(q, q + 1, QuoteEnd(s, q + 1, s[q])) else Span(q, q, RunEnd(s, q))
  }

  /** Where scanning resumes after a token that ends at e: one past it, but not past the terminator. */
  function Resume(s: seq<char>, e: nat): (r: nat)
    ensures e <= r && (e < |s| ==> r == e + 1 <= |s|) && (e >= |s| ==> r == e)
  {
    if e < |s| then e + 1 else e
  }

  /**
   * The tokens the collection loop finds from position p when i of them are
   * already collected: it stops at the terminator or after MAX_ARGS-1 tokens.
   */
  function Lex(s: seq<char>, p: nat, i: nat): seq<Span>
    requires p <= |s|
    decreases |s| - p
  {
    if p == |s| || i >= MaxArgs - 1 then []
    else
      var q := SkipSpace(s, p);
      if q == |s| then [] else [TokenAt(s, q)] + Lex(s, Resume(s, TokenAt(s, q).end), i + 1)
  }

  /** Where the collection loop leaves the cursor. */
  function LexEnd(s: seq<char>, p: nat, i: nat): (c: nat)
    requires p <= |s|
    ensures p <= c <= |s|
    decreases |s| - p
  {
    if p == |s| || i >= MaxArgs - 1 then p
    else
      var q := SkipSpace(s, p);
      if q == |s| then q else LexEnd(s, Resume(s, TokenAt(s, q).end), i + 1)
  }

  /** Position j lies in one of the tokens, its opening quote included. */
  ghost predicate Kept(spans: seq<Span>, j: nat)
  {
    exists k :: 0 <= k < |spans| && spans[k].from <= j < spans[k].end
  }

  /**
   * The buffer after the collection loop stopped at cursor: every position
   * it passed holds NUL except the tokens, and the rest is the line.
   */
  ghost function Cleared(s: seq<char>, spans: seq<Span>, cursor: nat): (b: seq<char>)
    ensures |b| == |s| + 1
  {
    seq(|s| + 1, j requires 0 <= j <= |s| => if j < cursor && !Kept(spans, j) then Nul else (s + [Nul])[j])
  }

  /**
   * The tokens lie in order, each inside the line, each ending before the
   * next one starts and no later than the cursor; at most MAX_ARGS-1 are
   * collected.
   */
  lemma {:induction false} LexShape(s: seq<char>, p: nat, i: nat)
    requires p <= |s|
    ensures var spans, c := Lex(s, p, i), LexEnd(s, p, i);
            && (i < MaxArgs ==> i + |spans| < MaxArgs)
            && (forall k :: 0 <= k < |spans| ==>
                  && p <= spans[k].from < |s| && spans[k].from <= spans[k].start <= spans[k].from + 1
                  && spans[k].start <= spans[k].end <= |s| && Resume(s, spans[k].end) <= c)
            && (forall k, k' :: 0 <= k < k' < |spans| ==> Resume(s, spans[k].end) <= spans[k'].from)
    decreases |s| - p
  {
    if p < |s| && i < MaxArgs - 1 && SkipSpace(s, p) < |s| {
      var t := TokenAt(s, SkipSpace(s, p));
      LexShape(s, Resume(s, t.end), i + 1);
    }
  }

  // ---------------------------------------------------------------- the collection loop

  /** b with NUL written over [p, q). */
  ghost function Blanked(b: seq<char>, p: nat, q: nat): (r: seq<char>)
    ensures |r| == |b|
  {
    seq(|b|, j requires 0 <= j < |b| => if p <= j < q then Nul else b[j])
  }

  /** The separator-skipping loop: each separator passed becomes NUL. */
  method BlankSpaces(buf: array<char>, ghost s: seq<char>, p: nat) returns (q: nat)
    requires Unread(buf[..], s, p)
    modifies buf
    ensures q == SkipSpace(s, p) && buf[..] == Blanked(old(buf[..]), p, q) && Unread(buf[..], s, q)
  {
    ghost var b0 := buf[..];
    q := p;
    while IsSpace(buf[q])
      invariant p <= q <= |s| && SkipSpace(s, q) == SkipSpace(s, p)
      invariant Unread(buf[..], s, q) && buf[..] == Blanked(b0, p, q)
      decreases |s| - q
    {
      buf[q] := Nul;
      q := q + 1;
    }
  }

  /** The scan over one token, from its first character q to the character that ends it. */
  method ScanToken(buf: array<char>, ghost s: seq<char>, q: nat) returns (t: Span)
    requires IsLine(s) && Unread(buf[..], s, q) && q < |s| && !IsSpace(s[q])
    ensures t == TokenAt(s, q) && (buf[t.end] == Nul <==> t.end == |s|)
  {
    var start, p := q, q;
    if buf[p] == '"' || buf[p] == '\'' {
      var quote := buf[p];
      start, p := p + 1, p + 1;
      while buf[p] != quote && buf[p] != Nul
        invariant q < p <= |s| && QuoteEnd(s, p, quote) == QuoteEnd(s, q + 1, quote)
        decreases |s| - p
      {
        assert buf[p] == buf[..][p];
        p := p + 1;
      }
    } else {
      while !IsSpace(buf[p]) && buf[p] != Nul
        invariant q <= p <= |s| && RunEnd(s, p) == RunEnd(s, q)
        decreases |s| - p
      {
        assert buf[p] == buf[..][p];
        p := p + 1;
      }
    }
    t := Span(q, start, p);
    assert buf[p] == buf[..][p];
  }

  /**
   * The state the collection loop keeps, over the buffer b and the pointer
   * array a: below the cursor p the buffer is final, above it unread; i
   * tokens are collected.
   */
  ghost predicate Collecting(b: seq<char>, a: seq<Option<nat>>, s: seq<char>, a0: seq<Option<nat>>, p: nat, i: nat)
  {
    var spans, last := Lex(s, 0, 0), LexEnd(s, 0, 0);
    && IsLine(s) && Unread(b, s, p) && i < MaxArgs && |a| == MaxArgs && |a0| == MaxArgs
    && i <= |spans| && spans[i..] == Lex(s, p, i) && LexEnd(s, p, i) == last
    && (forall k :: 0 <= k < i ==> a[k] == Some(spans[k].start) && Resume(s, spans[k].end) <= p)
    && (forall k :: i <= k < MaxArgs ==> a[k] == a0[k])
    && (forall j :: 0 <= j < p ==> b[j] == Cleared(s, spans, last)[j])
  }

  /**
   * The collection loop of parse_command: args[0..count) point at the
   * tokens' texts, args[count] is NULL, and the buffer is Cleared.
   */
  method Tokenize(buf: array<char>, ghost s: seq<char>, args: array<Option<nat>>) returns (count: nat, cursor: nat)
    requires IsLine(s) && buf.Length == |s| + 1 && buf[..] == s + [Nul]
    requires args.Length == MaxArgs
    modifies buf, args
    ensures count == |Lex(s, 0, 0)| < MaxArgs && cursor == LexEnd(s, 0, 0)
    ensures forall k :: 0 <= k < count ==> args[k] == Some(Lex(s, 0, 0)[k].start)
    ensures args[count] == None
    ensures forall k :: count < k < MaxArgs ==> args[k] == old(args[k])
    ensures buf[..] == Cleared(s, Lex(s, 0, 0), cursor)
  {
    ghost var spans, last, args0 := Lex(s, 0, 0), LexEnd(s, 0, 0), args[..];
    LexShape(s, 0, 0);
    var p: nat, i: nat := 0, 0;
    while buf[p] != Nul && i < MaxArgs - 1
      invariant Collecting(buf[..], args[..], s, args0, p, i)
      decreases |s| - p
    {
      assert buf[p] == buf[..][p];
      p, i := Collect(buf, s, args, args0, p, i);
    }
    assert buf[p] == buf[..][p];
    args[i] := None;
    count, cursor := i, p;
    assert spans[i..] == [];
    forall j | 0 <= j < buf.Length ensures buf[..][j] == Cleared(s, spans, last)[j] {
      if j >= p {
        assert j >= last;
      }
    }
  }

  /**
   * One round of the collection loop: NUL over the separators, then, unless
   * the terminator is reached, one token, whose end gets a NUL and whose
   * text start goes to args[i]. The cursor is advanced past that NUL only
   * when the token did not end at the terminator (see Findings in README).
   */
  method Collect(buf: array<char>, ghost s: seq<char>, args: array<Option<nat>>, ghost a0: seq<Option<nat>>,
                 p0: nat, i0: nat) returns (p: nat, i: nat)
    requires Collecting(buf[..], args[..], s, a0, p0, i0) && p0 < |s| && i0 < MaxArgs - 1
    modifies buf, args
    ensures Collecting(buf[..], args[..], s, a0, p, i) && p0 < p
  {
    ghost var b0, args1 := buf[..], args[..];
    i := i0;
    p := BlankSpaces(buf, s, p0);
    assert buf[p] == buf[..][p];
    if buf[p] != Nul {
      var t := ScanToken(buf, s, p);
      ghost var b1 := buf[..];
      if buf[t.end] != Nul {
        buf[t.end] := Nul;
        p := t.end + 1;
      } else {
        p := t.end;
      }
      assert buf[..] == b1[t.end := Nul];
      args[i] := Some(t.start);
      i := i + 1;
      TokenKeeps(b0, args1, s, a0, p0, i0);
      assert p == Resume(s, t.end) && args[..] == args1[i0 := Some(t.start)];
    } else {
      BlankKeeps(b0, args1, s, a0, p0, i0);
    }
  }

  /** One token found by the loop keeps the collection state. */
  lemma TokenKeeps(b: seq<char>, a: seq<Option<nat>>, s: seq<char>, a0: seq<Option<nat>>, p: nat, i: nat)
    requires Collecting(b, a, s, a0, p, i) && p < |s| && i < MaxArgs - 1 && SkipSpace(s, p) < |s|
    ensures var q := SkipSpace(s, p);
            var t := TokenAt(s, q);
            && Collecting(Blanked(b, p, q)[t.end := Nul], a[i := Some(t.start)], s, a0, Resume(s, t.end), i + 1)
            && p < Resume(s, t.end)
  {
    var spans, last := Lex(s, 0, 0), LexEnd(s, 0, 0);
    var q := SkipSpace(s, p);
    var t := TokenAt(s, q);
    var b' := Blanked(b, p, q)[t.end := Nul];
    var r := Resume(s, t.end);
    TokenStep(s, spans, last, i, p, t);
    forall j | 0 <= j < r ensures b'[j] == Cleared(s, spans, last)[j] {
      if j < p || q <= j < t.end {
        assert b'[j] == b[j];
      }
    }
    forall j | r <= j < |s| ensures b'[j] == s[j] {
      assert b'[j] == b[j];
    }
    var a' := a[i := Some(t.start)];
    assert forall k :: 0 <= k < i + 1 ==> a'[k] == Some(spans[k].start) && Resume(s, spans[k].end) <= r;
    assert Unread(b', s, r);
    assert i + 1 <= |spans| && spans[i + 1..] == Lex(s, r, i + 1) && LexEnd(s, r, i + 1) == last;
    assert forall k :: i + 1 <= k < MaxArgs ==> a'[k] == a0[k];
    assert forall j :: 0 <= j < r ==> b'[j] == Cleared(s, spans, last)[j];
  }

  /** The positions one token's round passes get their final contents. */
  lemma TokenStep(s: seq<char>, spans: seq<Span>, last: nat, i: nat, p: nat, t: Span)
    requires p < |s| && i < MaxArgs - 1 && spans == Lex(s, 0, 0) && last == LexEnd(s, 0, 0)
    requires i <= |spans| && spans[i..] == Lex(s, p, i) && LexEnd(s, p, i) == last
    requires forall k :: 0 <= k < i ==> Resume(s, spans[k].end) <= p
    requires SkipSpace(s, p) < |s| && t == TokenAt(s, SkipSpace(s, p))
    ensures i < |spans| && spans[i] == t && spans[i + 1..] == Lex(s, Resume(s, t.end), i + 1)
    ensures LexEnd(s, Resume(s, t.end), i + 1) == last
    ensures forall j :: p <= j < Resume(s, t.end) ==>
              Cleared(s, spans, last)[j] == if t.from <= j < t.end then s[j] else Nul
  {
    var r := Resume(s, t.end);
    assert spans[i..] == [t] + Lex(s, r, i + 1);
    assert spans[i + 1..] == spans[i..][1..];
    LexShape(s, 0, 0);
    LexShape(s, r, i + 1);
    forall j | p <= j < r
      ensures Cleared(s, spans, last)[j] == if t.from <= j < t.end then s[j] else Nul
    {
      assert j < last && j < |s|;
      if t.from <= j < t.end {
        ClearedIn(s, spans, last, i, j);
      } else {
        forall k | 0 <= k < |spans| ensures !(spans[k].from <= j < spans[k].end) {
          if k > i {
            assert spans[k] == spans[i + 1..][k - i - 1];
          }
        }
        ClearedGap(s, spans, last, j);
      }
    }
  }

  /** Only separators are left: the loop blanks them and stops at the terminator. */
  lemma BlankKeeps(b: seq<char>, a: seq<Option<nat>>, s: seq<char>, a0: seq<Option<nat>>, p: nat, i: nat)
    requires Collecting(b, a, s, a0, p, i) && p < |s| && i < MaxArgs - 1 && SkipSpace(s, p) == |s|
    ensures Collecting(Blanked(b, p, |s|), a, s, a0, |s|, i)
  {
    assert Lex(s, p, i) == [];
  }

  // ---------------------------------------------------------------- the strings in the buffer

  /** The C string at p in b is t: its characters, none of them NUL, then a NUL. */
  ghost predicate StrAt(b: seq<char>, p: nat, t: seq<char>)
  {
    && p + |t| < |b| && b[p + |t|] == Nul
    && forall j :: 0 <= j < |t| ==> b[p + j] == t[j] && t[j] != Nul
  }

  /** A write outside a C string and its terminator leaves it alone. */
  lemma StrAtFrame(b: seq<char>, w: nat, c: char, p: nat, t: seq<char>)
    requires StrAt(b, p, t) && w < |b| && (w < p || p + |t| < w)
    ensures StrAt(b[w := c], p, t)
  {
  }

  /**
   * args[0..|ts|) point at the strings ts, which lie in b in order, each
   * ending before the next begins; args[|ts|] is NULL.
   */
  ghost predicate Laid(b: seq<char>, a: seq<Option<nat>>, ts: seq<seq<char>>)
  {
    && |ts| < |a| && a[|ts|] == None
    && (forall k :: 0 <= k < |ts| ==> a[k].Some? && StrAt(b, a[k].value, ts[k]))
    && (forall k, k' :: 0 <= k < k' < |ts| ==> a[k].value + |ts[k]| < a[k'].value)
  }

  /** The texts of the tokens the collection loop finds. */
  function Texts(s: seq<char>): (ts: seq<seq<char>>)
    ensures |ts| == |Lex(s, 0, 0)|
  {
    var spans := Lex(s, 0, 0);
    LexShape(s, 0, 0);
    seq(|spans|, k requires 0 <= k < |spans| => s[spans[k].start..spans[k].end])
  }

  /** After the collection loop each token's text is a C string at its start. */
  lemma TokenLaid(s: seq<char>, k: nat)
    requires IsLine(s) && k < |Lex(s, 0, 0)|
    ensures StrAt(Cleared(s, Lex(s, 0, 0), LexEnd(s, 0, 0)), Lex(s, 0, 0)[k].start, Texts(s)[k])
  {
    var spans, c := Lex(s, 0, 0), LexEnd(s, 0, 0);
    LexShape(s, 0, 0);
    var t := spans[k];
    assert Texts(s)[k] == s[t.start..t.end];
    forall k' | 0 <= k' < |spans| && k' != k ensures !(spans[k'].from <= t.end < spans[k'].end) {
      if k' < k {
        assert Resume(s, spans[k'].end) <= t.from;
      } else {
        assert Resume(s, t.end) <= spans[k'].from;
      }
    }
    TextLaid(s, spans, c, k);
  }

  /** A token whose end no other token covers is a C string in the cleared buffer. */
  lemma TextLaid(s: seq<char>, spans: seq<Span>, c: nat, k: nat)
    requires IsLine(s) && k < |spans|
    requires spans[k].from <= spans[k].start <= spans[k].end <= |s| && Resume(s, spans[k].end) <= c
    requires forall k' :: 0 <= k' < |spans| && k' != k ==> !(spans[k'].from <= spans[k].end < spans[k'].end)
    ensures StrAt(Cleared(s, spans, c), spans[k].start, s[spans[k].start..spans[k].end])
  {
    var t := spans[k];
    var b, text := Cleared(s, spans, c), s[t.start..t.end];
    forall j | 0 <= j < |text| ensures b[t.start + j] == text[j] && text[j] != Nul {
      ClearedIn(s, spans, c, k, t.start + j);
    }
    if t.end < |s| {
      ClearedGap(s, spans, c, t.end);
    } else {
      assert b[|s|] == (s + [Nul])[|s|];
    }
  }

  /** A position inside token k keeps its character. */
  lemma ClearedIn(s: seq<char>, spans: seq<Span>, c: nat, k: nat, j: nat)
    requires k < |spans| && spans[k].from <= j < spans[k].end <= |s|
    ensures Cleared(s, spans, c)[j] == s[j]
  {
    assert Kept(spans, j);
  }

  /** A position the loop passed outside every token holds NUL. */
  lemma ClearedGap(s: seq<char>, spans: seq<Span>, c: nat, j: nat)
    requires j < c && j <= |s|
    requires forall k :: 0 <= k < |spans| ==> !(spans[k].from <= j < spans[k].end)
    ensures Cleared(s, spans, c)[j] == Nul
  {
  }

  /** After the collection loop the arguments are the token texts, laid out in the buffer. */
  lemma TokensLaid(s: seq<char>, a: seq<Option<nat>>)
    requires IsLine(s) && |Lex(s, 0, 0)| < |a|
    requires forall k :: 0 <= k < |Lex(s, 0, 0)| ==> a[k] == Some(Lex(s, 0, 0)[k].start)
    requires a[|Lex(s, 0, 0)|] == None
    ensures Laid(Cleared(s, Lex(s, 0, 0), LexEnd(s, 0, 0)), a, Texts(s))
  {
    var spans, ts := Lex(s, 0, 0), Texts(s);
    LexShape(s, 0, 0);
    forall k | 0 <= k < |ts| ensures StrAt(Cleared(s, spans, LexEnd(s, 0, 0)), a[k].value, ts[k]) {
      TokenLaid(s, k);
    }
    forall k, k' | 0 <= k < k' < |ts| ensures a[k].value + |ts[k]| < a[k'].value {
      assert Resume(s, spans[k].end) <= spans[k'].from;
    }
  }

  // ---------------------------------------------------------------- the quote pass

  /** The quote pass on one argument: matching outer quotes come off, once. */
  function Unquote(t: seq<char>): seq<char>
  {
    if |t| >= 2 && IsQuote(t[0]) && t[|t| - 1] == t[0] then t[1..|t| - 1] else t
  }

  /** The arguments with the first k unquoted. */
  function UnquotedTo(ts: seq<seq<char>>, k: nat): (us: seq<seq<char>>)
    ensures |us| == |ts|
  {
    seq(|ts|, j requires 0 <= j < |ts| => if j < k then Unquote(ts[j]) else ts[j])
  }

  function Unquoted(ts: seq<seq<char>>): (us: seq<seq<char>>)
    ensures |us| == |ts|
  {
    UnquotedTo(ts, |ts|)
  }

  /** strlen: the length of the C string at p, known (as a ghost) to be t. */
  method StrLen(buf: array<char>, p: nat, ghost t: seq<char>) returns (n: nat)
    requires StrAt(buf[..], p, t)
    ensures n == |t|
  {
    n := 0;
    while buf[p + n] != Nul
      invariant n <= |t| && (n < |t| ==> buf[p + n] == t[n])
      decreases |t| - n
    {
      assert buf[p + n] == buf[..][p + n];
      n := n + 1;
      assert n < |t| ==> buf[..][p + n] == t[n];
    }
  }

  /**
   * The quote pass of parse_command: each argument of two or more
   * characters that starts and ends with the same quote loses both; the
   * closing one becomes NUL and the pointer moves past the opening one.
   */
  method StripQuotes(buf: array<char>, args: array<Option<nat>>, ghost ts: seq<seq<char>>)
    requires Laid(buf[..], args[..], ts)
    modifies buf, args
    ensures Laid(buf[..], args[..], Unquoted(ts))
    ensures args[|ts| + 1..] == old(args[|ts| + 1..])
  {
    ghost var tail := args[|ts| + 1..];
    assert UnquotedTo(ts, 0) == ts;
    var k := 0;
    while args[k] != None
      invariant k <= |ts| && Laid(buf[..], args[..], UnquotedTo(ts, k))
      invariant args[|ts| + 1..] == tail
      decreases |ts| - k
    {
      ghost var a := args[..];
      StripOne(buf, args, ts, k);
      UpdateBelow(a, k, args[k], |ts| + 1);
      k := k + 1;
    }
    assert UnquotedTo(ts, k) == Unquoted(ts);
  }

  /** An update below m leaves the elements from m on alone. */
  lemma UpdateBelow<T>(a: seq<T>, k: nat, v: T, m: nat)
    requires k < m <= |a|
    ensures a[k := v][m..] == a[m..]
  {
  }

  /** One round of the quote pass, on argument k. */
  method StripOne(buf: array<char>, args: array<Option<nat>>, ghost ts: seq<seq<char>>, k: nat)
    requires k < |ts| && Laid(buf[..], args[..], UnquotedTo(ts, k))
    modifies buf, args
    ensures Laid(buf[..], args[..], UnquotedTo(ts, k + 1))
    ensures args[..] == old(args[..])[k := args[k]]
  {
    ghost var us := UnquotedTo(ts, k);
    var p := args[k].value;
    ghost var t := ts[k];
    assert us[k] == t;
    var len := StrLen(buf, p, t);
    UnquotedStep(ts, k);
    var quoted := false;
    if len >= 2 {
      assert buf[p] == buf[..][p] == t[0] && buf[p + len - 1] == buf[..][p + len - 1] == t[len - 1];
      if buf[p] == '"' && buf[p + len - 1] == '"' {
        quoted := true;
      } else if buf[p] == '\'' && buf[p + len - 1] == '\'' {
        quoted := true;
      }
    }
    if quoted {
      assert Unquote(t) == t[1..len - 1];
      CutQuotesAt(buf, args, us, k, len);
    } else {
      assert Unquote(t) == t;
      assert us[k := t] == us;
    }
  }

  /** The closing quote of argument k becomes NUL and its pointer moves past the opening one. */
  method CutQuotesAt(buf: array<char>, args: array<Option<nat>>, ghost us: seq<seq<char>>, k: nat, len: nat)
    requires k < |us| && Laid(buf[..], args[..], us) && len == |us[k]| >= 2
    modifies buf, args
    ensures Laid(buf[..], args[..], us[k := us[k][1..|us[k]| - 1]])
    ensures args[..] == old(args[..])[k := args[k]]
  {
    ghost var b, a, t := buf[..], args[..], us[k];
    var p := args[k].value;
    buf[p + len - 1] := Nul;
    args[k] := Some(p + 1);
    assert buf[..] == b[p + |t| - 1 := Nul];
    CutQuotes(b, p, t);
    LaidShrink(b, a, us, k, p + |t| - 1, p + 1, t[1..|t| - 1]);
  }

  lemma UnquotedStep(ts: seq<seq<char>>, k: nat)
    requires k < |ts|
    ensures UnquotedTo(ts, k + 1) == UnquotedTo(ts, k)[k := Unquote(ts[k])]
  {
  }

  /** NUL over the last character of a C string of two or more leaves the C string in between. */
  lemma CutQuotes(b: seq<char>, p: nat, t: seq<char>)
    requires StrAt(b, p, t) && |t| >= 2
    ensures StrAt(b[p + |t| - 1 := Nul], p + 1, t[1..|t| - 1])
  {
    var b', u := b[p + |t| - 1 := Nul], t[1..|t| - 1];
    forall j | 0 <= j < |u| ensures b'[p + 1 + j] == u[j] && u[j] != Nul {
      assert u[j] == t[j + 1];
    }
  }

  /**
   * A write inside one string's room that leaves a shorter string within
   * the same room keeps the layout.
   */
  lemma LaidShrink(b: seq<char>, a: seq<Option<nat>>, ts: seq<seq<char>>, k: nat, w: nat, q: nat, u: seq<char>)
    requires Laid(b, a, ts) && k < |ts|
    requires a[k].value <= w <= a[k].value + |ts[k]|
    requires a[k].value <= q && q + |u| <= a[k].value + |ts[k]|
    requires StrAt(b[w := Nul], q, u)
    ensures Laid(b[w := Nul], a[k := Some(q)], ts[k := u])
  {
    forall i | 0 <= i < |ts| && i != k ensures StrAt(b[w := Nul], a[i].value, ts[i]) {
      if i < k {
        assert a[i].value + |ts[i]| < a[k].value;
      } else {
        assert a[k].value + |ts[k]| < a[i].value;
      }
      StrAtFrame(b, w, Nul, a[i].value, ts[i]);
    }
  }

  // ---------------------------------------------------------------- views of the pointer arrays

  /** The pointers a[..|v|] show v: NULL where v has None, the C string where it has Some. */
  ghost predicate Shows(b: seq<char>, a: seq<Option<nat>>, v: seq<Option<seq<char>>>)
  {
    && |v| <= |a|
    && forall k :: 0 <= k < |v| ==> (a[k].None? <==> v[k].None?) && (v[k].Some? ==> StrAt(b, a[k].value, v[k].value))
  }

  /** Each string, then NULL. */
  function Listed(ts: seq<seq<char>>): (v: seq<Option<seq<char>>>)
    ensures |v| == |ts| + 1 && v[|ts|] == None && forall k :: 0 <= k < |ts| ==> v[k] == Some(ts[k])
  {
    seq(|ts| + 1, k requires 0 <= k <= |ts| => if k < |ts| then Some(ts[k]) else None)
  }

  lemma LaidShows(b: seq<char>, a: seq<Option<nat>>, ts: seq<seq<char>>)
    requires Laid(b, a, ts)
    ensures Shows(b, a, Listed(ts))
  {
    var v := Listed(ts);
    forall k | 0 <= k < |v| ensures (a[k].None? <==> v[k].None?) && (v[k].Some? ==> StrAt(b, a[k].value, v[k].value)) {
      if k < |ts| {
        assert v[k] == Some(ts[k]);
      }
    }
  }

  /** Setting a pointer to NULL shows None there. */
  lemma ShowsCut(b: seq<char>, a: seq<Option<nat>>, v: seq<Option<seq<char>>>, i: nat)
    requires Shows(b, a, v) && i < |v|
    ensures Shows(b, a[i := None], v[i := None])
  {
  }

  /** strcmp(p, [c]) == 0 for a one-character string [c]. */
  function IsOneChar(buf: array<char>, p: nat, c: char): bool
    requires p < buf.Length
    reads buf
  {
    buf[p] == c && p + 1 < buf.Length && buf[p + 1] == Nul
  }

  /** The comparison is equality of the C string with [c]. */
  lemma OneCharIff(buf: array<char>, p: nat, t: seq<char>, c: char)
    requires StrAt(buf[..], p, t) && c != Nul
    ensures IsOneChar(buf, p, c) <==> t == [c]
  {
    var b := buf[..];
    if |t| == 0 {
      assert buf[p] == b[p] == Nul;
    } else {
      assert buf[p] == b[p] == t[0];
      if |t| == 1 {
        assert buf[p + 1] == b[p + 1] == Nul;
      } else {
        assert buf[p + 1] == b[p + 1] == t[1] != Nul;
      }
    }
  }

  /** strcpy out of the buffer: the C string at p. */
  method CopyStr(buf: array<char>, p: nat, ghost t: seq<char>) returns (r: seq<char>)
    requires StrAt(buf[..], p, t)
    ensures r == t
  {
    var n := StrLen(buf, p, t);
    r := buf[p..p + n];
    assert r == buf[..][p..p + n];
  }

  // ---------------------------------------------------------------- redirection and the pipe

  /** What the redirection and pipe pass leaves: args, args2, the file names and has_pipe. */
  datatype Routing = Routing(args: seq<Option<seq<char>>>, args2: seq<Option<seq<char>>>,
                             infile: seq<char>, outfile: seq<char>, hasPipe: bool)

  /** A pointer list ends with NULL. */
  predicate Ended(v: seq<Option<seq<char>>>)
  {
    v != [] && v[|v| - 1] == None
  }

  /** How many arguments the copy loop moves from i on when j are moved: up to NULL or MAX_ARGS-1 in all. */
  function PipeLen(v: seq<Option<seq<char>>>, i: nat, j: nat): (n: nat)
    requires i < |v| && Ended(v)
    ensures i + n < |v| && (j < MaxArgs ==> j + n < MaxArgs)
    decreases |v| - i
  {
    if v[i].None? || j >= MaxArgs - 1 then 0 else 1 + PipeLen(v, i + 1, j + 1)
  }

  /** args2 after the copy loop: the arguments from i on, up to NULL or MAX_ARGS-1 of them, then NULL. */
  function PipeRun(v: seq<Option<seq<char>>>, i: nat): (r: seq<Option<seq<char>>>)
    requires i < |v| && Ended(v)
    ensures Ended(r) && |r| <= MaxArgs
  {
    v[i..i + PipeLen(v, i, 0)] + [None]
  }

  /**
   * The redirection and pipe pass from argument i on: the first "<" or ">"
   * with a following argument takes that argument as the file name and
   * both become NULL; the first "|" becomes NULL and what follows it goes
   * to args2. Either ends the pass.
   */
  function RouteFrom(v: seq<Option<seq<char>>>, i: nat): (r: Routing)
    requires i < |v| && Ended(v)
    ensures |r.args| == |v| && Ended(r.args) && (r.hasPipe ==> Ended(r.args2) && |r.args2| <= MaxArgs)
    decreases |v| - i
  {
    if v[i].None? then Routing(v, [], [], [], false)
    else if v[i].value == "<" && v[i + 1].Some? then Routing(v[i := None][i + 1 := None], [], v[i + 1].value, [], false)
    else if v[i].value == ">" && v[i + 1].Some? then Routing(v[i := None][i + 1 := None], [], [], v[i + 1].value, false)
    else if v[i].value == "|" then Routing(v[i := None], PipeRun(v, i + 1), [], [], true)
    else RouteFrom(v, i + 1)
  }

  /** The copy loop of the pipe case: args2 receives the arguments from i0 on. */
  method CopyRun(buf: array<char>, args: array<Option<nat>>, args2: array<Option<nat>>,
                 ghost v: seq<Option<seq<char>>>, i0: nat)
    requires args.Length == MaxArgs && args2.Length == MaxArgs && args != args2
    requires Ended(v) && i0 < |v| && Shows(buf[..], args[..], v)
    modifies args2
    ensures Shows(buf[..], args2[..], PipeRun(v, i0))
  {
    ghost var m := PipeLen(v, i0, 0);
    var i, j := i0, 0;
    while args[i] != None && j < MaxArgs - 1
      invariant i == i0 + j && i < |v| && j + PipeLen(v, i, j) == m
      invariant forall j' :: 0 <= j' < j ==> args2[j'] == args[i0 + j']
      decreases |v| - i
    {
      args2[j] := args[i];
      j, i := j + 1, i + 1;
    }
    args2[j] := None;
    ghost var r := PipeRun(v, i0);
    forall k | 0 <= k < |r| ensures (args2[k].None? <==> r[k].None?) && (r[k].Some? ==> StrAt(buf[..], args2[k].value, r[k].value)) {
      if k < j {
        assert r[k] == v[i0 + k];
      }
    }
  }

  /**
   * The redirection and pipe pass of parse_command over args, whose
   * pointers show v.
   */
  method Route(buf: array<char>, args: array<Option<nat>>, args2: array<Option<nat>>, ghost v: seq<Option<seq<char>>>)
    returns (infile: seq<char>, outfile: seq<char>, hasPipe: bool)
    requires args.Length == MaxArgs && args2.Length == MaxArgs && args != args2
    requires Ended(v) && Shows(buf[..], args[..], v)
    modifies args, args2
    ensures var r := RouteFrom(v, 0);
            && Shows(buf[..], args[..], r.args) && infile == r.infile && outfile == r.outfile && hasPipe == r.hasPipe
            && (hasPipe ==> Shows(buf[..], args2[..], r.args2))
  {
    infile, outfile, hasPipe := [], [], false;
    var i := 0;
    while args[i] != None
      invariant i < |v| && RouteFrom(v, i) == RouteFrom(v, 0) && args[..] == old(args[..])
      invariant infile == [] && outfile == [] && !hasPipe
      decreases |v| - i
    {
      var done;
      done, infile, outfile, hasPipe := RouteAt(buf, args, args2, v, i);
      if done {
        return;
      }
      i := i + 1;
    }
  }

  /**
   * One round of the pass, at argument i: a redirection with its file
   * name, or a pipe, ends it (done); anything else leaves args as it was.
   */
  method RouteAt(buf: array<char>, args: array<Option<nat>>, args2: array<Option<nat>>, ghost v: seq<Option<seq<char>>>, i: nat)
    returns (done: bool, infile: seq<char>, outfile: seq<char>, hasPipe: bool)
    requires args.Length == MaxArgs && args2.Length == MaxArgs && args != args2
    requires Ended(v) && Shows(buf[..], args[..], v) && i < |v| && v[i].Some?
    modifies args, args2
    ensures var r := RouteFrom(v, i);
            done ==> && Shows(buf[..], args[..], r.args) && infile == r.infile && outfile == r.outfile
                     && hasPipe == r.hasPipe && (hasPipe ==> Shows(buf[..], args2[..], r.args2))
    ensures !done ==> args[..] == old(args[..]) && RouteFrom(v, i + 1) == RouteFrom(v, i)
    ensures !done ==> infile == [] && outfile == [] && !hasPipe
  {
    ghost var a := args[..];
    done, infile, outfile, hasPipe := false, [], [], false;
    var p := args[i].value;
    ghost var w := v[i].value;
    OneCharIff(buf, p, w, '<');
    OneCharIff(buf, p, w, '>');
    OneCharIff(buf, p, w, '|');
    if IsOneChar(buf, p, '<') {
      if args[i + 1] != None {
        infile := CopyStr(buf, args[i + 1].value, v[i + 1].value);
        args[i] := None;
        args[i + 1] := None;
        done := true;
        ShowsCut2(buf[..], a, v, i);
        return;
      }
    } else if IsOneChar(buf, p, '>') {
      if args[i + 1] != None {
        outfile := CopyStr(buf, args[i + 1].value, v[i + 1].value);
        args[i] := None;
        args[i + 1] := None;
        done := true;
        ShowsCut2(buf[..], a, v, i);
        return;
      }
    }
    if IsOneChar(buf, p, '|') {
      hasPipe := true;
      SplitPipe(buf, args, args2, v, i);
      done := true;
    }
  }

  /** The pipe case: NULL over the "|", and what follows goes to args2. */
  method SplitPipe(buf: array<char>, args: array<Option<nat>>, args2: array<Option<nat>>, ghost v: seq<Option<seq<char>>>, i: nat)
    requires args.Length == MaxArgs && args2.Length == MaxArgs && args != args2
    requires Ended(v) && Shows(buf[..], args[..], v) && i < |v| && v[i].Some?
    modifies args, args2
    ensures Shows(buf[..], args[..], v[i := None]) && Shows(buf[..], args2[..], PipeRun(v, i + 1))
  {
    ghost var a := args[..];
    args[i] := None;
    ShowsCut(buf[..], a, v, i);
    CopyRun(buf, args, args2, v[i := None], i + 1);
    PipeLenSame(v[i := None], v, i + 1, 0);
    assert v[i := None][i + 1..] == v[i + 1..];
  }

  lemma ShowsCut2(b: seq<char>, a: seq<Option<nat>>, v: seq<Option<seq<char>>>, i: nat)
    requires Shows(b, a, v) && i + 1 < |v|
    ensures Shows(b, a[i := None][i + 1 := None], v[i := None][i + 1 := None])
  {
    ShowsCut(b, a, v, i);
    ShowsCut(b, a[i := None], v[i := None], i + 1);
  }

  /** The copy depends only on the arguments it reads. */
  lemma {:induction false} PipeLenSame(v: seq<Option<seq<char>>>, w: seq<Option<seq<char>>>, i: nat, j: nat)
    requires i < |v| && Ended(v) && |w| == |v| && Ended(w)
    requires forall k :: i <= k < |v| ==> v[k] == w[k]
    ensures PipeLen(v, i, j) == PipeLen(w, i, j)
    decreases |v| - i
  {
    if v[i].Some? && j < MaxArgs - 1 {
      PipeLenSame(v, w, i + 1, j + 1);
    }
  }

  /** Above the cursor the collection loop has not touched the line. */
  lemma ClearedUnread(s: seq<char>, spans: seq<Span>, c: nat)
    requires c <= |s|
    ensures Unread(Cleared(s, spans, c), s, c)
  {
  }

  /** The separators after the cursor, read without writing. */
  method SkipRest(buf: array<char>, ghost s: seq<char>, c: nat) returns (q: nat)
    requires Unread(buf[..], s, c)
    ensures q == SkipSpace(s, c)
  {
    q := c;
    while IsSpace(buf[q])
      invariant c <= q <= |s| && SkipSpace(s, q) == SkipSpace(s, c)
      decreases |s| - q
    {
      assert buf[q] == buf[..][q];
      q := q + 1;
    }
    assert buf[q] == buf[..][q];
  }

  // ---------------------------------------------------------------- parse_command

  /** What parse_command leaves: the routed lists and file names, is_background and too_much_args. */
  datatype Parse = Parse(routing: Routing, background: bool, tooMany: bool)

  /**
   * parse_command on the line s: the token texts, unquoted; a last
   * argument "&" is taken off and sets is_background; then the
   * redirection and pipe pass. too_much_args is set when the collection
   * loop stopped with more than separators left (see Findings in README).
   */
  function Parsed(s: seq<char>): (P: Parse)
    ensures |P.routing.args| >= 1
  {
    var us := Unquoted(Texts(s));
    Parse(RouteFrom(ArgList(us), 0), Background(us), SkipSpace(s, LexEnd(s, 0, 0)) < |s|)
  }

  /** The last argument is "&". */
  predicate Background(us: seq<seq<char>>)
  {
    |us| > 0 && us[|us| - 1] == "&"
  }

  /** The argument list the redirection and pipe pass starts from: a last "&" is NULL. */
  function ArgList(us: seq<seq<char>>): (v: seq<Option<seq<char>>>)
    ensures Ended(v) && |v| == |us| + 1
  {
    if Background(us) then Listed(us)[|us| - 1 := None] else Listed(us)
  }

  /**
   * parse_command over the line buffer: on return args and args2 show the
   * lists Parsed gives, and the flags and file names are Parsed's.
   */
  method ParseCommand(buf: array<char>, ghost s: seq<char>, args: array<Option<nat>>, args2: array<Option<nat>>)
    returns (isBackground: bool, tooMuchArgs: bool, infile: seq<char>, outfile: seq<char>, hasPipe: bool)
    requires IsLine(s) && buf.Length == |s| + 1 && buf[..] == s + [Nul]
    requires args.Length == MaxArgs && args2.Length == MaxArgs && args != args2
    modifies buf, args, args2
    ensures var P := Parsed(s);
            && isBackground == P.background && tooMuchArgs == P.tooMany
            && infile == P.routing.infile && outfile == P.routing.outfile && hasPipe == P.routing.hasPipe
            && Shows(buf[..], args[..], P.routing.args)
            && (hasPipe ==> Shows(buf[..], args2[..], P.routing.args2))
  {
    var count;
    count, tooMuchArgs := Split(buf, s, args);
    ghost var us := Unquoted(Texts(s));
    isBackground := DropAmp(buf, args, count, us);
    infile, outfile, hasPipe := Route(buf, args, args2, ArgList(us));
  }

  /**
   * The collection loop, the too_much_args check and the quote pass: args
   * shows the unquoted token texts, then NULL.
   */
  method Split(buf: array<char>, ghost s: seq<char>, args: array<Option<nat>>) returns (count: nat, tooMuchArgs: bool)
    requires IsLine(s) && buf.Length == |s| + 1 && buf[..] == s + [Nul]
    requires args.Length == MaxArgs
    modifies buf, args
    ensures count == |Texts(s)| < MaxArgs && tooMuchArgs == (SkipSpace(s, LexEnd(s, 0, 0)) < |s|)
    ensures Shows(buf[..], args[..], Listed(Unquoted(Texts(s))))
  {
    var cursor;
    count, cursor := Tokenize(buf, s, args);
    ClearedUnread(s, Lex(s, 0, 0), cursor);
    var rest := SkipRest(buf, s, cursor);
    assert buf[rest] == buf[..][rest];
    tooMuchArgs := buf[rest] != Nul;
    ghost var ts := Texts(s);
    TokensLaid(s, args[..]);
    StripQuotes(buf, args, ts);
    LaidShows(buf[..], args[..], Unquoted(ts));
  }

  /** The background check: a last argument "&" becomes NULL and sets is_background. */
  method DropAmp(buf: array<char>, args: array<Option<nat>>, count: nat, ghost us: seq<seq<char>>)
    returns (isBackground: bool)
    requires count == |us| < MaxArgs == args.Length && Shows(buf[..], args[..], Listed(us))
    modifies args
    ensures isBackground == Background(us) && Shows(buf[..], args[..], ArgList(us))
  {
    ghost var v := Listed(us);
    isBackground := false;
    if count > 0 {
      OneCharIff(buf, args[count - 1].value, us[count - 1], '&');
      if IsOneChar(buf, args[count - 1].value, '&') {
        isBackground := true;
        ShowsCut(buf[..], args[..], v, count - 1);
        args[count - 1] := None;
        v := v[count - 1 := None];
      }
    }
    assert v == ArgList(us);
  }

  // ---------------------------------------------------------------- main

  /** The prefix of raw before its first NUL: the C string the shell sees. */
  function CText(raw: seq<char>): (s: seq<char>)
    ensures IsLine(s) && s <= raw && (|s| < |raw| ==> raw[|s|] == Nul)
  {
    if raw == [] || raw[0] == Nul then [] else [raw[0]] + CText(raw[1..])
  }

  /** The strings of a pointer list before its first NULL: what execvp receives. */
  function Argv(v: seq<Option<seq<char>>>): seq<seq<char>>
  {
    if v == [] || v[0].None? then [] else [v[0].value] + Argv(v[1..])
  }

  /** A file name, unless empty: infile[0] != '\0'. */
  function Named(f: seq<char>): Option<seq<char>>
  {
    if f == [] then None else Some(f)
  }

  /**
   * What one round of main's loop does with the line getline returned
   * (None at end of input): leave the loop, skip the line (nothing to run
   * or too many arguments), or run one command or a pipeline of two.
   */
  datatype Action =
    | Exit
    | Skip
    | TooMany
    | Single(argv: seq<seq<char>>, input: Option<seq<char>>, output: Option<seq<char>>, background: bool)
    | Pipe(argv: seq<seq<char>>, argv2: seq<seq<char>>)

  function Decide(raw: Option<seq<char>>): Action
  {
    if raw.None? || CText(raw.value) == "exit\n" then Exit else Run(Parsed(CText(raw.value)))
  }

  /** After parse_command: skip an empty list or a line that was too long, else run. */
  function Run(P: Parse): Action
    requires |P.routing.args| >= 1
  {
    if P.routing.args[0].None? then Skip
    else if P.tooMany then TooMany
    else if P.routing.hasPipe then Pipe(Argv(P.routing.args), Argv(P.routing.args2))
    else Single(Argv(P.routing.args), Named(P.routing.infile), Named(P.routing.outfile), P.background)
  }

  /** Reads the argument strings out of the buffer, up to the NULL. */
  method ArgvOf(buf: array<char>, args: array<Option<nat>>, ghost v: seq<Option<seq<char>>>) returns (argv: seq<seq<char>>)
    requires Ended(v) && Shows(buf[..], args[..], v)
    ensures argv == Argv(v)
  {
    argv := [];
    var i := 0;
    while args[i] != None
      invariant i < |v| && Argv(v) == argv + Argv(v[i..])
      decreases |v| - i
    {
      var a := CopyStr(buf, args[i].value, v[i].value);
      assert v[i..][1..] == v[i + 1..];
      argv := argv + [a];
      i := i + 1;
    }
  }

  /**
   * One round of main's loop on the line getline returned: the exit
   * test, parse_command, then the checks that skip a line before any
   * process is started.
   */
  method HandleLine(raw: Option<seq<char>>) returns (act: Action)
    ensures act == Decide(raw)
  {
    if raw.None? {
      return Exit;
    }
    var s := CText(raw.value);
    if s == "exit\n" {
      return Exit;
    }
    var buf := new char[|s| + 1](j => if 0 <= j < |s| then s[j] else Nul);
    assert buf[..] == s + [Nul];
    var args := new Option<nat>[MaxArgs](_ => None);
    var args2 := new Option<nat>[MaxArgs](_ => None);
    var isBackground, tooMuchArgs, infile, outfile, hasPipe := ParseCommand(buf, s, args, args2);
    ghost var P := Parsed(s);
    if args[0] == None {
      return Skip;
    }
    if tooMuchArgs {
      return TooMany;
    }
    var argv := ArgvOf(buf, args, P.routing.args);
    if hasPipe {
      var argv2 := ArgvOf(buf, args2, P.routing.args2);
      return Pipe(argv, argv2);
    }
    return Single(argv, Named(infile), Named(outfile), isBackground);
  }

  // ---------------------------------------------------------------- quote-free lines

  predicate QuoteFree(s: seq<char>)
  {
    forall j :: 0 <= j < |s| ==> !IsQuote(s[j])
  }

  function Min(a: nat, b: nat): nat
  {
    if a <= b then a else b
  }

  /** Scanning resumes past the separator after a word, where the word split resumes too. */
  lemma WordsResume(s: seq<char>, e: nat)
    requires e <= |s| && (e < |s| ==> IsSpace(s[e]))
    ensures WordsFrom(s, Resume(s, e)) == WordsFrom(s, e)
  {
    if e < |s| {
      assert SkipSpace(s, e) == SkipSpace(s, e + 1);
    }
  }

  /** The spans cut out the first n words of ws, or all of them when fewer. */
  predicate TextsMatch(s: seq<char>, spans: seq<Span>, ws: seq<seq<char>>, n: nat)
  {
    && |spans| == Min(|ws|, n)
    && forall k :: 0 <= k < |spans| ==> spans[k].start <= spans[k].end <= |s| && s[spans[k].start..spans[k].end] == ws[k]
  }

  lemma MatchCons(s: seq<char>, t: Span, spans: seq<Span>, ws: seq<seq<char>>, n: nat)
    requires n >= 1 && TextsMatch(s, spans, ws, n - 1) && t.start <= t.end <= |s|
    ensures TextsMatch(s, [t] + spans, [s[t.start..t.end]] + ws, n)
  {
    var spans', ws' := [t] + spans, [s[t.start..t.end]] + ws;
    forall k | 0 <= k < |spans'|
      ensures spans'[k].start <= spans'[k].end <= |s| && s[spans'[k].start..spans'[k].end] == ws'[k]
    {
      if k > 0 {
        assert spans'[k] == spans[k - 1] && ws'[k] == ws[k - 1];
      }
    }
  }

  /**
   * On a line without quotes the collection loop finds the words of the
   * line, up to MAX_ARGS-1 of them, and text other than separators is left
   * unread exactly when there are more words than that.
   */
  lemma {:induction false} LexWords(s: seq<char>, p: nat, i: nat)
    requires QuoteFree(s) && p <= |s| && i <= MaxArgs - 1
    ensures TextsMatch(s, Lex(s, p, i), WordsFrom(s, p), MaxArgs - 1 - i)
    ensures SkipSpace(s, LexEnd(s, p, i)) < |s| <==> |WordsFrom(s, p)| > MaxArgs - 1 - i
    decreases |s| - p
  {
    var q := SkipSpace(s, p);
    if p < |s| && i < MaxArgs - 1 && q < |s| {
      var t := TokenAt(s, q);
      var e, r := t.end, Resume(s, t.end);
      assert t == Span(q, q, e) && e == RunEnd(s, q);
      LexWords(s, r, i + 1);
      WordsResume(s, e);
      var spans', ws' := Lex(s, r, i + 1), WordsFrom(s, e);
      MatchCons(s, t, spans', ws', MaxArgs - 1 - i);
      assert Lex(s, p, i) == [t] + spans';
      WordsUnfold(s, p, q, e);
      assert LexEnd(s, p, i) == LexEnd(s, r, i + 1);
    } else if p < |s| && i < MaxArgs - 1 {
      assert WordsFrom(s, p) == [];
    } else if p == |s| {
      assert WordsFrom(s, p) == [];
    }
  }

  /** On a line without quotes and with at most MAX_ARGS-1 words, the arguments are the words. */
  lemma QuoteFreeTexts(s: seq<char>)
    requires QuoteFree(s) && |Words(s)| <= MaxArgs - 1
    ensures Texts(s) == Words(s)
    ensures SkipSpace(s, LexEnd(s, 0, 0)) == |s|
  {
    LexWords(s, 0, 0);
  }

  // ---------------------------------------------------------------- the two defects of the collection loop

  /** The cursor step as written: `*cmd++ = '\0'` moves past the NUL even when it is the terminator. */
  function ResumeAsWritten(e: nat): (r: nat)
    ensures r > e
  {
    e + 1
  }

  /**
   * A quote that is never closed runs the scan to the terminator, and the
   * step as written then leaves the cursor one past the line's buffer
   * (which holds the line and its NUL); the corrected step stays on the
   * terminator.
   */
  lemma UnclosedQuoteOverrun(s: seq<char>, q: nat)
    requires q < |s| && IsQuote(s[q])
    requires forall j :: q < j < |s| ==> s[j] != s[q]
    ensures TokenAt(s, q).end == |s|
    ensures ResumeAsWritten(TokenAt(s, q).end) == |s| + 1
    ensures Resume(s, TokenAt(s, q).end) == |s|
  {
  }

  /**
   * An unquoted last token that reaches the terminator (a last line read
   * without its newline) ends the scan on the terminator too, and the step
   * as written again leaves the cursor one past the line's buffer, while
   * the corrected step stays on the terminator.
   */
  lemma UnquotedEndOverrun(s: seq<char>, q: nat)
    requires q < |s| && !IsQuote(s[q])
    requires forall j :: q <= j < |s| ==> !IsSpace(s[j])
    ensures TokenAt(s, q).end == |s|
    ensures ResumeAsWritten(TokenAt(s, q).end) == |s| + 1
    ensures Resume(s, TokenAt(s, q).end) == |s|
  {
    RunToEnd(s, q);
  }

  /** A stretch without separators runs to the end of the line. */
  lemma {:induction false} RunToEnd(s: seq<char>, p: nat)
    requires p <= |s| && forall j :: p <= j < |s| ==> !IsSpace(s[j])
    ensures RunEnd(s, p) == |s|
    decreases |s| - p
  {
    if p < |s| {
      RunToEnd(s, p + 1);
    }
  }

  /** The line "ls" at the end of input, without its newline: the scan as written steps past the terminator. */
  lemma LastLineOverrun()
    ensures TokenAt("ls", 0).end == 2 && ResumeAsWritten(2) == 3 && Resume("ls", 2) == 2
  {
    UnquotedEndOverrun("ls", 0);
  }

  /** too_much_args as written: anything but the terminator at the cursor. */
  function TooManyAsWritten(s: seq<char>): bool
  {
    LexEnd(s, 0, 0) < |s|
  }

  /**
   * With at least k words left and two separators ending the line, the
   * collection loop stops before the last of them.
   */
  lemma {:induction false} StopsInside(s: seq<char>, p: nat, i: nat)
    requires QuoteFree(s) && |s| >= 2 && IsSpace(s[|s| - 1]) && IsSpace(s[|s| - 2])
    requires p < |s| && i <= MaxArgs - 1 && |WordsFrom(s, p)| >= MaxArgs - 1 - i
    ensures LexEnd(s, p, i) < |s|
    decreases |s| - p
  {
    if i < MaxArgs - 1 {
      var q := SkipSpace(s, p);
      var e := RunEnd(s, q);
      WordStep(s, p);
      EndBefore(s, q);
      assert TokenAt(s, q).end == e;
      StopsInside(s, e + 1, i + 1);
    }
  }

  /** A word ends no later than a separator that follows it. */
  lemma EndBefore(s: seq<char>, q: nat)
    requires q < |s| - 2 && IsSpace(s[|s| - 2])
    ensures RunEnd(s, q) <= |s| - 2
  {
    RunHasNoSpace(s, q);
  }

  /** Past the first word from p one word fewer is left. */
  lemma WordStep(s: seq<char>, p: nat)
    requires p <= |s| && SkipSpace(s, p) < |s|
    ensures var e := RunEnd(s, SkipSpace(s, p));
            |WordsFrom(s, Resume(s, e))| == |WordsFrom(s, p)| - 1
  {
    var q := SkipSpace(s, p);
    var e := RunEnd(s, q);
    WordsUnfold(s, p, q, e);
    WordsResume(s, e);
  }

  /**
   * MAX_ARGS-1 words followed by a space and the newline: the collection
   * loop stops on the newline, so too_much_args as written is set although
   * the line holds no more arguments than the limit; the corrected check
   * lets it through.
   */
  lemma TrailingSpaceTooMany(s: seq<char>)
    requires QuoteFree(s) && |Words(s)| == MaxArgs - 1
    requires |s| >= 2 && IsSpace(s[|s| - 1]) && IsSpace(s[|s| - 2])
    ensures TooManyAsWritten(s) && !Parsed(s).tooMany
  {
    StopsInside(s, 0, 0);
    QuoteFreeTexts(s);
  }

  // ---------------------------------------------------------------- what main runs

  /** The arguments the redirection and pipe pass acts on. */
  predicate IsOperator(w: seq<char>)
  {
    w == "<" || w == ">" || w == "|"
  }

  /** The pass walks over arguments that are not operators. */
  lemma {:induction false} RouteSkip(v: seq<Option<seq<char>>>, i: nat, k: nat)
    requires Ended(v) && i <= k < |v|
    requires forall j :: i <= j < k ==> v[j].Some? && !IsOperator(v[j].value)
    ensures RouteFrom(v, i) == RouteFrom(v, k)
    decreases k - i
  {
    if i < k {
      RouteSkip(v, i + 1, k);
    }
  }

  /** The copy loop takes every argument up to the NULL when they are few enough. */
  lemma {:induction false} PipeLenAll(v: seq<Option<seq<char>>>, i: nat, j: nat, m: nat)
    requires Ended(v) && i <= m < |v| && v[m] == None && j + (m - i) <= MaxArgs - 1
    requires forall k :: i <= k < m ==> v[k].Some?
    ensures PipeLen(v, i, j) == m - i
    decreases m - i
  {
    if i < m {
      PipeLenAll(v, i + 1, j + 1, m);
    }
  }

  /** execvp sees the strings before the first NULL. */
  lemma {:induction false} ArgvPrefix(v: seq<Option<seq<char>>>, ws: seq<seq<char>>, n: nat)
    requires n < |v| && n <= |ws| && v[n] == None
    requires forall k :: 0 <= k < n ==> v[k] == Some(ws[k])
    ensures Argv(v) == ws[..n]
  {
    if n > 0 {
      ArgvPrefix(v[1..], ws[1..], n - 1);
      assert ws[..n] == [ws[0]] + ws[1..][..n - 1];
    }
  }

  /** The words of a line without quotes hold no quotes. */
  lemma {:induction false} WordsQuoteFree(s: seq<char>, p: nat)
    requires QuoteFree(s) && p <= |s|
    ensures forall k :: 0 <= k < |WordsFrom(s, p)| ==> QuoteFree(WordsFrom(s, p)[k])
    decreases |s| - p
  {
    var q := SkipSpace(s, p);
    if q < |s| {
      var e := RunEnd(s, q);
      WordsQuoteFree(s, e);
      var w := s[q..e];
      assert QuoteFree(w) by {
        forall j | 0 <= j < |w| ensures !IsQuote(w[j]) {
          assert w[j] == s[q + j];
        }
      }
    }
  }

  /** A line without NUL is its own C string. */
  lemma {:induction false} CTextOfLine(s: seq<char>)
    requires IsLine(s)
    ensures CText(s) == s
  {
    if s != [] {
      CTextOfLine(s[1..]);
      assert s == [s[0]] + s[1..];
    }
  }

  /**
   * A line without quotes and with at most MAX_ARGS-1 words: the argument
   * list after the quote pass is its words, and it is not rejected as too
   * long.
   */
  lemma PlainLine(s: seq<char>)
    requires IsLine(s) && QuoteFree(s) && |Words(s)| <= MaxArgs - 1
    ensures CText(s) == s && Unquoted(Texts(s)) == Words(s)
    ensures Parsed(s) == Parse(RouteFrom(ArgList(Words(s)), 0), Background(Words(s)), false)
  {
    var ws := Words(s);
    CTextOfLine(s);
    QuoteFreeTexts(s);
    WordsQuoteFree(s, 0);
    WordsAreWords(s, 0);
    forall k | 0 <= k < |ws| ensures Unquote(ws[k]) == ws[k] {
      assert !IsQuote(ws[k][0]);
    }
  }

  /**
   * A command without operators runs its words, in the background when the
   * last word is "&", which is then not passed on.
   */
  lemma PlainCommand(s: seq<char>)
    requires IsLine(s) && QuoteFree(s) && s != "exit\n"
    requires var ws := Words(s);
             && 0 < |ws| <= MaxArgs - 1 && (ws[|ws| - 1] == "&" ==> |ws| >= 2)
             && forall k :: 0 <= k < |ws| ==> !IsOperator(ws[k])
    ensures var ws := Words(s);
            var bg := ws[|ws| - 1] == "&";
            Decide(Some(s)) == Single(if bg then ws[..|ws| - 1] else ws, None, None, bg)
  {
    PlainLine(s);
    PlainRun(Words(s), Parsed(s));
    assert Decide(Some(s)) == Run(Parsed(s));
  }

  /** Words without operators: the pass leaves the list alone and the command runs them. */
  lemma PlainRun(ws: seq<seq<char>>, P: Parse)
    requires 0 < |ws| <= MaxArgs - 1 && (Background(ws) ==> |ws| >= 2)
    requires forall k :: 0 <= k < |ws| ==> !IsOperator(ws[k])
    requires P == Parse(RouteFrom(ArgList(ws), 0), Background(ws), false)
    ensures var bg := Background(ws);
            Run(P) == Single(if bg then ws[..|ws| - 1] else ws, None, None, bg)
  {
    var n := |ws|;
    var bg := Background(ws);
    var v := ArgList(ws);
    var m := if bg then n - 1 else n;
    ArgListCut(ws, m);
    RouteSkip(v, 0, m);
    ArgvPrefix(v, ws, m);
    assert P.routing == Routing(v, [], [], [], false);
  }

  /** The argument list holds the words up to m, where the NULL is. */
  lemma ArgListCut(ws: seq<seq<char>>, m: nat)
    requires m == if Background(ws) then |ws| - 1 else |ws|
    ensures ArgList(ws)[m] == None && forall k :: 0 <= k < m ==> ArgList(ws)[k] == Some(ws[k])
  {
  }

  /**
   * The first operator is "<" or ">" with a file name after it: the command
   * runs the words before it with that file as input or output, and the
   * words after the file name are dropped.
   */
  lemma RedirectCommand(s: seq<char>, n: nat)
    requires IsLine(s) && QuoteFree(s) && s != "exit\n"
    requires var ws := Words(s);
             && 0 < n && n + 1 < |ws| <= MaxArgs - 1 && (ws[n] == "<" || ws[n] == ">") && ws[|ws| - 1] != "&"
             && forall k :: 0 <= k < n ==> !IsOperator(ws[k])
    ensures var ws := Words(s);
            Decide(Some(s)) == Single(ws[..n], if ws[n] == "<" then Some(ws[n + 1]) else None,
                                      if ws[n] == ">" then Some(ws[n + 1]) else None, false)
  {
    var ws := Words(s);
    PlainLine(s);
    WordsAreWords(s, 0);
    var v := Listed(ws);
    RouteSkip(v, 0, n);
    var v' := v[n := None][n + 1 := None];
    ArgvPrefix(v', ws, n);
  }

  /**
   * The first operator is "|": the words before it and the words after it
   * run as the two ends of a pipe.
   */
  lemma PipeCommand(s: seq<char>, n: nat)
    requires IsLine(s) && QuoteFree(s) && s != "exit\n"
    requires var ws := Words(s);
             && 0 < n < |ws| <= MaxArgs - 1 && ws[n] == "|" && ws[|ws| - 1] != "&"
             && forall k :: 0 <= k < n ==> !IsOperator(ws[k])
    ensures var ws := Words(s);
            Decide(Some(s)) == Pipe(ws[..n], ws[n + 1..])
  {
    var ws := Words(s);
    PlainLine(s);
    var v := Listed(ws);
    assert ArgList(ws) == v;
    RouteSkip(v, 0, n);
    ArgvPrefix(v[n := None], ws, n);
    PipeArgv(v, ws, n);
  }

  /** What the copy loop moves when the list is short enough: everything after the "|". */
  lemma PipeArgv(v: seq<Option<seq<char>>>, ws: seq<seq<char>>, n: nat)
    requires v == Listed(ws) && n < |ws| <= MaxArgs - 1
    ensures Argv(PipeRun(v, n + 1)) == ws[n + 1..]
  {
    PipeLenAll(v, n + 1, 0, |ws|);
    var r := PipeRun(v, n + 1);
    ArgvPrefix(r, ws[n + 1..], |ws| - n - 1);
    assert ws[n + 1..][..|ws| - n - 1] == ws[n + 1..];
  }

  /** A line rejected as too long held more than MAX_ARGS-1 tokens' worth of text. */
  lemma {:induction false} LexStop(s: seq<char>, p: nat, i: nat)
    requires p <= |s| && i <= MaxArgs - 1 && SkipSpace(s, LexEnd(s, p, i)) < |s|
    ensures i + |Lex(s, p, i)| == MaxArgs - 1
    decreases |s| - p
  {
    if p < |s| && i < MaxArgs - 1 {
      var q := SkipSpace(s, p);
      if q < |s| {
        LexStop(s, Resume(s, TokenAt(s, q).end), i + 1);
      }
    }
  }

  /** main skips a line as too long only after MAX_ARGS-1 arguments were collected. */
  lemma TooManyIsFull(raw: seq<char>)
    requires Decide(Some(raw)) == TooMany
    ensures |Texts(CText(raw))| == MaxArgs - 1
  {
    LexStop(CText(raw), 0, 0);
  }
}
