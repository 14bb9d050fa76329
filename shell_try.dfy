// parse_command and the decisions in main of the second hw1 shell
// (hw1/try.c). strtok hands out the words of the line, split on space,
// tab, newline and carriage return without any quote handling; here the
// loop reads them from ShellText.Words by position. args and pipe_args are
// arrays of MAX_ARGS pointers, each token or NULL (None).
module ShellTry {
  import opened Wrappers
  import opened ShellText
  import ShellParse

  /** MAX_ARGS of try.c: the size of args and pipe_args. */
  const Slots: nat := 64

  /** What parse_command leaves: both lists, the two file names and the two flags. */
  datatype Cmd = Cmd(args: seq<seq<char>>, pipeArgs: seq<seq<char>>, infile: Option<seq<char>>,
                     outfile: Option<seq<char>>, background: bool, hasPipe: bool)

  /** The state right after the reset at the top of parse_command. */
  const Reset: Cmd := Cmd([], [], None, None, false, false)

  /** The strcmp chain of the loop: what a token is to parse_command. */
  datatype Kind = In | Out | Bar | Amp | Word

  function KindOf(token: seq<char>): Kind
  {
    if token == "<" then In
    else if token == ">" then Out
    else if token == "|" then Bar
    else if token == "&" then Amp
    else Word
  }

  /** An argument goes to the list being filled: args, or pipe_args after a "|". */
  function Append(c: Cmd, t: seq<char>): Cmd
  {
    if c.hasPipe then c.(pipeArgs := c.pipeArgs + [t]) else c.(args := c.args + [t])
  }

  /**
   * The strtok loop from token i on: "<" and ">" take the next token as a
   * file name, "|" starts pipe_args afresh, "&" sets the background flag,
   * anything else is appended.
   */
  function ScanFrom(toks: seq<seq<char>>, i: nat, c: Cmd): Cmd
    requires i <= |toks|
    decreases |toks| - i
  {
    if i == |toks| then c
    else match KindOf(toks[i])
      case In => if i + 1 < |toks| then ScanFrom(toks, i + 2, c.(infile := Some(toks[i + 1]))) else c
      case Out => if i + 1 < |toks| then ScanFrom(toks, i + 2, c.(outfile := Some(toks[i + 1]))) else c
      case Bar => ScanFrom(toks, i + 1, c.(hasPipe := true, pipeArgs := []))
      case Amp => ScanFrom(toks, i + 1, c.(background := true))
      case Word => ScanFrom(toks, i + 1, Append(c, toks[i]))
  }

  function Parse(toks: seq<seq<char>>): Cmd
  {
    ScanFrom(toks, 0, Reset)
  }

  /**
   * parse_command never checks arg_idx: each list, with the NULL after it,
   * has to fit in MAX_ARGS slots. n arguments are in the list being filled.
   */
  predicate FitsFrom(toks: seq<seq<char>>, i: nat, n: nat)
    requires i <= |toks|
    decreases |toks| - i
  {
    if i == |toks| then n < Slots
    else match KindOf(toks[i])
      case In | Out => if i + 1 < |toks| then FitsFrom(toks, i + 2, n) else n < Slots
      case Bar => n < Slots && FitsFrom(toks, i + 1, 0)
      case Amp => FitsFrom(toks, i + 1, n)
      case Word => FitsFrom(toks, i + 1, n + 1)
  }

  /** The pointer array a holds the list xs and then NULL. */
  ghost predicate Holds(a: seq<Option<seq<char>>>, xs: seq<seq<char>>)
  {
    |xs| < |a| && a[|xs|] == None && forall k :: 0 <= k < |xs| ==> a[k] == Some(xs[k])
  }

  /** Where the loop stands: the lists so far are in the arrays, NULL beyond args' list. */
  ghost predicate Filling(a: seq<Option<seq<char>>>, pa: seq<Option<seq<char>>>, c: Cmd)
  {
    && |a| == Slots && |pa| == Slots
    && |c.args| < Slots && |c.pipeArgs| < Slots
    && (forall k :: 0 <= k < |c.args| ==> a[k] == Some(c.args[k]))
    && (forall k :: |c.args| <= k < Slots ==> a[k] == None)
    && (forall k :: 0 <= k < |c.pipeArgs| ==> pa[k] == Some(c.pipeArgs[k]))
    && (!c.hasPipe ==> forall k :: 0 <= k < Slots ==> pa[k] == None)
  }

  /** The length of the list being filled: arg_idx. */
  function Current(c: Cmd): nat
  {
    if c.hasPipe then |c.pipeArgs| else |c.args|
  }

  /**
   * parse_command of try.c over the tokens strtok returns: both arrays are
   * reset to NULL, then filled as Parse says and NULL-terminated; with no
   * pipe, pipe_args stays all NULL.
   */
  method ParseCommand(toks: seq<seq<char>>, args: array<Option<seq<char>>>, pipeArgs: array<Option<seq<char>>>)
    returns (infile: Option<seq<char>>, outfile: Option<seq<char>>, isBackground: bool, hasPipe: bool)
    requires args.Length == Slots && pipeArgs.Length == Slots && args != pipeArgs
    requires FitsFrom(toks, 0, 0)
    modifies args, pipeArgs
    ensures var c := Parse(toks);
            && infile == c.infile && outfile == c.outfile && isBackground == c.background && hasPipe == c.hasPipe
            && Holds(args[..], c.args) && (forall k :: |c.args| <= k < Slots ==> args[k] == None)
            && (hasPipe ==> Holds(pipeArgs[..], c.pipeArgs))
            && (!hasPipe ==> forall k :: 0 <= k < Slots ==> pipeArgs[k] == None)
  {
    infile, outfile, isBackground, hasPipe := None, None, false, false;
    ClearArgs(args, pipeArgs);
    ghost var c := Reset;
    var t, idx, toPipe := 0, 0, false;
    while t < |toks|
      invariant Scanning(args[..], pipeArgs[..], toks, t, c, idx, toPipe)
      invariant infile == c.infile && outfile == c.outfile && isBackground == c.background && hasPipe == c.hasPipe
      decreases |toks| - t
    {
      c, t, idx, toPipe, infile, outfile, isBackground, hasPipe :=
        Take(toks, args, pipeArgs, c, t, idx, toPipe, infile, outfile, isBackground, hasPipe);
    }
    FitsBound(toks, t, idx);
    Cut(args, pipeArgs, c, toPipe, idx);
  }

  /** The reset loop: every slot of both arrays becomes NULL. */
  method ClearArgs(args: array<Option<seq<char>>>, pipeArgs: array<Option<seq<char>>>)
    requires args.Length == Slots && pipeArgs.Length == Slots && args != pipeArgs
    modifies args, pipeArgs
    ensures Filling(args[..], pipeArgs[..], Reset)
  {
    var i := 0;
    while i < Slots
      invariant i <= Slots && forall k :: 0 <= k < i ==> args[k] == None && pipeArgs[k] == None
    {
      args[i] := None;
      pipeArgs[i] := None;
      i := i + 1;
    }
  }

  /** The state the strtok loop keeps: t tokens read, the lists so far in the arrays. */
  ghost predicate Scanning(a: seq<Option<seq<char>>>, pa: seq<Option<seq<char>>>, toks: seq<seq<char>>,
                           t: nat, c: Cmd, idx: nat, toPipe: bool)
  {
    && t <= |toks| && ScanFrom(toks, t, c) == Parse(toks) && FitsFrom(toks, t, idx)
    && Filling(a, pa, c) && idx == Current(c) && toPipe == c.hasPipe
  }

  /** One round of the strtok loop: one token, or an operator and its file name. */
  method Take(toks: seq<seq<char>>, args: array<Option<seq<char>>>, pipeArgs: array<Option<seq<char>>>,
              ghost c0: Cmd, t0: nat, idx0: nat, toPipe0: bool,
              infile0: Option<seq<char>>, outfile0: Option<seq<char>>, isBackground0: bool, hasPipe0: bool)
    returns (ghost c: Cmd, t: nat, idx: nat, toPipe: bool,
             infile: Option<seq<char>>, outfile: Option<seq<char>>, isBackground: bool, hasPipe: bool)
    requires args != pipeArgs && Scanning(args[..], pipeArgs[..], toks, t0, c0, idx0, toPipe0) && t0 < |toks|
    requires infile0 == c0.infile && outfile0 == c0.outfile && isBackground0 == c0.background && hasPipe0 == c0.hasPipe
    modifies args, pipeArgs
    ensures Scanning(args[..], pipeArgs[..], toks, t, c, idx, toPipe) && t0 < t
    ensures infile == c.infile && outfile == c.outfile && isBackground == c.background && hasPipe == c.hasPipe
  {
    c, t, idx, toPipe := c0, t0, idx0, toPipe0;
    infile, outfile, isBackground, hasPipe := infile0, outfile0, isBackground0, hasPipe0;
    var token := toks[t];
    var kind := KindOf(token);
    ghost var a, pa := args[..], pipeArgs[..];
    if kind == In {
      if t + 1 < |toks| {
        infile := Some(toks[t + 1]);
        c := c.(infile := infile);
        t := t + 1;
      }
      InKeeps(a, pa, toks, t0, c0, idx0, toPipe0);
    } else if kind == Out {
      if t + 1 < |toks| {
        outfile := Some(toks[t + 1]);
        c := c.(outfile := outfile);
        t := t + 1;
      }
      OutKeeps(a, pa, toks, t0, c0, idx0, toPipe0);
    } else if kind == Bar {
      hasPipe := true;
      Cut(args, pipeArgs, c, toPipe, idx);
      c := c.(hasPipe := true, pipeArgs := []);
      toPipe, idx := true, 0;
      BarKeeps(a, pa, args[..], pipeArgs[..], toks, t0, c0, idx0);
    } else if kind == Amp {
      isBackground := true;
      c := c.(background := true);
      AmpKeeps(a, pa, toks, t0, c0, idx0, toPipe0);
    } else {
      FitsBound(toks, t + 1, idx + 1);
      Put(args, pipeArgs, c, toPipe, idx, token);
      c := Append(c, token);
      idx := idx + 1;
      WordKeeps(a, pa, args[..], pipeArgs[..], toks, t0, c0, idx0);
    }
    t := t + 1;
  }

  /** "<" and the file name after it, or "<" last: the arrays stay, the scan moves on. */
  lemma InKeeps(a: seq<Option<seq<char>>>, pa: seq<Option<seq<char>>>, toks: seq<seq<char>>,
                t: nat, c: Cmd, idx: nat, toPipe: bool)
    requires Scanning(a, pa, toks, t, c, idx, toPipe) && t < |toks| && KindOf(toks[t]) == In
    ensures t + 1 < |toks| ==> Scanning(a, pa, toks, t + 2, c.(infile := Some(toks[t + 1])), idx, toPipe)
    ensures t + 1 == |toks| ==> Scanning(a, pa, toks, t + 1, c, idx, toPipe)
  {
  }

  /** ">" and the file name after it, or ">" last: the arrays stay, the scan moves on. */
  lemma OutKeeps(a: seq<Option<seq<char>>>, pa: seq<Option<seq<char>>>, toks: seq<seq<char>>,
                 t: nat, c: Cmd, idx: nat, toPipe: bool)
    requires Scanning(a, pa, toks, t, c, idx, toPipe) && t < |toks| && KindOf(toks[t]) == Out
    ensures t + 1 < |toks| ==> Scanning(a, pa, toks, t + 2, c.(outfile := Some(toks[t + 1])), idx, toPipe)
    ensures t + 1 == |toks| ==> Scanning(a, pa, toks, t + 1, c, idx, toPipe)
  {
  }

  /** "&" sets the flag and nothing else. */
  lemma AmpKeeps(a: seq<Option<seq<char>>>, pa: seq<Option<seq<char>>>, toks: seq<seq<char>>,
                 t: nat, c: Cmd, idx: nat, toPipe: bool)
    requires Scanning(a, pa, toks, t, c, idx, toPipe) && t < |toks| && KindOf(toks[t]) == Amp
    ensures Scanning(a, pa, toks, t + 1, c.(background := true), idx, toPipe)
  {
  }

  /** "|" with args terminated: pipe_args is filled from its start. */
  lemma BarKeeps(a: seq<Option<seq<char>>>, pa: seq<Option<seq<char>>>, a': seq<Option<seq<char>>>,
                 pa': seq<Option<seq<char>>>, toks: seq<seq<char>>, t: nat, c: Cmd, idx: nat)
    requires Scanning(a, pa, toks, t, c, idx, c.hasPipe) && t < |toks| && KindOf(toks[t]) == Bar
    requires Filling(a', pa', c.(hasPipe := true, pipeArgs := []))
    ensures Scanning(a', pa', toks, t + 1, c.(hasPipe := true, pipeArgs := []), 0, true)
  {
  }

  /** An argument stored at arg_idx extends the list being filled. */
  lemma WordKeeps(a: seq<Option<seq<char>>>, pa: seq<Option<seq<char>>>, a': seq<Option<seq<char>>>,
                  pa': seq<Option<seq<char>>>, toks: seq<seq<char>>, t: nat, c: Cmd, idx: nat)
    requires Scanning(a, pa, toks, t, c, idx, c.hasPipe) && t < |toks| && KindOf(toks[t]) == Word
    requires Filling(a', pa', Append(c, toks[t]))
    ensures Scanning(a', pa', toks, t + 1, Append(c, toks[t]), idx + 1, c.hasPipe)
  {
  }

  /** A list that fits leaves room for its NULL. */
  lemma {:induction false} FitsBound(toks: seq<seq<char>>, i: nat, n: nat)
    requires i <= |toks| && FitsFrom(toks, i, n)
    ensures n < Slots
    decreases |toks| - i
  {
    if i < |toks| {
      match KindOf(toks[i])
      case In | Out =>
        if i + 1 < |toks| {
          FitsBound(toks, i + 2, n);
        }
      case Bar =>
      case Amp => FitsBound(toks, i + 1, n);
      case Word => FitsBound(toks, i + 1, n + 1);
    }
  }

  /** current_args[arg_idx] = NULL: the list being filled is terminated. */
  method Cut(args: array<Option<seq<char>>>, pipeArgs: array<Option<seq<char>>>, ghost c: Cmd, toPipe: bool, idx: nat)
    requires args != pipeArgs && Filling(args[..], pipeArgs[..], c) && toPipe == c.hasPipe && idx == Current(c)
    modifies args, pipeArgs
    ensures Filling(args[..], pipeArgs[..], c) && Filling(args[..], pipeArgs[..], c.(hasPipe := true, pipeArgs := []))
    ensures Holds(args[..], c.args) && (c.hasPipe ==> Holds(pipeArgs[..], c.pipeArgs))
  {
    if toPipe {
      pipeArgs[idx] := None;
    } else {
      args[idx] := None;
    }
  }

  /** current_args[arg_idx++] = token. */
  method Put(args: array<Option<seq<char>>>, pipeArgs: array<Option<seq<char>>>, ghost c: Cmd, toPipe: bool, idx: nat,
             token: seq<char>)
    requires args != pipeArgs && Filling(args[..], pipeArgs[..], c) && toPipe == c.hasPipe && idx == Current(c)
    requires idx + 1 < Slots
    modifies args, pipeArgs
    ensures Filling(args[..], pipeArgs[..], Append(c, token))
  {
    if toPipe {
      pipeArgs[idx] := Some(token);
    } else {
      args[idx] := Some(token);
    }
  }

  /** Reads a pointer list up to its NULL: the strings execvp receives. */
  method ReadList(a: array<Option<seq<char>>>, ghost xs: seq<seq<char>>) returns (r: seq<seq<char>>)
    requires Holds(a[..], xs)
    ensures r == xs
  {
    r := [];
    var i := 0;
    while a[i] != None
      invariant i <= |xs| && r == xs[..i]
      decreases |xs| - i
    {
      r := r + [a[i].value];
      i := i + 1;
    }
  }

  // ---------------------------------------------------------------- main

  /**
   * One round of main's loop in try.c on the line fgets returned (None at
   * end of input): a bare newline is skipped before parsing, a line with no
   * argument after parsing, and a first argument "exit" ends the shell
   * whatever follows it.
   */
  function TryDecide(raw: Option<seq<char>>): ShellParse.Action
  {
    if raw.None? then ShellParse.Exit
    else
      var s := ShellParse.CText(raw.value);
      if s == "\n" then ShellParse.Skip
      else
        var c := Parse(Words(s));
        if c.args == [] then ShellParse.Skip
        else if c.args[0] == "exit" then ShellParse.Exit
        else if c.hasPipe then ShellParse.Pipe(c.args, c.pipeArgs)
        else ShellParse.Single(c.args, c.infile, c.outfile, c.background)
  }

  /** The body of main's loop: the checks, parse_command, and what is run. */
  method HandleTry(raw: Option<seq<char>>) returns (act: ShellParse.Action)
    requires raw.Some? ==> FitsFrom(Words(ShellParse.CText(raw.value)), 0, 0)
    ensures act == TryDecide(raw)
  {
    if raw.None? {
      return ShellParse.Exit;
    }
    var s := ShellParse.CText(raw.value);
    if s == "\n" {
      return ShellParse.Skip;
    }
    var toks := Words(s);
    var args := new Option<seq<char>>[Slots](_ => None);
    var pipeArgs := new Option<seq<char>>[Slots](_ => None);
    var infile, outfile, isBackground, hasPipe := ParseCommand(toks, args, pipeArgs);
    ghost var c := Parse(toks);
    if args[0] == None {
      return ShellParse.Skip;
    }
    if args[0].value == "exit" {
      return ShellParse.Exit;
    }
    var argv := ReadList(args, c.args);
    if hasPipe {
      var argv2 := ReadList(pipeArgs, c.pipeArgs);
      return ShellParse.Pipe(argv, argv2);
    }
    return ShellParse.Single(argv, infile, outfile, isBackground);
  }

  // ---------------------------------------------------------------- what the loop builds

  /** The arguments among ts: every token but "&". */
  function Unflagged(ts: seq<seq<char>>): seq<seq<char>>
  {
    if ts == [] then [] else (if ts[0] == "&" then [] else [ts[0]]) + Unflagged(ts[1..])
  }

  /** c after the tokens ts, none of them "<", ">" or "|": arguments appended, "&" sets the flag. */
  function Fill(c: Cmd, ts: seq<seq<char>>): Cmd
  {
    var c' := c.(background := c.background || "&" in ts);
    if c.hasPipe then c'.(pipeArgs := c.pipeArgs + Unflagged(ts)) else c'.(args := c.args + Unflagged(ts))
  }

  lemma FillStep(c: Cmd, ts: seq<seq<char>>)
    requires ts != [] && !ShellParse.IsOperator(ts[0])
    ensures Fill(c, ts) == Fill(if ts[0] == "&" then c.(background := true) else Append(c, ts[0]), ts[1..])
  {
    var t, rest := ts[0], ts[1..];
    assert ts == [t] + rest;
    assert "&" in ts <==> t == "&" || "&" in rest;
    if t == "&" {
      assert Unflagged(ts) == Unflagged(rest);
    } else {
      var u := Unflagged(rest);
      assert Unflagged(ts) == [t] + u;
      assert c.args + ([t] + u) == c.args + [t] + u;
      assert c.pipeArgs + ([t] + u) == c.pipeArgs + [t] + u;
    }
  }

  /** A stretch of tokens without "<", ">" or "|" is taken in one go. */
  lemma {:induction false} ScanWords(toks: seq<seq<char>>, i: nat, j: nat, c: Cmd)
    requires i <= j <= |toks| && forall k :: i <= k < j ==> !ShellParse.IsOperator(toks[k])
    ensures ScanFrom(toks, i, c) == ScanFrom(toks, j, Fill(c, toks[i..j]))
    decreases j - i
  {
    if i < j {
      var t := toks[i];
      assert toks[i..j][0] == t && toks[i..j][1..] == toks[i + 1..j];
      FillStep(c, toks[i..j]);
      ScanWords(toks, i + 1, j, if t == "&" then c.(background := true) else Append(c, t));
    } else {
      assert Fill(c, []) == c;
    }
  }

  /** Without "<", ">" and "|", every token but "&" is an argument. */
  lemma TryPlain(toks: seq<seq<char>>)
    requires forall k :: 0 <= k < |toks| ==> !ShellParse.IsOperator(toks[k])
    ensures Parse(toks) == Cmd(Unflagged(toks), [], None, None, "&" in toks, false)
  {
    ScanWords(toks, 0, |toks|, Reset);
    assert toks[0..|toks|] == toks;
  }

  /** One "|": the tokens on each side, less any "&", become the two lists. */
  lemma TryPipe(toks: seq<seq<char>>, n: nat)
    requires n < |toks| && toks[n] == "|"
    requires forall k :: 0 <= k < |toks| && k != n ==> !ShellParse.IsOperator(toks[k])
    ensures Parse(toks) == Cmd(Unflagged(toks[..n]), Unflagged(toks[n + 1..]), None, None, "&" in toks, true)
  {
    ScanWords(toks, 0, n, Reset);
    var c := Fill(Reset, toks[..n]);
    assert toks[0..n] == toks[..n];
    var c' := c.(hasPipe := true, pipeArgs := []);
    ScanWords(toks, n + 1, |toks|, c');
    assert toks[n + 1..|toks|] == toks[n + 1..];
    assert "&" in toks <==> "&" in toks[..n] || "&" in toks[n + 1..] by {
      assert toks == toks[..n] + [toks[n]] + toks[n + 1..];
    }
  }

  /**
   * One "<" or ">" with a name after it: the name is the file, and the
   * tokens after it stay arguments of the command.
   */
  lemma TryRedirect(toks: seq<seq<char>>, n: nat)
    requires n + 1 < |toks| && (toks[n] == "<" || toks[n] == ">")
    requires forall k :: 0 <= k < |toks| && k != n && k != n + 1 ==> !ShellParse.IsOperator(toks[k])
    ensures var file := Some(toks[n + 1]);
            Parse(toks) == Cmd(Unflagged(toks[..n]) + Unflagged(toks[n + 2..]), [],
                               if toks[n] == "<" then file else None, if toks[n] == ">" then file else None,
                               "&" in toks[..n] || "&" in toks[n + 2..], false)
  {
    ScanWords(toks, 0, n, Reset);
    assert toks[0..n] == toks[..n];
    var c := Fill(Reset, toks[..n]);
    var c' := if toks[n] == "<" then c.(infile := Some(toks[n + 1])) else c.(outfile := Some(toks[n + 1]));
    ScanWords(toks, n + 2, |toks|, c');
    assert toks[n + 2..|toks|] == toks[n + 2..];
  }

  /** The file name kept is that of the last "<" (or ">") read as an operator. */
  lemma {:induction false} LaterRedirectWins(toks: seq<seq<char>>, i: nat, c: Cmd, f: seq<char>)
    requires i + 1 < |toks| && toks[i] == "<"
    requires forall k :: i + 2 <= k < |toks| ==> !ShellParse.IsOperator(toks[k])
    ensures ScanFrom(toks, i, c).infile == Some(toks[i + 1])
  {
    ScanWords(toks, i + 2, |toks|, c.(infile := Some(toks[i + 1])));
  }

  /** Unflagged drops nothing from tokens that hold no "&". */
  lemma {:induction false} UnflaggedNone(ts: seq<seq<char>>)
    requires "&" !in ts
    ensures Unflagged(ts) == ts
  {
    if ts != [] {
      assert ts[0] != "&";
      assert "&" !in ts[1..] by {
        assert forall k :: 0 <= k < |ts[1..]| ==> ts[1..][k] == ts[k + 1];
      }
      UnflaggedNone(ts[1..]);
    }
  }

  /**
   * On a line without quotes, operators or "&", of at most MAX_ARGS-1
   * words, not starting with "exit", both hw1 shells run the words as one
   * command in the foreground.
   */
  lemma ShellsAgree(s: seq<char>)
    requires ShellParse.IsLine(s) && ShellParse.QuoteFree(s)
    requires var ws := Words(s);
             && 0 < |ws| <= ShellParse.MaxArgs - 1 && ws[0] != "exit" && "&" !in ws
             && forall k :: 0 <= k < |ws| ==> !ShellParse.IsOperator(ws[k])
    ensures TryDecide(Some(s)) == ShellParse.Decide(Some(s)) == ShellParse.Single(Words(s), None, None, false)
  {
    var ws := Words(s);
    ShellParse.CTextOfLine(s);
    LineWords();
    assert s != "exit\n" && s != "\n";
    ShellParse.PlainCommand(s);
    TryPlain(ws);
    UnflaggedNone(ws);
  }

  /** The words of the two lines main tests for by name. */
  lemma LineWords()
    ensures Words("exit\n") == ["exit"] && Words("\n") == []
  {
    var e := "exit\n";
    assert SkipSpace(e, 0) == 0;
    assert RunEnd(e, 0) == 4 by {
      RunFrom(e, 0, 4);
    }
    assert e[0..4] == "exit";
    assert SkipSpace(e, 4) == 5;
    assert SkipSpace("\n", 0) == 1;
  }

  /** Both lists hold plain tokens only. */
  predicate Clean(c: Cmd)
  {
    && (forall k :: 0 <= k < |c.args| ==> KindOf(c.args[k]) == Word)
    && (forall k :: 0 <= k < |c.pipeArgs| ==> KindOf(c.pipeArgs[k]) == Word)
  }

  /** Only plain tokens reach the lists: no "<", ">", "|" or "&" is ever stored. */
  lemma {:induction false} ScanClean(toks: seq<seq<char>>, i: nat, c: Cmd)
    requires i <= |toks| && Clean(c)
    ensures Clean(ScanFrom(toks, i, c))
    decreases |toks| - i
  {
    if i < |toks| {
      var t := toks[i];
      match KindOf(t)
      case In =>
        if i + 1 < |toks| {
          ScanClean(toks, i + 2, c.(infile := Some(toks[i + 1])));
        }
      case Out =>
        if i + 1 < |toks| {
          ScanClean(toks, i + 2, c.(outfile := Some(toks[i + 1])));
        }
      case Bar => ScanClean(toks, i + 1, c.(hasPipe := true, pipeArgs := []));
      case Amp => ScanClean(toks, i + 1, c.(background := true));
      case Word =>
        var c' := Append(c, t);
        assert Clean(c') by {
          if c.hasPipe {
            assert c'.pipeArgs == c.pipeArgs + [t];
          } else {
            assert c'.args == c.args + [t];
          }
        }
        ScanClean(toks, i + 1, c');
    }
  }

  /** What parse_command hands to execvp holds no operator. */
  lemma ParseClean(toks: seq<seq<char>>)
    ensures Clean(Parse(toks))
  {
    ScanClean(toks, 0, Reset);
  }
}
