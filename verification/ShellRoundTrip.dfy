/**
 Parsing a rendering of a well-formed command, in any style, gives the command back.
 */
module ShellRoundTrip {
  import opened ShellSyntax
  import opened ShellParser
  import opened Options

  // ---- what may follow, level by level ----------------------------------------------------------

  predicate EndsList(k: seq<Token>)
  {
    k == [] || k[0] in {Then, Elif, Else, Fi, Do, Done, RParen}
  }

  /** Where an item of a list may end, a pipeline, and a command. */
  predicate EndsItem(k: seq<Token>) { EndsList(k) || k[0] in {Semi, Amp, Newline} }

  predicate EndsPipeline(k: seq<Token>) { EndsItem(k) || k[0] in {AndAnd, OrOr} }

  predicate EndsCommand(k: seq<Token>) { EndsPipeline(k) || k[0] == Pipe }

  /** Tokens a command can begin with. */
  predicate Begins(ts: seq<Token>)
  {
    ts != [] && (ts[0].Word? || ts[0] in {Bang, If, While, Until, For, LParen, Less, Greater, GreaterGreater})
  }

  // ---- newlines ---------------------------------------------------------------------------------

  lemma {:induction false} NewlinesSkipped(n: nat, k: seq<Token>)
    ensures SkipNewlines(Newlines(n, k)) == SkipNewlines(k)
  {
    if n > 0 { NewlinesSkipped(n - 1, k); }
  }

  lemma NoNewlines(ts: seq<Token>)
    requires ts == [] || ts[0] != Newline
    ensures SkipNewlines(ts) == ts
  {}

  /** Newlines in front of a list or a command change nothing. */
  lemma ListSkips(n: nat, ts: seq<Token>)
    ensures List(Newlines(n, ts)) == List(ts) && Command(Newlines(n, ts)) == Command(ts)
  {
    NewlinesSkipped(n, ts);
    hide ListTail, AndOr, IfCommand, LoopBody, LoopCond, ForCommand, SimpleTail, SkipNewlines, Newlines;
  }

  lemma NewlinesEnd(n: nat, k: seq<Token>)
    requires EndsItem(k)
    ensures EndsItem(Newlines(n, k))
  {}

  // ---- simple commands --------------------------------------------------------------------------

  lemma {:induction false} EqualsAfterName(name: string, value: string)
    requires forall i :: 0 <= i < |name| ==> NameChar(name[i])
    ensures FirstEquals(name + "=" + value) == |name|
  {
    var w := name + "=" + value;
    if name != "" {
      assert w[0] == name[0] && w[1..] == name[1..] + "=" + value;
      EqualsAfterName(name[1..], value);
    }
  }

  /** A name, '=' and a value read as that assignment, and never as a 2> redirection. */
  lemma AssignmentWordReads(a: Assignment)
    requires IsName(a.name)
    ensures var w := AssignmentWord(a); IsAssignment(w) && AsAssignment(w) == a && !IsStderr(w)
  {
    var w := AssignmentWord(a);
    EqualsAfterName(a.name, a.value);
    assert w[..|a.name|] == a.name && w[|a.name| + 1..] == a.value;
  }

  lemma {:induction false} AssignmentsRead(acc: Cmd, az: seq<Assignment>, k: seq<Token>)
    requires acc.Simple? && acc.argv == [] && forall i :: 0 <= i < |az| ==> IsName(az[i].name)
    ensures SimpleTail(acc, RAssignments(az, k)) == SimpleTail(acc.(assignments := acc.assignments + az), k)
    decreases |az|
  {
    if az == [] {
      assert acc.assignments + az == acc.assignments;
    } else {
      AssignmentWordReads(az[0]);
      AssignmentsRead(acc.(assignments := acc.assignments + [az[0]]), az[1..], k);
      assert acc.assignments + [az[0]] + az[1..] == acc.assignments + az;
    }
  }

  lemma {:induction false} WordsRead(acc: Cmd, ws: seq<string>, k: seq<Token>)
    requires acc.Simple? && (forall i :: 0 <= i < |ws| ==> !IsStderr(ws[i]))
    requires acc.argv == [] && ws != [] ==> !IsAssignment(ws[0])
    ensures SimpleTail(acc, RWords(ws, k)) == SimpleTail(acc.(argv := acc.argv + ws), k)
    decreases |ws|
  {
    if ws == [] {
      assert acc.argv + ws == acc.argv;
    } else {
      WordsRead(acc.(argv := acc.argv + [ws[0]]), ws[1..], k);
      assert acc.argv + [ws[0]] + ws[1..] == acc.argv + ws;
    }
  }

  lemma StdinRead(acc: Cmd, c: Cmd, k: seq<Token>)
    requires acc.Simple? && c.Simple? && acc.stdinFile == None
    ensures SimpleTail(acc, RStdin(c, k)) == SimpleTail(acc.(stdinFile := c.stdinFile), k)
  {
    if c.stdinFile.Some? {
      FileRead(Less, c.stdinFile.value, k);
    }
  }

  /** The two tokens of a redirection, taken apart again. */
  lemma FileRead(t: Token, f: string, k: seq<Token>)
    ensures var ts := Cons(t, Cons(Word(f), k)); |ts| > 1 && FileName(ts) == Some(f) && AfterFile(ts) == k
  {}

  lemma StdoutRead(acc: Cmd, c: Cmd, k: seq<Token>)
    requires acc.Simple? && c.Simple? && acc.stdoutFile == None && !acc.append && (c.append ==> c.stdoutFile.Some?)
    ensures SimpleTail(acc, RStdout(c, k)) == SimpleTail(acc.(stdoutFile := c.stdoutFile, append := c.append), k)
  {
    if c.stdoutFile.Some? {
      FileRead(if c.append then GreaterGreater else Greater, c.stdoutFile.value, k);
    }
  }

  lemma ErrWordRead(acc: Cmd, w: string, k: seq<Token>)
    requires acc.Simple? && IsStderr(w) && w != "2>&1" && StderrName(w) != ""
    ensures SimpleTail(acc, Cons(Word(w), k)) == SimpleTail(acc.(stderrFile := Some(StderrName(w))), k)
  {}

  lemma ErrApartRead(acc: Cmd, w: string, f: string, k: seq<Token>)
    requires acc.Simple? && (w == "2>" || w == "2>>")
    ensures SimpleTail(acc, Cons(Word(w), Cons(Word(f), k))) == SimpleTail(acc.(stderrFile := Some(f)), k)
  {
    FileRead(Word(w), f, k);
    assert IsStderr(w) && StderrName(w) == "";
  }

  /** The four ways of writing a stderr redirection are read alike. */
  lemma StderrRead(st: Style, acc: Cmd, c: Cmd, k: seq<Token>)
    requires acc.Simple? && c.Simple? && acc.stderrFile == None
    ensures SimpleTail(acc, RStderr(st, c, k)) == SimpleTail(acc.(stderrFile := c.stderrFile), k)
  {
    hide SimpleTail, IsStderr, StderrName;
    if c.stderrFile.Some? {
      var f := c.stderrFile.value;
      ErrNames(f);
      if st.err == Joined && f != "" && f[0] != '>' && f != "&1" {
        ErrWordRead(acc, "2>" + f, k);
      } else if st.err == AppendJoined && f != "" {
        ErrWordRead(acc, "2>>" + f, k);
      } else {
        ErrApartRead(acc, if st.err == AppendApart || st.err == AppendJoined then "2>>" else "2>", f, k);
      }
    }
  }

  lemma ErrNames(f: string)
    ensures IsStderr("2>" + f) && IsStderr("2>>" + f) && StderrName("2>>" + f) == f && "2>>" + f != "2>&1"
    ensures f != "" && f[0] != '>' ==> StderrName("2>" + f) == f
    ensures "2>" + f == "2>&1" ==> f == "&1"
  {
    var a, b := "2>" + f, "2>>" + f;
    assert a[..2] == "2>" && b[..2] == "2>" && b[2] == '>' && b[3..] == f && a[2..] == f;
    assert "2>&1"[2..] == "&1" && "2>&1"[2] == '&';
    if f != "" { assert a[2] == f[0]; }
  }

  lemma MergeRead(acc: Cmd, c: Cmd, k: seq<Token>)
    requires acc.Simple? && c.Simple? && !acc.stderrToStdout
    ensures SimpleTail(acc, RMerge(c, k)) == SimpleTail(acc.(stderrToStdout := c.stderrToStdout), k)
  {
    if c.stderrToStdout { assert IsStderr("2>&1"); }
  }

  ghost function Redirected(acc: Cmd, c: Cmd): Cmd
    requires acc.Simple? && c.Simple?
  {
    acc.(stdinFile := c.stdinFile, stdoutFile := c.stdoutFile, append := c.append, stderrFile := c.stderrFile,
         stderrToStdout := c.stderrToStdout)
  }

  lemma RedirectionsRead(st: Style, acc: Cmd, c: Cmd, k: seq<Token>)
    requires acc.Simple? && c.Simple? && Redirected(acc, NO_WORDS) == acc && (c.append ==> c.stdoutFile.Some?)
    ensures SimpleTail(acc, RRedirections(st, c, k)) == SimpleTail(Redirected(acc, c), k)
  {
    var k1 := RMerge(c, k);
    var k2 := RStderr(st, c, k1);
    var k3 := RStdout(c, k2);
    var a3 := acc.(stdinFile := c.stdinFile);
    var a4 := a3.(stdoutFile := c.stdoutFile, append := c.append);
    var a5 := a4.(stderrFile := c.stderrFile);
    hide SimpleTail, RStdin, RStdout, RStderr, RMerge;
    StdinRead(acc, c, k3);
    StdoutRead(a3, c, k2);
    StderrRead(st, a4, c, k1);
    MergeRead(a5, c, k);
  }

  lemma SimpleReads(st: Style, c: Cmd, k: seq<Token>)
    requires c.Simple? && WfSimple(c) && EndsCommand(k)
    ensures SimpleTail(NO_WORDS, RSimple(st, c, k)) == Parsed(c, k)
  {
    var a1 := NO_WORDS.(assignments := c.assignments);
    var a2 := a1.(argv := c.argv);
    assert [] + c.assignments == c.assignments && [] + c.argv == c.argv;
    hide SimpleTail, RWords, RAssignments, RRedirections;
    if st.early {
      AssignmentsRead(NO_WORDS, c.assignments, RRedirections(st, c, RWords(c.argv, k)));
      RedirectionsRead(st, a1, c, RWords(c.argv, k));
      WordsRead(Redirected(a1, c), c.argv, k);
    } else {
      AssignmentsRead(NO_WORDS, c.assignments, RWords(c.argv, RRedirections(st, c, k)));
      WordsRead(a1, c.argv, RRedirections(st, c, k));
      RedirectionsRead(st, a2, c, k);
    }
    SimpleStops(c, k);
  }

  /** Of two redirections of the same stream the last counts, and one without a file name takes the token
      after it away and changes nothing. */
  lemma RedirectedTwice(acc: Cmd, r: Token, f: string, g: string, t: Token, k: seq<Token>)
    requires acc.Simple? && (r == Less || r == Greater || r == GreaterGreater) && !t.Word?
    ensures SimpleTail(acc, Cons(r, Cons(Word(f), Cons(r, Cons(Word(g), k))))) ==
            SimpleTail(acc, Cons(r, Cons(Word(g), k)))
    ensures SimpleTail(acc, Cons(r, Cons(t, k))) == SimpleTail(acc, k) && SimpleTail(acc, [r]) == SimpleTail(acc, [])
  {
    FileRead(r, f, Cons(r, Cons(Word(g), k)));
    FileRead(r, g, k);
    var ts := Cons(r, Cons(t, k));
    assert ts[1] == t && ts[2..] == k;
    assert AfterFile([r]) == [];
  }

  lemma SimpleStops(c: Cmd, k: seq<Token>)
    requires c.Simple? && WfSimple(c) && EndsCommand(k)
    ensures SimpleTail(c, k) == Parsed(c, k)
  {}

  // ---- first tokens ----------------------------------------------------------------------------

  lemma CommandBegins(st: Style, c: Cmd, k: seq<Token>)
    requires WfCommand(c)
    ensures Begins(RCommand(st, c, k)) && !Next(RCommand(st, c, k), Bang)
  {
    hide RList, RClose, WfList, WfBranches, RBranches, RSimple;
    if c.Simple? { SimpleBegins(st, c, k); }
  }

  lemma PipelineBegins(st: Style, c: Cmd, k: seq<Token>)
    requires WfPipeline(c)
    ensures Begins(RPipeline(st, c, k))
  {
    var p := if c.Not? then c.inner else c;
    hide RCommand, WfCommand;
    if p.Pipeline? { CommandBegins(st, p.stages[0], RStages(st, p.stages[1..], k)); } else { CommandBegins(st, p, k); }
  }

  lemma {:induction false} AndOrBegins(st: Style, c: Cmd, k: seq<Token>)
    requires WfAndOr(c)
    ensures Begins(RAndOr(st, c, k)) && !c.Empty?
    decreases c
  {
    hide RPipeline;
    if c.And? || c.Or? {
      AndOrBegins(st, c.left, Cons(if c.And? then AndAnd else OrOr, Newlines(st.gap, RPipeline(st, c.right, k))));
    } else {
      PipelineBegins(st, c, k);
    }
  }

  lemma SimpleBegins(st: Style, c: Cmd, k: seq<Token>)
    requires c.Simple? && WfSimple(c)
    ensures RSimple(st, c, k) != []
    ensures var t := RSimple(st, c, k)[0]; t.Word? || t in {Less, Greater, GreaterGreater}
  {
    if c.assignments == [] { assert c.argv != []; }
  }

  lemma {:induction false} ItemBegins(st: Style, c: Cmd, last: bool, k: seq<Token>)
    requires WfItem(c)
    ensures Begins(RItem(st, c, last, k))
  {
    hide List, ListTail, AndOr, Pipes, PipesTail, Command, LoopBody, IfCommand, IfTail, ForCommand, SimpleTail,
      RList, RAndOr, RPipes, RCommand, RSimple, WfList, WfAndOr, WfPipes, WfCommand;
    AndOrBegins(st, Inner(c), RSeparator(st, c, last, k));
  }

  /** Nothing to skip in front of a rendered list. */
  lemma {:induction false} ListBegins(st: Style, c: Cmd, k: seq<Token>)
    requires WfList(c) && EndsList(k)
    ensures SkipNewlines(RList(st, c, k)) == RList(st, c, k)
  {
    hide List, ListTail, AndOr, Pipes, PipesTail, Command, LoopBody, IfCommand, IfTail, ForCommand, SimpleTail,
      RAndOr, RPipes, RCommand, RSimple, WfAndOr, WfPipes, WfCommand;
    if c.Sequence? {
      ItemBegins(st, c.items[0], false, RItems(st, c.items[1..], k));
    } else if !c.Empty? {
      ItemBegins(st, c, true, k);
    }
  }

  // ---- where a construct ends --------------------------------------------------------------------

  lemma ElseEnds(st: Style, other: Option<Cmd>, k: seq<Token>)
    requires (other.Some? ==> WfList(other.value)) && EndsList(k)
    ensures EndsList(RElse(st, other, k))
  {
    hide List, ListTail, AndOr, Pipes, PipesTail, Command, LoopBody, IfCommand, IfTail, ForCommand, SimpleTail,
      RList, RAndOr, RPipes, RCommand, RSimple, WfList, WfAndOr, WfPipes, WfCommand;
  }

  lemma {:induction false} BranchesEnd(st: Style, bs: seq<Branch>, k: seq<Token>)
    requires WfBranches(bs) && EndsList(k)
    ensures EndsList(RBranches(st, bs, k))
  {
    hide List, ListTail, AndOr, Pipes, PipesTail, Command, LoopBody, IfCommand, IfTail, ForCommand, SimpleTail,
      RList, RAndOr, RPipes, RCommand, RSimple, WfList, WfAndOr, WfPipes, WfCommand;
  }

  lemma {:induction false} StagesEnd(st: Style, cs: seq<Cmd>, k: seq<Token>)
    requires WfStages(cs) && EndsPipeline(k)
    ensures EndsCommand(RStages(st, cs, k))
  {
    hide List, ListTail, AndOr, Pipes, PipesTail, Command, LoopBody, IfCommand, IfTail, ForCommand, SimpleTail,
      RList, RAndOr, RPipes, RCommand, RSimple, WfList, WfAndOr, WfPipes, WfCommand;
  }

  /** Where a list ends, an and-or list is empty and takes nothing. */
  lemma NothingReads(k: seq<Token>)
    requires EndsList(k)
    ensures AndOr(SkipNewlines(k)) == Parsed(Empty, k)
  {
    hide List, ListTail, Pipes, PipesTail, Command, LoopBody, IfCommand, IfTail, ForCommand, SimpleTail, RList,
      RAndOr, RPipes, RCommand, RSimple, WfList, WfAndOr, WfPipes, WfCommand;
    PipesNothing(k);
  }

  lemma PipesNothing(k: seq<Token>)
    requires EndsList(k)
    ensures Pipes(k) == Parsed(Empty, k)
  {
    hide List, ListTail, AndOr, Command, LoopBody, IfCommand, IfTail, ForCommand, SimpleTail, RList, RAndOr, RPipes,
      RCommand, RSimple, WfList, WfAndOr, WfPipes, WfCommand;
    CommandNothing(k);
  }

  lemma CommandNothing(k: seq<Token>)
    requires EndsList(k)
    ensures Command(k) == Parsed(Empty, k)
  {
    hide List, ListTail, AndOr, Pipes, PipesTail, LoopBody, IfCommand, IfTail, ForCommand, SimpleTail, RList,
      RAndOr, RPipes, RCommand, RSimple, WfList, WfAndOr, WfPipes, WfCommand;
    SimpleNothing(k);
  }

  lemma SimpleNothing(k: seq<Token>)
    requires EndsList(k)
    ensures SimpleTail(NO_WORDS, k) == Parsed(Empty, k)
  {
    hide List, ListTail, AndOr, Pipes, PipesTail, Command, LoopBody, IfCommand, IfTail, ForCommand, RList, RAndOr,
      RPipes, RCommand, RSimple, WfList, WfAndOr, WfPipes, WfCommand;
  }

  // ---- the round trip, level by level ------------------------------------------------------------

  lemma {:induction false} CommandReads(st: Style, c: Cmd, k: seq<Token>)
    requires WfCommand(c) && EndsCommand(k)
    ensures Command(RCommand(st, c, k)) == Parsed(c, k)
    decreases c, 1
  {
    hide List, ListTail, AndOr, Pipes, PipesTail, Command, LoopBody, IfCommand, IfTail, ForCommand, SimpleTail,
      RList, RAndOr, RPipes, RCommand, RSimple, WfList, WfAndOr, WfPipes, ROpen, RClose;
    if c.Simple? {
      SimpleCommandReads(st, c, k);
    } else {
      var body, close := BodyOf(c), RClose(st, c, k);
      CloseEnds(st, c, k);
      ListBegins(st, body, close);
      ListReads(st, body, close);
      BodyReads(st, c, RList(st, body, close), Parsed(body, close), k);
      assert RCommand(st, c, k) == ROpen(st, c, RList(st, body, close)) by { CommandIs(st, c, k); }
    }
  }

  lemma CommandIs(st: Style, c: Cmd, k: seq<Token>)
    requires HasBody(c) && WfCommand(c)
    ensures WfList(BodyOf(c)) && RCommand(st, c, k) == ROpen(st, c, RList(st, BodyOf(c), RClose(st, c, k)))
  {
    hide RList, ROpen, RClose, WfList;
  }

  lemma SimpleCommandReads(st: Style, c: Cmd, k: seq<Token>)
    requires c.Simple? && WfSimple(c) && EndsCommand(k)
    ensures Command(RCommand(st, c, k)) == Parsed(c, k)
  {
    hide List, ListTail, AndOr, Pipes, PipesTail, LoopBody, IfCommand, IfTail, ForCommand, SimpleTail, RList,
      RAndOr, RPipes, RSimple, WfList, WfAndOr, WfPipes;
    SimpleBegins(st, c, k);
    SimpleReads(st, c, k);
  }

  /** A list inside a construct, up to the keyword after it. */
  lemma {:induction false} SectionReads(st: Style, c: Cmd, k: seq<Token>)
    requires WfList(c) && EndsList(k)
    ensures List(SkipNewlines(Newlines(st.gap, RList(st, c, k)))) == Parsed(c, k)
    decreases c, 9
  {
    hide List, ListTail, AndOr, Pipes, PipesTail, Command, LoopBody, IfCommand, IfTail, ForCommand, SimpleTail,
      RList, RAndOr, RPipes, RCommand, RSimple, WfList, WfAndOr, WfPipes, WfCommand;
    NewlinesSkipped(st.gap, RList(st, c, k));
    ListBegins(st, c, k);
    ListReads(st, c, k);
  }

  // ---- constructs with a body --------------------------------------------------------------------

  function WithBody(c: Cmd, body: Cmd): Cmd
    requires HasBody(c)
  {
    match c
    case IfThen(cond, _, elifs, other) => IfThen(cond, body, elifs, other)
    case WhileDo(cond, _) => WhileDo(cond, body)
    case UntilDo(cond, _) => UntilDo(cond, body)
    case ForIn(name, words, _) => ForIn(name, words, body)
    case Subshell(_) => Subshell(body)
  }

  lemma CloseEnds(st: Style, c: Cmd, k: seq<Token>)
    requires HasBody(c) && WfCommand(c)
    ensures EndsList(RClose(st, c, k))
  {
    hide List, ListTail, AndOr, Pipes, PipesTail, Command, LoopBody, IfCommand, IfTail, ForCommand, SimpleTail,
      RList, RAndOr, RPipes, RCommand, RSimple, WfList, WfAndOr, WfPipes, RBranches, RElse, WfBranches;
    if c.IfThen? {
      ElseEnds(st, c.elseBody, Cons(Fi, k));
      BranchesEnd(st, c.elifs, RElse(st, c.elseBody, Cons(Fi, k)));
    }
  }

  /** The construct as it is when it stops after the body's first line. */
  function CutShort(c: Cmd, body: Cmd): Cmd
    requires HasBody(c)
  {
    if c.IfThen? then IfThen(c.cond, body, [], None) else WithBody(c, body)
  }

  /** The closing keyword after the body, if it comes next. */
  lemma Closing(ts: seq<Token>, t: Token, k: seq<Token>)
    requires t in {Done, Fi, RParen} && (ts == Cons(t, k) || Begins(ts))
    ensures SkipNewlines(ts) == ts && Expect(ts, t) == if Begins(ts) then ts else k
  {}

  /** The body is parsed as a list, and its closing keyword is looked for where the list ended. */
  lemma {:induction false} BodyReads(st: Style, c: Cmd, ts: seq<Token>, body: Parsed, k: seq<Token>)
    requires HasBody(c) && WfCommand(c) && SkipNewlines(ts) == ts && List(ts) == body
    requires body.rest == RClose(st, c, k) || Begins(body.rest)
    ensures Command(ROpen(st, c, ts)) ==
            if body.rest == RClose(st, c, k) then Parsed(WithBody(c, body.cmd), k)
            else Parsed(CutShort(c, body.cmd), body.rest)
    decreases c, 0, 2
  {
    hide List, ListTail, AndOr, Pipes, PipesTail, Command, LoopBody, IfCommand, IfTail, ForCommand, SimpleTail,
      RList, RAndOr, RPipes, RCommand, RSimple, WfList, WfAndOr, WfPipes, WfCommand, ROpen, SkipNewlines, RWords,
      RBranches, RElse;
    match c
    case IfThen(_, _, _, _) => IfBodyReads(st, c, ts, body, k);
    case WhileDo(_, _) => LoopBodyReads(st, c, ts, body, k);
    case UntilDo(_, _) => LoopBodyReads(st, c, ts, body, k);
    case ForIn(_, _, _) => ForBodyReads(st, c, ts, body, k);
    case Subshell(_) => SubshellBodyReads(st, c, ts, body, k);
  }

  /** The condition and the body of a loop, once the condition reads up to its keyword. */
  lemma LoopParts(t: Token, cond: Cmd, body: Parsed, ts1: seq<Token>, ts2: seq<Token>)
    requires List(SkipNewlines(ts1)) == Parsed(cond, Cons(Do, ts2)) && List(SkipNewlines(ts2)) == body
    ensures LoopCond(Cons(t, ts1)).cmd == cond
    ensures LoopBody(Cons(t, ts1)) == Parsed(body.cmd, Expect(SkipNewlines(body.rest), Done))
  {
    hide List, ListTail, AndOr, Pipes, PipesTail, Command, IfCommand, IfTail, ForCommand, SimpleTail, RList, RAndOr,
      RPipes, RCommand, RSimple, WfList, WfAndOr, WfPipes, WfCommand;
  }

  lemma OpenBegins(st: Style, c: Cmd, ts: seq<Token>)
    requires HasBody(c) && WfCommand(c)
    ensures SkipNewlines(ROpen(st, c, ts)) == ROpen(st, c, ts)
  {
    hide RList, WfCommand, RWords;
  }

  lemma SubshellBodyReads(st: Style, c: Cmd, ts: seq<Token>, body: Parsed, k: seq<Token>)
    requires c.Subshell? && WfCommand(c) && List(ts) == body && (body.rest == RClose(st, c, k) || Begins(body.rest))
    ensures Command(ROpen(st, c, ts)) == Parsed(Subshell(body.cmd), if Begins(body.rest) then body.rest else k)
  {
    hide List, Command, LoopBody, LoopCond, IfCommand, ForCommand, SimpleTail, WfList, WfCommand, Expect, SkipNewlines,
      Newlines, Begins;
    ListSkips(st.gap, ts);
    Closing(body.rest, RParen, k);
    OpenBegins(st, c, ts);
    CommandBranches(ROpen(st, c, ts));
  }

  lemma {:induction false} LoopBodyReads(st: Style, c: Cmd, ts: seq<Token>, body: Parsed, k: seq<Token>)
    requires (c.WhileDo? || c.UntilDo?) && WfCommand(c) && SkipNewlines(ts) == ts && List(ts) == body
    requires body.rest == RClose(st, c, k) || Begins(body.rest)
    ensures Command(ROpen(st, c, ts)) == Parsed(WithBody(c, body.cmd), if Begins(body.rest) then body.rest else k)
    decreases c, 0, 0
  {
    hide List, ListTail, AndOr, Pipes, PipesTail, Command, LoopCond, LoopBody, IfCommand, IfTail, ForCommand,
      SimpleTail, RList, RAndOr, RPipes, RCommand, RSimple, WfList, WfAndOr, WfPipes, Expect, Begins,
      SkipNewlines, Newlines;
    var ts2 := Newlines(st.gap, ts);
    var ts1 := Newlines(st.gap, RList(st, c.cond, Cons(Do, ts2)));
    NewlinesSkipped(st.gap, ts);
    SectionReads(st, c.cond, Cons(Do, ts2));
    LoopParts(if c.WhileDo? then While else Until, c.cond, body, ts1, ts2);
    Closing(body.rest, Done, k);
    OpenBegins(st, c, ts);
    CommandBranches(ROpen(st, c, ts));
  }

  lemma ForBodyReads(st: Style, c: Cmd, ts: seq<Token>, body: Parsed, k: seq<Token>)
    requires c.ForIn? && WfCommand(c) && SkipNewlines(ts) == ts && List(ts) == body
    requires body.rest == RClose(st, c, k) || Begins(body.rest)
    ensures Command(ROpen(st, c, ts)) == Parsed(WithBody(c, body.cmd), if Begins(body.rest) then body.rest else k)
  {
    hide List, ListTail, AndOr, Pipes, PipesTail, Command, LoopCond, LoopBody, IfCommand, IfTail, ForCommand,
      SimpleTail, RList, RAndOr, RPipes, RCommand, RSimple, WfList, WfAndOr, WfPipes, WfCommand, RWords, Begins,
      SkipNewlines, Expect;
    Closing(body.rest, Done, k);
    ForParts(st, c.name, c.words, body, ts);
    OpenBegins(st, c, ts);
    CommandBranches(ROpen(st, c, ts));
  }

  lemma {:induction false} WordsTaken(ws: seq<string>, k: seq<Token>)
    requires k == [] || !k[0].Word?
    ensures WordsOf(RWords(ws, k)) == ws && AfterWords(RWords(ws, k)) == k
  {
    if ws != [] { WordsTaken(ws[1..], k); }
  }

  lemma ForIs(name: string, rest: seq<Token>, t: seq<Token>)
    requires t == SkipNewlines(rest)
    ensures var words := if Next(t, In) then WordsOf(t[1..]) else [];
            var after := if Next(t, In) then AfterWords(t[1..]) else t;
            var body := List(Past(Expect(SkipNewlines(after), Semi), Do));
            ForCommand(Cons(For, Cons(Word(name), rest))) ==
            Parsed(ForIn(name, words, body.cmd), Expect(SkipNewlines(body.rest), Done))
  {
    hide List, SkipNewlines, WordsOf, AfterWords, Past, Expect;
    var all := Cons(For, Cons(Word(name), rest));
    assert all[1] == Word(name) && all[2..] == rest;
  }

  /** From what ends the words of a for loop to its body. */
  lemma DoReached(st: Style, ts: seq<Token>, semi: bool)
    requires SkipNewlines(ts) == ts
    ensures var k := Newlines(st.gap, Cons(Do, Newlines(st.gap, ts)));
            Past(Expect(SkipNewlines(if semi then Cons(Semi, k) else k), Semi), Do) == ts
  {
    var k := Cons(Do, Newlines(st.gap, ts));
    NewlinesSkipped(st.gap, ts);
    NewlinesSkipped(st.gap, k);
    hide Newlines;
  }

  lemma ForParts(st: Style, name: string, words: seq<string>, body: Parsed, ts: seq<Token>)
    requires SkipNewlines(ts) == ts && List(ts) == body
    ensures var rest := RIn(st, words, Cons(Do, Newlines(st.gap, ts)));
            ForCommand(Cons(For, Cons(Word(name), Newlines(st.gap, rest)))) ==
            Parsed(ForIn(name, words, body.cmd), Expect(SkipNewlines(body.rest), Done))
  {
    hide List, ForCommand, RWords, WordsOf, AfterWords, Newlines, Past, Expect;
    var k := Cons(Do, Newlines(st.gap, ts));
    var k' := Newlines(st.gap, k);
    NewlinesSkipped(st.gap, RIn(st, words, k));
    NewlinesSkipped(st.gap, k);
    ForIs(name, Newlines(st.gap, RIn(st, words, k)), RIn(st, words, k));
    DoReached(st, ts, !st.bare);
    BeforeDo(st, k);
    WordsTaken(words, if st.bare then k' else Cons(Semi, k'));
  }

  lemma BeforeDo(st: Style, k: seq<Token>)
    requires Next(k, Do)
    ensures var k' := Newlines(st.gap, k); k' != [] && !k'[0].Word?
  {}

  lemma {:induction false} BranchesRead(st: Style, cond: Cmd, body: Cmd, done: seq<Branch>, bs: seq<Branch>,
                                        k: seq<Token>)
    requires WfBranches(bs) && EndsList(k)
    ensures IfTail(cond, body, done, RBranches(st, bs, k)) == IfTail(cond, body, done + bs, k)
    decreases bs, 0
  {
    hide List, ListTail, AndOr, Pipes, PipesTail, Command, LoopBody, IfCommand, IfTail, ForCommand, SimpleTail,
      RList, RAndOr, RPipes, RCommand, RSimple, WfList, WfAndOr, WfPipes, WfCommand;
    if bs == [] {
      assert done + bs == done;
    } else {
      var k1 := RBranches(st, bs[1..], k);
      BranchesEnd(st, bs[1..], k);
      BranchReads(st, cond, body, done, bs[0], k1);
      BranchesRead(st, cond, body, done + [bs[0]], bs[1..], k);
      assert done + [bs[0]] + bs[1..] == done + bs;
    }
  }

  lemma ElifStep(cond: Cmd, body: Cmd, done: seq<Branch>, ts1: seq<Token>, c: Cmd, ts2: seq<Token>, b: Parsed)
    requires List(SkipNewlines(ts1)) == Parsed(c, Cons(Then, ts2)) && List(SkipNewlines(ts2)) == b
    ensures IfTail(cond, body, done, Cons(Elif, ts1)) == IfTail(cond, body, done + [Branch(c, b.cmd)], b.rest)
  {
    hide List;
  }

  lemma IfStep(ts1: seq<Token>, c: Cmd, ts2: seq<Token>, b: Parsed)
    requires List(SkipNewlines(ts1)) == Parsed(c, Cons(Then, ts2)) && List(SkipNewlines(ts2)) == b
    ensures IfCommand(Cons(If, ts1)) == IfTail(c, b.cmd, [], b.rest)
  {
    hide List, IfTail;
  }

  lemma {:induction false} BranchReads(st: Style, cond: Cmd, body: Cmd, done: seq<Branch>, b: Branch, k: seq<Token>)
    requires WfBranch(b) && EndsList(k)
    ensures IfTail(cond, body, done, RBranch(st, b, k)) == IfTail(cond, body, done + [b], k)
    decreases b, 0
  {
    hide List, IfTail, RList, WfList, SkipNewlines, Newlines;
    var ts2 := Newlines(st.gap, RList(st, b.body, k));
    var ts1 := Newlines(st.gap, RList(st, b.cond, Cons(Then, ts2)));
    SectionReads(st, b.cond, Cons(Then, ts2));
    SectionReads(st, b.body, k);
    ElifStep(cond, body, done, ts1, b.cond, ts2, Parsed(b.body, k));
  }

  lemma {:induction false} ElseReads(st: Style, cond: Cmd, body: Cmd, elifs: seq<Branch>, other: Option<Cmd>,
                                     k: seq<Token>)
    requires other.Some? ==> WfList(other.value)
    ensures IfTail(cond, body, elifs, RElse(st, other, Cons(Fi, k))) == Parsed(IfThen(cond, body, elifs, other), k)
    decreases other, 0
  {
    hide List, ListTail, AndOr, Pipes, PipesTail, Command, LoopBody, IfCommand, ForCommand, SimpleTail, RList,
      RAndOr, RPipes, RCommand, RSimple, WfList, WfAndOr, WfPipes, WfCommand;
    if other.Some? { SectionReads(st, other.value, Cons(Fi, k)); }
  }

  lemma {:induction false} IfOpens(st: Style, c: Cmd, ts: seq<Token>, body: Parsed)
    requires c.IfThen? && WfCommand(c) && SkipNewlines(ts) == ts && List(ts) == body
    ensures Command(ROpen(st, c, ts)) == IfTail(c.cond, body.cmd, [], body.rest)
    decreases c, 0, 0
  {
    hide List, Command, IfCommand, LoopBody, LoopCond, IfTail, ForCommand, SimpleTail, RList, WfList, WfBranches,
      SkipNewlines, Newlines;
    var ts2 := Newlines(st.gap, ts);
    NewlinesSkipped(st.gap, ts);
    SectionReads(st, c.cond, Cons(Then, ts2));
    IfStep(Newlines(st.gap, RList(st, c.cond, Cons(Then, ts2))), c.cond, ts2, body);
    OpenBegins(st, c, ts);
    CommandBranches(ROpen(st, c, ts));
  }

  lemma {:induction false} IfCloses(st: Style, c: Cmd, body: Cmd, k: seq<Token>)
    requires c.IfThen? && WfCommand(c)
    ensures IfTail(c.cond, body, [], RClose(st, c, k)) == Parsed(WithBody(c, body), k)
    decreases c, 0, 0
  {
    hide IfTail, WfList, WfBranches, RBranches, RElse, EndsList;
    var k1 := RElse(st, c.elseBody, Cons(Fi, k));
    assert EndsList(Cons(Fi, k)) by { FiEnds(k); }
    ElseEnds(st, c.elseBody, Cons(Fi, k));
    BranchesRead(st, c.cond, body, [], c.elifs, k1);
    ElseReads(st, c.cond, body, c.elifs, c.elseBody, k);
    assert [] + c.elifs == c.elifs;
  }

  lemma FiEnds(k: seq<Token>)
    ensures EndsList(Cons(Fi, k))
  {}

  lemma {:induction false} IfBodyReads(st: Style, c: Cmd, ts: seq<Token>, body: Parsed, k: seq<Token>)
    requires c.IfThen? && WfCommand(c) && SkipNewlines(ts) == ts && List(ts) == body
    requires body.rest == RClose(st, c, k) || Begins(body.rest)
    ensures Command(ROpen(st, c, ts)) ==
            if body.rest == RClose(st, c, k) then Parsed(WithBody(c, body.cmd), k)
            else Parsed(CutShort(c, body.cmd), body.rest)
    decreases c, 0, 1
  {
    hide List, Command, IfTail, ROpen, RClose, WfCommand, SkipNewlines, Begins;
    IfOpens(st, c, ts, body);
    if body.rest == RClose(st, c, k) { IfCloses(st, c, body.cmd, k); } else { IfCut(c.cond, body.cmd, body.rest); }
  }

  lemma IfCut(cond: Cmd, body: Cmd, ts: seq<Token>)
    requires Begins(ts)
    ensures IfTail(cond, body, [], ts) == Parsed(IfThen(cond, body, [], None), ts)
  {
    hide List, ListTail, AndOr, Pipes, PipesTail, Command, LoopBody, IfCommand, ForCommand, SimpleTail;
  }

  // ---- pipelines, and-or lists, lists ------------------------------------------------------------

  lemma {:induction false} StagesRead(st: Style, done: seq<Cmd>, cs: seq<Cmd>, k: seq<Token>)
    requires WfStages(cs) && EndsPipeline(k) && done != []
    ensures PipesTail(done, RStages(st, cs, k)) == PipesTail(done + cs, k)
    decreases cs, 2
  {
    hide List, ListTail, AndOr, Pipes, PipesTail, Command, LoopBody, IfCommand, IfTail, ForCommand, SimpleTail,
      RList, RAndOr, RPipes, RCommand, RSimple, WfList, WfAndOr, WfPipes, WfCommand;
    if cs == [] {
      assert done + cs == done;
    } else {
      var k1 := RStages(st, cs[1..], k);
      StagesEnd(st, cs[1..], k);
      CommandBegins(st, cs[0], k1);
      CommandReads(st, cs[0], k1);
      NewlinesSkipped(st.gap, RCommand(st, cs[0], k1));
      NextStage(done, cs[0], Newlines(st.gap, RCommand(st, cs[0], k1)), k1);
      StagesRead(st, done + [cs[0]], cs[1..], k);
      assert done + [cs[0]] + cs[1..] == done + cs;
    }
  }

  lemma NextStage(done: seq<Cmd>, c: Cmd, ts: seq<Token>, k: seq<Token>)
    requires done != [] && Command(SkipNewlines(ts)) == Parsed(c, k)
    ensures PipesTail(done, Cons(Pipe, ts)) == PipesTail(done + [c], k)
  {
    hide List, ListTail, AndOr, Pipes, Command, LoopBody, IfCommand, IfTail, ForCommand, SimpleTail, RList, RAndOr,
      RPipes, RCommand, RSimple, WfList, WfAndOr, WfPipes, WfCommand;
  }

  lemma {:induction false} PipesRead(st: Style, c: Cmd, k: seq<Token>)
    requires WfPipes(c) && EndsPipeline(k)
    ensures var first := Command(RPipes(st, c, k)); PipesTail([first.cmd], first.rest) == Parsed(c, k)
    ensures !Next(RPipes(st, c, k), Bang)
    decreases c, 2
  {
    hide List, ListTail, AndOr, Pipes, Command, LoopBody, IfCommand, IfTail, ForCommand, SimpleTail, RList, RAndOr,
      RCommand, RSimple, WfList, WfAndOr, WfCommand;
    if c.Pipeline? {
      var k1 := RStages(st, c.stages[1..], k);
      StagesEnd(st, c.stages[1..], k);
      CommandBegins(st, c.stages[0], k1);
      CommandReads(st, c.stages[0], k1);
      StagesRead(st, [c.stages[0]], c.stages[1..], k);
      assert [c.stages[0]] + c.stages[1..] == c.stages;
    } else {
      CommandBegins(st, c, k);
      CommandReads(st, c, k);
    }
  }

  lemma {:induction false} PipelineReads(st: Style, c: Cmd, k: seq<Token>)
    requires WfPipeline(c) && EndsPipeline(k)
    ensures Pipes(RPipeline(st, c, k)) == Parsed(c, k)
    decreases c, 3
  {
    hide List, ListTail, AndOr, PipesTail, Command, LoopBody, IfCommand, IfTail, ForCommand, SimpleTail, RList,
      RAndOr, RPipes, RCommand, RSimple, WfList, WfAndOr, WfPipes, WfCommand;
    var p := if c.Not? then c.inner else c;
    PipesRead(st, p, k);
    ListSkips(st.gap, RPipes(st, p, k));
  }

  /** And-or lists associate to the left: what is rendered becomes the left operand. */
  lemma {:induction false} AndOrReads(st: Style, c: Cmd, k: seq<Token>)
    requires WfAndOr(c) && EndsPipeline(k)
    ensures AndOr(RAndOr(st, c, k)) == AndOrTail(c, k)
    decreases c, 4
  {
    hide List, ListTail, Pipes, PipesTail, Command, LoopBody, IfCommand, IfTail, ForCommand, SimpleTail, RList,
      RPipes, RCommand, RSimple, WfList, WfPipes, WfCommand;
    if c.And? || c.Or? {
      PipelineBegins(st, c.right, k);
      PipelineReads(st, c.right, k);
      NewlinesSkipped(st.gap, RPipeline(st, c.right, k));
      AndOrReads(st, c.left, Cons(if c.And? then AndAnd else OrOr, Newlines(st.gap, RPipeline(st, c.right, k))));
    } else {
      PipelineReads(st, c, k);
    }
  }

  lemma {:induction false} ItemReads(st: Style, c: Cmd, last: bool, k: seq<Token>)
    requires WfItem(c) && (last ==> EndsList(k))
    ensures AndOr(SkipNewlines(RItem(st, c, last, k))) == Parsed(Inner(c), RSeparator(st, c, last, k))
    ensures !Inner(c).Empty?
    decreases c, 5
  {
    hide List, ListTail, AndOr, Pipes, PipesTail, Command, LoopBody, IfCommand, IfTail, ForCommand, SimpleTail,
      RList, RAndOr, RPipes, RCommand, RSimple, WfList, WfAndOr, WfPipes, WfCommand;
    var k1 := RSeparator(st, c, last, k);
    if last { NewlinesEnd(st.gap, k); }
    AndOrBegins(st, Inner(c), k1);
    AndOrReads(st, Inner(c), k1);
  }

  /** The last item, with a separator or without, and nothing after it. */
  lemma LastItemReads(st: Style, done: seq<Cmd>, item: Cmd, k: seq<Token>)
    requires EndsList(k)
    ensures ListTail(done + [Inner(item)], RSeparator(st, item, true, k)) == Parsed(Collected(done + [item]), k)
  {
    hide List, AndOr, Pipes, PipesTail, Command, LoopBody, IfCommand, IfTail, ForCommand, SimpleTail, RList, RAndOr,
      RPipes, RCommand, RSimple, WfList, WfAndOr, WfPipes, WfCommand, Newlines;
    NothingReads(k);
    NewlinesSkipped(st.gap, k);
    assert Backgrounded(done + [Inner(item)]) == done + [Background(Inner(item))];
  }

  lemma NextItem(st: Style, done: seq<Cmd>, item: Cmd, ts: seq<Token>, next: Cmd, k: seq<Token>)
    requires AndOr(SkipNewlines(ts)) == Parsed(next, k) && !next.Empty?
    ensures ListTail(done + [Inner(item)], RSeparator(st, item, false, ts)) == ListTail(done + [item] + [next], k)
  {
    hide List, AndOr, Pipes, PipesTail, Command, LoopBody, IfCommand, IfTail, ForCommand, SimpleTail, RList, RAndOr,
      RPipes, RCommand, RSimple, WfList, WfAndOr, WfPipes, WfCommand, Newlines;
    NewlinesSkipped(st.gap, ts);
    assert Backgrounded(done + [Inner(item)]) == done + [Background(Inner(item))];
  }

  lemma {:induction false} ItemsRead(st: Style, done: seq<Cmd>, item: Cmd, items: seq<Cmd>, k: seq<Token>)
    requires WfItems(items) && EndsList(k)
    ensures ListTail(done + [Inner(item)], RSeparator(st, item, items == [], RItems(st, items, k))) ==
            Parsed(Collected(done + [item] + items), k)
    decreases items, 7
  {
    hide List, ListTail, AndOr, Pipes, PipesTail, Command, LoopBody, IfCommand, IfTail, ForCommand, SimpleTail,
      RList, RAndOr, RPipes, RCommand, RSimple, WfList, WfAndOr, WfPipes, WfCommand;
    hide RSeparator;
    if items == [] {
      LastItemReads(st, done, item, k);
      assert done + [item] + items == done + [item];
    } else {
      var next, last, k1 := items[0], |items| == 1, RItems(st, items[1..], k);
      ItemReads(st, next, last, k1);
      NextItem(st, done, item, RItem(st, next, last, k1), Inner(next), RSeparator(st, next, last, k1));
      ItemsRead(st, done + [item], next, items[1..], k);
      assert done + [item] + [next] + items[1..] == done + [item] + items;
    }
  }

  lemma {:induction false} ListReads(st: Style, c: Cmd, k: seq<Token>)
    requires WfList(c) && EndsList(k)
    ensures List(RList(st, c, k)) == Parsed(c, k)
    decreases c, 8
  {
    hide ListTail, AndOr, Pipes, PipesTail, Command, LoopBody, IfCommand, IfTail, ForCommand, SimpleTail, RAndOr,
      RPipes, RCommand, RSimple, WfAndOr, WfPipes, WfCommand, RSeparator;
    if c.Empty? {
      NothingReads(k);
    } else if c.Sequence? {
      var item := c.items[0];
      ItemReads(st, item, false, RItems(st, c.items[1..], k));
      ItemsRead(st, [], item, c.items[1..], k);
      assert [] + [item] + c.items[1..] == c.items;
      assert [] + [Inner(item)] == [Inner(item)];
    } else {
      ItemReads(st, c, true, k);
      LastItemReads(st, [], c, k);
      assert [] + [c] == [c] && [] + [Inner(c)] == [Inner(c)];
    }
  }

  // ---- several lines --------------------------------------------------------------------------------

  /** An and-or list, the ; or & or newline that ends it, and the newlines after that. */
  datatype Entry = Entry(cmd: Cmd, end: Token, gap: nat)

  predicate WfEntry(e: Entry) { WfAndOr(e.cmd) && e.end in {Semi, Amp, Newline} }

  predicate WfEntries(es: seq<Entry>) { es == [] || (WfEntry(es[0]) && WfEntries(es[1..])) }

  function REnd(e: Entry, k: seq<Token>): seq<Token> { Cons(e.end, Newlines(e.gap, k)) }

  function REntries(st: Style, es: seq<Entry>, k: seq<Token>): seq<Token>
    requires WfEntries(es)
  {
    if es == [] then k else RAndOr(st, es[0].cmd, REnd(es[0], REntries(st, es[1..], k)))
  }

  function Meant(e: Entry): Cmd { if e.end == Amp then Background(e.cmd) else e.cmd }

  /** The commands as written. */
  function AllMeant(es: seq<Entry>): (cs: seq<Cmd>)
    ensures |cs| == |es|
  {
    seq(|es|, i requires 0 <= i < |es| => Meant(es[i]))
  }

  /** How many entries there are up to and including the first that a newline ends. */
  function FirstLine(es: seq<Entry>): (n: nat)
    requires es != []
    ensures 1 <= n <= |es| && (n < |es| ==> es[n - 1].end == Newline)
    ensures forall i :: 0 <= i < n - 1 ==> es[i].end != Newline
  {
    if es[0].end == Newline || |es| == 1 then 1 else 1 + FirstLine(es[1..])
  }

  /** No entry but the last is ended by a newline. */
  predicate OneLine(es: seq<Entry>) { forall i :: 0 <= i < |es| - 1 ==> es[i].end != Newline }

  lemma {:induction false} WfFrom(es: seq<Entry>, n: nat)
    requires WfEntries(es) && n <= |es|
    ensures WfEntries(es[n..])
  {
    if n > 0 {
      WfFrom(es[1..], n - 1);
      assert es[1..][n - 1..] == es[n..];
    }
  }

  lemma EntriesBegin(st: Style, es: seq<Entry>, k: seq<Token>)
    requires WfEntries(es)
    ensures es != [] ==> Begins(REntries(st, es, k))
    ensures es != [] || EndsList(k) ==> SkipNewlines(REntries(st, es, k)) == REntries(st, es, k)
  {
    hide List, ListTail, AndOr, Pipes, PipesTail, Command, LoopBody, IfCommand, IfTail, ForCommand, SimpleTail,
      RList, RAndOr, RPipes, RCommand, RSimple, WfList, WfAndOr, WfPipes, WfCommand;
    if es != [] { AndOrBegins(st, es[0].cmd, REnd(es[0], REntries(st, es[1..], k))); }
  }

  /** The entry's own tokens, then what follows. */
  lemma EntryReads(st: Style, es: seq<Entry>, k: seq<Token>)
    requires WfEntries(es) && es != []
    ensures AndOr(SkipNewlines(REntries(st, es, k))) == Parsed(es[0].cmd, REnd(es[0], REntries(st, es[1..], k)))
    ensures !es[0].cmd.Empty?
  {
    hide List, ListTail, AndOr, Pipes, PipesTail, Command, LoopBody, IfCommand, IfTail, ForCommand, SimpleTail,
      RList, RAndOr, RPipes, RCommand, RSimple, WfList, WfAndOr, WfPipes, WfCommand;
    var k1 := REnd(es[0], REntries(st, es[1..], k));
    AndOrBegins(st, es[0].cmd, k1);
    AndOrReads(st, es[0].cmd, k1);
  }

  /** A newline ends the list: the newline case of the list loop comes after newlines have been skipped. */
  lemma NewlineStops(cmds: seq<Cmd>, e: Entry, ts: seq<Token>)
    requires cmds != [] && e.end == Newline && SkipNewlines(ts) == ts && !Next(ts, Semi) && !Next(ts, Amp)
    ensures ListTail(cmds, REnd(e, ts)) == Parsed(Collected(cmds), ts)
  {
    hide List, AndOr, Pipes, PipesTail, Command, LoopBody, IfCommand, IfTail, ForCommand, SimpleTail, RList, RAndOr,
      RPipes, RCommand, RSimple, WfList, WfAndOr, WfPipes, WfCommand;
    NewlinesSkipped(e.gap, ts);
    assert SkipNewlines(REnd(e, ts)) == SkipNewlines(Newlines(e.gap, ts));
  }

  /** A semicolon or an ampersand goes on to the next entry, if there is one. */
  lemma SeparatorGoesOn(done: seq<Cmd>, e: Entry, ts: seq<Token>, next: Parsed)
    requires (e.end == Semi || e.end == Amp) && AndOr(SkipNewlines(ts)) == next
    ensures ListTail(done + [e.cmd], REnd(e, ts)) ==
            if next.cmd.Empty? then Parsed(Collected(done + [Meant(e)]), next.rest)
            else ListTail(done + [Meant(e)] + [next.cmd], next.rest)
  {
    hide List, AndOr, Pipes, PipesTail, Command, LoopBody, IfCommand, IfTail, ForCommand, SimpleTail, RList, RAndOr,
      RPipes, RCommand, RSimple, WfList, WfAndOr, WfPipes, WfCommand;
    assert Backgrounded(done + [e.cmd]) == done + [Background(e.cmd)];
    NewlinesSkipped(e.gap, ts);
  }

  lemma {:induction false} EntriesRead(st: Style, done: seq<Cmd>, es: seq<Entry>, k: seq<Token>)
    requires WfEntries(es) && es != [] && EndsList(k)
    ensures WfEntries(es[FirstLine(es)..])
    ensures ListTail(done + [es[0].cmd], REnd(es[0], REntries(st, es[1..], k))) ==
            Parsed(Collected(done + AllMeant(es[..FirstLine(es)])), REntries(st, es[FirstLine(es)..], k))
    decreases |es|
  {
    hide List, ListTail, AndOr, Pipes, PipesTail, Command, LoopBody, IfCommand, IfTail, ForCommand, SimpleTail,
      RList, RAndOr, RPipes, RCommand, RSimple, WfList, WfAndOr, WfPipes, WfCommand, REnd, SkipNewlines;
    var n, e, rest := FirstLine(es), es[0], REntries(st, es[1..], k);
    WfFrom(es, n);
    EntriesBegin(st, es[1..], k);
    if n == 1 {
      assert AllMeant(es[..n]) == [Meant(e)];
      if e.end == Newline { NewlineStops(done + [e.cmd], e, rest); } else {
        NothingReads(k);
        SeparatorGoesOn(done, e, k, Parsed(Empty, k));
      }
    } else {
      EntryReads(st, es[1..], k);
      SeparatorGoesOn(done, e, rest, Parsed(es[1].cmd, REnd(es[1], REntries(st, es[1..][1..], k))));
      EntriesRead(st, done + [Meant(e)], es[1..], k);
      MeantFrom(done, es, n);
    }
  }

  lemma MeantFrom(done: seq<Cmd>, es: seq<Entry>, n: nat)
    requires 1 <= n <= |es|
    ensures done + [Meant(es[0])] + AllMeant(es[1..][..n - 1]) == done + AllMeant(es[..n])
    ensures es[1..][n - 1..] == es[n..]
  {
    AllMeantNext(es[..n]);
    assert es[1..][..n - 1] == es[..n][1..];
    hide AllMeant;
  }

  lemma AllMeantNext(es: seq<Entry>)
    requires es != []
    ensures AllMeant(es) == [Meant(es[0])] + AllMeant(es[1..])
  {
    hide Meant;
  }

  /** The parser takes the commands up to and including the first that a newline ends, and leaves the
      others unread. */
  lemma FirstLineOnly(st: Style, es: seq<Entry>, k: seq<Token>)
    requires WfEntries(es) && es != [] && EndsList(k)
    ensures WfEntries(es[FirstLine(es)..])
    ensures List(REntries(st, es, k)) ==
            Parsed(Collected(AllMeant(es[..FirstLine(es)])), REntries(st, es[FirstLine(es)..], k))
  {
    hide ListTail, AndOr, Pipes, PipesTail, Command, LoopBody, IfCommand, IfTail, ForCommand, SimpleTail, RList,
      RAndOr, RPipes, RCommand, RSimple, WfList, WfAndOr, WfPipes, WfCommand;
    EntryReads(st, es, k);
    EntriesRead(st, [], es, k);
    assert [] + [es[0].cmd] == [es[0].cmd];
    assert [] + AllMeant(es[..FirstLine(es)]) == AllMeant(es[..FirstLine(es)]);
  }

  /** So everything is parsed, with newlines doing the work of semicolons, exactly if no command but
      the last is ended by a newline. */
  lemma NewlinesSeparate(st: Style, es: seq<Entry>, k: seq<Token>)
    requires WfEntries(es) && es != [] && EndsList(k)
    ensures List(REntries(st, es, k)) == Parsed(Collected(AllMeant(es)), k) <==> OneLine(es)
    ensures List(REntries(st, es, k)).rest == k <==> OneLine(es)
  {
    hide List, ListTail, AndOr, Pipes, PipesTail, Command, LoopBody, IfCommand, IfTail, ForCommand, SimpleTail,
      RList, RAndOr, RPipes, RCommand, RSimple, WfList, WfAndOr, WfPipes, WfCommand;
    var n := FirstLine(es);
    FirstLineOnly(st, es, k);
    if n == |es| { assert es[..n] == es; } else { EntriesBegin(st, es[n..], k); }
  }

  // ---- bodies on several lines -----------------------------------------------------------------------

  /** A construct whose body takes several lines: it ends after the first of them, without its closing
      keyword, and the body's other lines and the keyword are left as what follows it. */
  lemma BodyFirstLineOnly(st: Style, c: Cmd, es: seq<Entry>, k: seq<Token>)
    requires HasBody(c) && WfCommand(c) && WfEntries(es) && es != []
    ensures WfEntries(es[FirstLine(es)..])
    ensures Command(ROpen(st, c, REntries(st, es, RClose(st, c, k)))) ==
            if OneLine(es) then Parsed(WithBody(c, Collected(AllMeant(es))), k)
            else Parsed(CutShort(c, Collected(AllMeant(es[..FirstLine(es)]))),
                        REntries(st, es[FirstLine(es)..], RClose(st, c, k)))
  {
    hide List, ListTail, AndOr, Pipes, PipesTail, Command, LoopBody, IfCommand, IfTail, ForCommand, SimpleTail,
      RList, RAndOr, RPipes, RCommand, RSimple, WfList, WfAndOr, WfPipes, WfCommand, RClose, ROpen, WithBody, CutShort;
    var n, close := FirstLine(es), RClose(st, c, k);
    CloseEnds(st, c, k);
    FirstLineOnly(st, es, close);
    EntriesBegin(st, es, close);
    EntriesBegin(st, es[n..], close);
    var body := List(REntries(st, es, close));
    BodyReads(st, c, REntries(st, es, close), body, k);
    if n == |es| { assert es[..n] == es; }
  }

  /** So a construct is read whole exactly if no command of its body but the last is ended by a newline. */
  lemma BodiesOnOneLine(st: Style, c: Cmd, es: seq<Entry>, k: seq<Token>)
    requires HasBody(c) && WfCommand(c) && WfEntries(es) && es != [] && EndsCommand(k)
    ensures var whole := Parsed(WithBody(c, Collected(AllMeant(es))), k);
            Command(ROpen(st, c, REntries(st, es, RClose(st, c, k)))) == whole <==> OneLine(es)
  {
    hide List, ListTail, AndOr, Pipes, PipesTail, Command, LoopBody, IfCommand, IfTail, ForCommand, SimpleTail,
      RList, RAndOr, RPipes, RCommand, RSimple, WfList, WfAndOr, WfPipes, WfCommand, RClose, ROpen, WithBody, CutShort;
    BodyFirstLineOnly(st, c, es, k);
    EntriesBegin(st, es[FirstLine(es)..], RClose(st, c, k));
  }

  /** Parsing any rendering of any well-formed tree returns the tree and uses every token. */
  lemma RoundTrip(st: Style, c: Cmd)
    requires WfList(c)
    ensures List(Rendering(st, c)) == Parsed(c, [])
  {
    ListReads(st, c, []);
  }

  /** So two commands with the same rendering, in whatever styles, are the same command. */
  lemma RenderingsDiffer(st: Style, c: Cmd, st': Style, c': Cmd)
    requires WfList(c) && WfList(c') && Rendering(st, c) == Rendering(st', c')
    ensures c == c'
  {
    RoundTrip(st, c);
    RoundTrip(st', c');
    hide Rendering, List;
  }

  /** A command line without a separator at its end, as a prompt reads it. */
  lemma PlainLine(st: Style, c: Cmd, k: seq<Token>)
    requires WfAndOr(c) && EndsList(k)
    ensures List(RAndOr(st, c, k)) == Parsed(c, k)
  {
    hide AndOr, Pipes, PipesTail, Command, LoopBody, IfCommand, IfTail, ForCommand, SimpleTail, RList, RAndOr,
      RPipes, RCommand, RSimple, WfList, WfAndOr, WfPipes, WfCommand;
    AndOrBegins(st, c, k);
    AndOrReads(st, c, k);
  }
}
