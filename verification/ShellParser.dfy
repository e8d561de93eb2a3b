/**
 The shell's recursive-descent parser: what each production makes of the tokens
 left, and the parser object that walks a token vector to the same result.
 */
module ShellParser {
  import opened ShellSyntax
  import opened Options

  /** A command and the tokens after it. */
  datatype Parsed = Parsed(cmd: Cmd, rest: seq<Token>)

  predicate Next(ts: seq<Token>, t: Token) { ts != [] && ts[0] == t }

  function SkipNewlines(ts: seq<Token>): (r: seq<Token>)
    ensures |r| <= |ts| && !Next(r, Newline)
  {
    if Next(ts, Newline) then SkipNewlines(ts[1..]) else ts
  }

  function Expect(ts: seq<Token>, t: Token): (r: seq<Token>)
    ensures |r| <= |ts|
  {
    if Next(ts, t) then ts[1..] else ts
  }

  /** Skip newlines, the token if it is there, and newlines again. */
  function Past(ts: seq<Token>, t: Token): (r: seq<Token>)
    ensures |r| <= |ts|
  {
    SkipNewlines(Expect(SkipNewlines(ts), t))
  }

  function WordsOf(ts: seq<Token>): seq<string>
  {
    if ts != [] && ts[0].Word? then [ts[0].text] + WordsOf(ts[1..]) else []
  }

  function AfterWords(ts: seq<Token>): (r: seq<Token>)
    ensures |r| <= |ts|
  {
    if ts != [] && ts[0].Word? then AfterWords(ts[1..]) else ts
  }

  // ---- a simple command ---------------------------------------------------------------------

  const NO_WORDS := Simple([], None, None, false, None, false, [])

  /** The word after a redirection; the token after it is consumed whatever it is. */
  function FileName(ts: seq<Token>): Option<string> { if |ts| > 1 && ts[1].Word? then Some(ts[1].text) else None }

  function AfterFile(ts: seq<Token>): seq<Token> { if |ts| > 1 then ts[2..] else [] }

  /** What a 2> word names: empty when the file is in the next token. */
  function StderrName(w: string): string
    requires IsStderr(w)
  {
    if |w| > 2 && w[2] == '>' then w[3..] else w[2..]
  }

  function SimpleTail(acc: Cmd, ts: seq<Token>): (r: Parsed)
    requires acc.Simple?
    ensures |r.rest| <= |ts|
    decreases |ts|
  {
    if ts == [] then SimpleEnd(acc, ts)
    else
      match ts[0]
      case Word(w) =>
        if IsStderr(w) then
          if w == "2>&1" then SimpleTail(acc.(stderrToStdout := true), ts[1..])
          else if StderrName(w) != "" then SimpleTail(acc.(stderrFile := Some(StderrName(w))), ts[1..])
          else if FileName(ts).Some? then SimpleTail(acc.(stderrFile := FileName(ts)), AfterFile(ts))
          else SimpleTail(acc, AfterFile(ts))
        else if acc.argv == [] && IsAssignment(w) then
          SimpleTail(acc.(assignments := acc.assignments + [AsAssignment(w)]), ts[1..])
        else SimpleTail(acc.(argv := acc.argv + [w]), ts[1..])
      case Less => SimpleTail(if FileName(ts).Some? then acc.(stdinFile := FileName(ts)) else acc, AfterFile(ts))
      case Greater =>
        SimpleTail(if FileName(ts).Some? then acc.(stdoutFile := FileName(ts), append := false) else acc, AfterFile(ts))
      case GreaterGreater =>
        SimpleTail(if FileName(ts).Some? then acc.(stdoutFile := FileName(ts), append := true) else acc, AfterFile(ts))
      case _ => SimpleEnd(acc, ts)
  }

  function SimpleEnd(acc: Cmd, ts: seq<Token>): Parsed
    requires acc.Simple?
  {
    if acc.argv == [] && acc.assignments == [] then Parsed(Empty, ts) else Parsed(acc, ts)
  }

  // ---- the productions ----------------------------------------------------------------------

  function List(ts: seq<Token>): (r: Parsed)
    ensures |r.rest| <= |ts|
    decreases |ts|, 5
  {
    var first := AndOr(SkipNewlines(ts));
    if first.cmd.Empty? then Parsed(Empty, first.rest) else ListTail([first.cmd], first.rest)
  }

  function Collected(cmds: seq<Cmd>): Cmd
    requires cmds != []
  {
    if |cmds| == 1 then cmds[0] else Sequence(cmds)
  }

  function Backgrounded(cmds: seq<Cmd>): (r: seq<Cmd>)
    requires cmds != []
    ensures |r| == |cmds|
  {
    cmds[..|cmds| - 1] + [Background(cmds[|cmds| - 1])]
  }

  function ListTail(cmds: seq<Cmd>, ts: seq<Token>): (r: Parsed)
    requires cmds != []
    ensures |r.rest| <= |ts|
    decreases |ts|, 0
  {
    var t := SkipNewlines(ts);
    if Next(t, Semi) || Next(t, Amp) then
      var done := if t[0] == Amp then Backgrounded(cmds) else cmds;
      var next := AndOr(SkipNewlines(t[1..]));
      if next.cmd.Empty? then Parsed(Collected(done), next.rest) else ListTail(done + [next.cmd], next.rest)
    else Parsed(Collected(cmds), t)
  }

  lemma ListTailStep(cmds: seq<Cmd>, ts: seq<Token>)
    requires cmds != []
    ensures var t := SkipNewlines(ts);
            if Next(t, Semi) || Next(t, Amp) then
              var done := if t[0] == Amp then Backgrounded(cmds) else cmds;
              var next := AndOr(SkipNewlines(t[1..]));
              ListTail(cmds, ts) ==
              if next.cmd.Empty? then Parsed(Collected(done), next.rest) else ListTail(done + [next.cmd], next.rest)
            else ListTail(cmds, ts) == Parsed(Collected(cmds), t)
  {
    hide AndOr, SkipNewlines;
  }

  function AndOr(ts: seq<Token>): (r: Parsed)
    ensures |r.rest| <= |ts|
    decreases |ts|, 4
  {
    var left := Pipes(ts);
    AndOrTail(left.cmd, left.rest)
  }

  function AndOrTail(left: Cmd, ts: seq<Token>): (r: Parsed)
    ensures |r.rest| <= |ts|
    decreases |ts|, 0
  {
    if Next(ts, AndAnd) then
      var right := Pipes(SkipNewlines(ts[1..]));
      AndOrTail(And(left, right.cmd), right.rest)
    else if Next(ts, OrOr) then
      var right := Pipes(SkipNewlines(ts[1..]));
      AndOrTail(Or(left, right.cmd), right.rest)
    else Parsed(left, ts)
  }

  function Pipes(ts: seq<Token>): (r: Parsed)
    ensures |r.rest| <= |ts|
    decreases |ts|, 3
  {
    var first := Command(Expect(ts, Bang));
    var p := PipesTail([first.cmd], first.rest);
    if Next(ts, Bang) then Parsed(Not(p.cmd), p.rest) else p
  }

  function PipesTail(cmds: seq<Cmd>, ts: seq<Token>): (r: Parsed)
    requires cmds != []
    ensures |r.rest| <= |ts|
    decreases |ts|, 0
  {
    if Next(ts, Pipe) then
      var next := Command(SkipNewlines(ts[1..]));
      PipesTail(cmds + [next.cmd], next.rest)
    else Parsed(if |cmds| == 1 then cmds[0] else Pipeline(cmds), ts)
  }

  function Command(ts: seq<Token>): (r: Parsed)
    ensures |r.rest| <= |ts|
    decreases |ts|, 2
  {
    var t := SkipNewlines(ts);
    if Next(t, If) then IfCommand(t)
    else if Next(t, While) then
      var c, b := LoopCond(t), LoopBody(t);
      Parsed(WhileDo(c.cmd, b.cmd), b.rest)
    else if Next(t, Until) then
      var c, b := LoopCond(t), LoopBody(t);
      Parsed(UntilDo(c.cmd, b.cmd), b.rest)
    else if Next(t, For) then ForCommand(t)
    else if Next(t, LParen) then
      var inner := List(t[1..]);
      Parsed(Subshell(inner.cmd), Expect(inner.rest, RParen))
    else SimpleTail(NO_WORDS, t)
  }

  /** The production a command's first token leads to. */
  lemma CommandBranches(ts: seq<Token>)
    ensures var t := SkipNewlines(ts);
            && (Next(t, If) ==> Command(ts) == IfCommand(t))
            && (Next(t, While) ==> Command(ts) == Parsed(WhileDo(LoopCond(t).cmd, LoopBody(t).cmd), LoopBody(t).rest))
            && (Next(t, Until) ==> Command(ts) == Parsed(UntilDo(LoopCond(t).cmd, LoopBody(t).cmd), LoopBody(t).rest))
            && (Next(t, For) ==> Command(ts) == ForCommand(t))
            && (Next(t, LParen) ==>
                  Command(ts) == Parsed(Subshell(List(t[1..]).cmd), Expect(List(t[1..]).rest, RParen)))
            && (t == [] || t[0] !in {If, While, Until, For, LParen} ==> Command(ts) == SimpleTail(NO_WORDS, t))
  {
    hide List, LoopCond, LoopBody, IfCommand, ForCommand, SimpleTail, Expect, SkipNewlines;
  }

  function LoopCond(ts: seq<Token>): (r: Parsed)
    requires ts != []
    ensures |r.rest| < |ts|
    decreases |ts|, 0
  {
    List(SkipNewlines(ts[1..]))
  }

  function LoopBody(ts: seq<Token>): (r: Parsed)
    requires ts != []
    ensures |r.rest| < |ts|
    decreases |ts|, 1
  {
    var body := List(Past(LoopCond(ts).rest, Do));
    Parsed(body.cmd, Expect(SkipNewlines(body.rest), Done))
  }

  function IfCommand(ts: seq<Token>): (r: Parsed)
    requires ts != []
    ensures |r.rest| < |ts|
    decreases |ts|, 0
  {
    var cond := List(SkipNewlines(ts[1..]));
    var body := List(Past(cond.rest, Then));
    IfTail(cond.cmd, body.cmd, [], body.rest)
  }

  function IfTail(cond: Cmd, body: Cmd, elifs: seq<Branch>, ts: seq<Token>): (r: Parsed)
    ensures |r.rest| <= |ts|
    decreases |ts|, 0
  {
    var t := SkipNewlines(ts);
    if Next(t, Elif) then
      var c := List(SkipNewlines(t[1..]));
      var b := List(Past(c.rest, Then));
      IfTail(cond, body, elifs + [Branch(c.cmd, b.cmd)], b.rest)
    else if Next(t, Else) then
      var e := List(SkipNewlines(t[1..]));
      Parsed(IfThen(cond, body, elifs, Some(e.cmd)), Expect(SkipNewlines(e.rest), Fi))
    else Parsed(IfThen(cond, body, elifs, None), Expect(t, Fi))
  }

  function ForCommand(ts: seq<Token>): (r: Parsed)
    requires ts != []
    ensures |r.rest| < |ts|
    decreases |ts|, 0
  {
    var name := if |ts| > 1 && ts[1].Word? then ts[1].text else "_";
    var t := SkipNewlines(if |ts| > 1 then ts[2..] else []);
    var words := if Next(t, In) then WordsOf(t[1..]) else [];
    var after := if Next(t, In) then AfterWords(t[1..]) else t;
    var body := List(Past(Expect(SkipNewlines(after), Semi), Do));
    Parsed(ForIn(name, words, body.cmd), Expect(SkipNewlines(body.rest), Done))
  }

  // ---- the parser ---------------------------------------------------------------------------

  class Parser {
    const tokens: seq<Token>
    var pos: nat

    ghost predicate Valid() reads this { pos <= |tokens| }

    ghost function Rest(): seq<Token>
      requires Valid()
      reads this
    {
      tokens[pos..]
    }

    constructor (tokens: seq<Token>)
      ensures Valid() && Rest() == tokens && this.tokens == tokens
    {
      this.tokens, pos := tokens, 0;
    }

    function Peek(): (t: Option<Token>)
      requires Valid()
      reads this
      ensures t == if Rest() == [] then None else Some(Rest()[0])
    {
      if pos < |tokens| then Some(tokens[pos]) else None
    }

    method Take() returns (t: Option<Token>)
      requires Valid()
      modifies this
      ensures Valid() && t == old(Peek())
      ensures Rest() == if old(Rest()) == [] then [] else old(Rest())[1..]
    {
      if pos < |tokens| {
        t := Some(tokens[pos]);
        pos := pos + 1;
      } else {
        t := None;
      }
    }

    method ExpectToken(t: Token) returns (found: bool)
      requires Valid()
      modifies this
      ensures Valid() && found == Next(old(Rest()), t) && Rest() == Expect(old(Rest()), t)
    {
      found := Peek() == Some(t);
      if found { var _ := Take(); }
    }

    method SkipLines()
      requires Valid()
      modifies this
      ensures Valid() && Rest() == SkipNewlines(old(Rest()))
    {
      while Peek() == Some(Newline)
        invariant Valid() && SkipNewlines(Rest()) == SkipNewlines(old(Rest()))
        decreases |tokens| - pos
      {
        var _ := Take();
      }
    }

    method SkipPast(t: Token)
      requires Valid()
      modifies this
      ensures Valid() && Rest() == Past(old(Rest()), t)
    {
      SkipLines();
      var _ := ExpectToken(t);
      SkipLines();
    }

    method ParseList() returns (c: Cmd)
      requires Valid()
      modifies this
      ensures Valid() && Parsed(c, Rest()) == List(old(Rest()))
      decreases |tokens| - pos, 5
    {
      SkipLines();
      var first := ParseAndOr();
      if first.Empty? { return Empty; }
      var cmds := [first];
      hide List, ListTail, AndOr, SkipNewlines;
      while true
        invariant Valid() && cmds != [] && ListTail(cmds, Rest()) == List(old(Rest())) && |Rest()| <= old(|Rest()|)
        decreases |tokens| - pos
      {
        ListTailStep(cmds, Rest());
        SkipLines();
        var t := Peek();
        if t == Some(Semi) || t == Some(Amp) {
          var _ := Take();
          if t == Some(Amp) { cmds := cmds[..|cmds| - 1] + [Background(cmds[|cmds| - 1])]; }
          SkipLines();
          var next := ParseAndOr();
          if next.Empty? { break; }
          cmds := cmds + [next];
        } else {
          break;
        }
      }
      c := if |cmds| == 1 then cmds[0] else Sequence(cmds);
    }

    method ParseAndOr() returns (c: Cmd)
      requires Valid()
      modifies this
      ensures Valid() && Parsed(c, Rest()) == AndOr(old(Rest()))
      decreases |tokens| - pos, 4
    {
      c := ParsePipeline();
      while true
        invariant Valid() && AndOrTail(c, Rest()) == AndOr(old(Rest())) && |Rest()| <= old(|Rest()|)
        decreases |tokens| - pos
      {
        var t := Peek();
        if t == Some(AndAnd) {
          var _ := Take();
          SkipLines();
          var right := ParsePipeline();
          c := And(c, right);
        } else if t == Some(OrOr) {
          var _ := Take();
          SkipLines();
          var right := ParsePipeline();
          c := Or(c, right);
        } else {
          break;
        }
      }
    }

    method ParsePipeline() returns (c: Cmd)
      requires Valid()
      modifies this
      ensures Valid() && Parsed(c, Rest()) == Pipes(old(Rest()))
      decreases |tokens| - pos, 3
    {
      var negate := ExpectToken(Bang);
      var first := ParseCommand();
      var cmds := [first];
      ghost var p := PipesTail(cmds, Rest());
      while Peek() == Some(Pipe)
        invariant Valid() && cmds != [] && PipesTail(cmds, Rest()) == p && |Rest()| <= old(|Rest()|)
        decreases |tokens| - pos
      {
        var _ := Take();
        SkipLines();
        var next := ParseCommand();
        cmds := cmds + [next];
      }
      c := if |cmds| == 1 then cmds[0] else Pipeline(cmds);
      if negate { c := Not(c); }
    }

    method ParseCommand() returns (c: Cmd)
      requires Valid()
      modifies this
      ensures Valid() && Parsed(c, Rest()) == Command(old(Rest()))
      decreases |tokens| - pos, 2
    {
      hide Command, List, IfCommand, ForCommand, LoopCond, LoopBody, SimpleTail, SkipNewlines, Expect;
      CommandBranches(Rest());
      SkipLines();
      var t := Peek();
      if t == Some(If) {
        c := ParseIf();
      } else if t == Some(While) {
        c := ParseWhile();
      } else if t == Some(Until) {
        c := ParseUntil();
      } else if t == Some(For) {
        c := ParseFor();
      } else if t == Some(LParen) {
        var _ := Take();
        var inner := ParseList();
        var _ := ExpectToken(RParen);
        c := Subshell(inner);
      } else {
        c := ParseSimple();
      }
    }

    method ParseWhile() returns (c: Cmd)
      requires Valid() && Rest() != []
      modifies this
      ensures Valid() && c == WhileDo(LoopCond(old(Rest())).cmd, LoopBody(old(Rest())).cmd) &&
              Rest() == LoopBody(old(Rest())).rest
      decreases |tokens| - pos, 1
    {
      var _ := Take();
      SkipLines();
      var cond := ParseList();
      SkipPast(Do);
      var body := ParseList();
      SkipLines();
      var _ := ExpectToken(Done);
      c := WhileDo(cond, body);
    }

    method ParseUntil() returns (c: Cmd)
      requires Valid() && Rest() != []
      modifies this
      ensures Valid() && c == UntilDo(LoopCond(old(Rest())).cmd, LoopBody(old(Rest())).cmd) &&
              Rest() == LoopBody(old(Rest())).rest
      decreases |tokens| - pos, 1
    {
      var _ := Take();
      SkipLines();
      var cond := ParseList();
      SkipPast(Do);
      var body := ParseList();
      SkipLines();
      var _ := ExpectToken(Done);
      c := UntilDo(cond, body);
    }

    method ParseIf() returns (c: Cmd)
      requires Valid() && Rest() != []
      modifies this
      ensures Valid() && Parsed(c, Rest()) == IfCommand(old(Rest()))
      decreases |tokens| - pos, 1
    {
      hide List, Command;
      var _ := Take();
      SkipLines();
      var cond := ParseList();
      SkipPast(Then);
      var thenBody := ParseList();
      var elifs: seq<Branch> := [];
      var elseBody: Option<Cmd> := None;
      ghost var all := IfTail(cond, thenBody, [], Rest());
      while true
        invariant Valid() && IfTail(cond, thenBody, elifs, Rest()) == all && elseBody == None &&
                  |Rest()| < old(|Rest()|)
        decreases |tokens| - pos
      {
        SkipLines();
        if Peek() == Some(Elif) {
          var _ := Take();
          SkipLines();
          var elifCond := ParseList();
          SkipPast(Then);
          var elifBody := ParseList();
          elifs := elifs + [Branch(elifCond, elifBody)];
        } else if Peek() == Some(Else) {
          var _ := Take();
          SkipLines();
          var e := ParseList();
          elseBody := Some(e);
          break;
        } else {
          break;
        }
      }
      SkipLines();
      var _ := ExpectToken(Fi);
      c := IfThen(cond, thenBody, elifs, elseBody);
    }

    method ParseFor() returns (c: Cmd)
      requires Valid() && Rest() != []
      modifies this
      ensures Valid() && Parsed(c, Rest()) == ForCommand(old(Rest()))
      decreases |tokens| - pos, 1
    {
      hide List, WordsOf, AfterWords, SkipNewlines, Past;
      ghost var ts := Rest();
      var _ := Take();
      var t := Take();
      var name := if t.Some? && t.value.Word? then t.value.text else "_";
      assert Rest() == if |ts| > 1 then ts[2..] else [];
      SkipLines();
      var words: seq<string> := [];
      var found := ExpectToken(In);
      if found { words := TakeWords(); }
      SkipLines();
      var _ := ExpectToken(Semi);
      SkipPast(Do);
      var body := ParseList();
      SkipLines();
      var _ := ExpectToken(Done);
      c := ForIn(name, words, body);
    }

    method TakeWords() returns (words: seq<string>)
      requires Valid()
      modifies this
      ensures Valid() && words == WordsOf(old(Rest())) && Rest() == AfterWords(old(Rest()))
    {
      words := [];
      while Peek().Some? && Peek().value.Word?
        invariant Valid() && words + WordsOf(Rest()) == WordsOf(old(Rest())) &&
                  AfterWords(Rest()) == AfterWords(old(Rest()))
        decreases |tokens| - pos
      {
        words := words + [Peek().value.text];
        var _ := Take();
      }
    }

    method ParseSimple() returns (c: Cmd)
      requires Valid()
      modifies this
      ensures Valid() && Parsed(c, Rest()) == SimpleTail(NO_WORDS, old(Rest()))
    {
      var argv: seq<string>, assignments: seq<Assignment> := [], [];
      var stdinFile: Option<string>, stdoutFile: Option<string>, stderrFile: Option<string> := None, None, None;
      var append, stderrToStdout := false, false;
      while Peek().Some? && (Peek().value.Word? || Peek().value in {Less, Greater, GreaterGreater})
        invariant Valid()
        invariant SimpleTail(Simple(argv, stdinFile, stdoutFile, append, stderrFile, stderrToStdout, assignments),
                             Rest())
               == SimpleTail(NO_WORDS, old(Rest()))
        decreases |tokens| - pos
      {
        var t := Peek().value;
        if t.Word? {
          var w := t.text;
          if IsStderr(w) {
            var _ := Take();
            if w == "2>&1" {
              stderrToStdout := true;
            } else if StderrName(w) == "" {
              var f := Take();
              if f.Some? && f.value.Word? { stderrFile := Some(f.value.text); }
            } else {
              stderrFile := Some(StderrName(w));
            }
          } else if argv == [] && IsAssignment(w) {
            assignments := assignments + [AsAssignment(w)];
            var _ := Take();
          } else {
            argv := argv + [w];
            var _ := Take();
          }
        } else {
          var _ := Take();
          var f := Take();
          if f.Some? && f.value.Word? {
            if t == Less {
              stdinFile := Some(f.value.text);
            } else {
              stdoutFile := Some(f.value.text);
              append := t == GreaterGreater;
            }
          }
        }
      }
      if argv == [] && assignments == [] { return Empty; }
      c := Simple(argv, stdinFile, stdoutFile, append, stderrFile, stderrToStdout, assignments);
    }
  }
}
