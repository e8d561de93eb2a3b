/**
 The shell's tokens, commands and canonical rendering.
 */
module ShellSyntax {

  import opened Options

  datatype Token =
    | Word(text: string) | Pipe | Semi | Amp | AndAnd | OrOr | Less | Greater | GreaterGreater
    | Newline | LParen | RParen
    | If | Then | Elif | Else | Fi | While | Until | Do | Done | For | In | Case | Esac | Bang

  datatype Assignment = Assignment(name: string, value: string)

  datatype Branch = Branch(cond: Cmd, body: Cmd)

  datatype Cmd =
    | Simple(argv: seq<string>, stdinFile: Option<string>, stdoutFile: Option<string>, append: bool,
             stderrFile: Option<string>, stderrToStdout: bool, assignments: seq<Assignment>)
    | Pipeline(stages: seq<Cmd>)
    | And(left: Cmd, right: Cmd)
    | Or(left: Cmd, right: Cmd)
    | Not(inner: Cmd)
    | Sequence(items: seq<Cmd>)
    | Background(inner: Cmd)
    | IfThen(cond: Cmd, thenBody: Cmd, elifs: seq<Branch>, elseBody: Option<Cmd>)
    | WhileDo(cond: Cmd, body: Cmd)
    | UntilDo(cond: Cmd, body: Cmd)
    | ForIn(name: string, words: seq<string>, body: Cmd)
    | Subshell(inner: Cmd)
    | Empty

  // ---- words ------------------------------------------------------------------------------

  predicate NameChar(c: char) { 'a' <= c <= 'z' || 'A' <= c <= 'Z' || '0' <= c <= '9' || c == '_' }

  predicate IsName(s: string) { s != "" && forall i :: 0 <= i < |s| ==> NameChar(s[i]) }

  /** Where the first '=' stands, or the length of the word. */
  function FirstEquals(w: string): (i: nat)
    ensures i <= |w| && (i < |w| ==> w[i] == '=') && forall k :: 0 <= k < i ==> w[k] != '='
  {
    if w == "" || w[0] == '=' then 0 else 1 + FirstEquals(w[1..])
  }

  predicate IsAssignment(w: string) { FirstEquals(w) < |w| && IsName(w[..FirstEquals(w)]) }

  function AsAssignment(w: string): Assignment
    requires IsAssignment(w)
  {
    Assignment(w[..FirstEquals(w)], w[FirstEquals(w) + 1..])
  }

  predicate IsStderr(w: string) { |w| >= 2 && w[..2] == "2>" }

  // ---- well-formed trees, level by level ------------------------------------------------------

  predicate WfSimple(c: Cmd)
    requires c.Simple?
  {
    && (c.argv != [] || c.assignments != [])
    && (forall i :: 0 <= i < |c.assignments| ==> IsName(c.assignments[i].name))
    && (forall i :: 0 <= i < |c.argv| ==> !IsStderr(c.argv[i]))
    && (c.argv != [] ==> !IsAssignment(c.argv[0]))
    && (c.append ==> c.stdoutFile.Some?)
  }

  predicate WfCommand(c: Cmd)
    decreases c, 0
  {
    match c
    case Simple(_, _, _, _, _, _, _) => WfSimple(c)
    case IfThen(cond, body, elifs, other) =>
      WfList(cond) && WfList(body) && WfBranches(elifs) && (other.Some? ==> WfList(other.value))
    case WhileDo(cond, body) => WfList(cond) && WfList(body)
    case UntilDo(cond, body) => WfList(cond) && WfList(body)
    case ForIn(_, _, body) => WfList(body)
    case Subshell(inner) => WfList(inner)
    case _ => false
  }

  predicate WfBranches(bs: seq<Branch>)
    decreases bs, 0
  {
    bs == [] || (WfBranch(bs[0]) && WfBranches(bs[1..]))
  }

  predicate WfBranch(b: Branch)
    decreases b, 0
  {
    WfList(b.cond) && WfList(b.body)
  }

  predicate WfStages(cs: seq<Cmd>)
    decreases cs, 1
  {
    cs == [] || (WfCommand(cs[0]) && WfStages(cs[1..]))
  }

  predicate WfPipes(c: Cmd)
    decreases c, 1
  {
    if c.Pipeline? then |c.stages| >= 2 && WfCommand(c.stages[0]) && WfStages(c.stages[1..]) else WfCommand(c)
  }

  predicate WfPipeline(c: Cmd)
    decreases c, 2
  {
    if c.Not? then WfPipes(c.inner) else WfPipes(c)
  }

  predicate WfAndOr(c: Cmd)
    decreases c, 3
  {
    if c.And? || c.Or? then WfAndOr(c.left) && WfPipeline(c.right) else WfPipeline(c)
  }

  predicate WfItem(c: Cmd)
    decreases c, 4
  {
    if c.Background? then WfAndOr(c.inner) else WfAndOr(c)
  }

  predicate WfItems(cs: seq<Cmd>)
    decreases cs, 5
  {
    cs == [] || (WfItem(cs[0]) && WfItems(cs[1..]))
  }

  predicate WfList(c: Cmd)
    decreases c, 6
  {
    match c
    case Empty => true
    case Sequence(items) => |items| >= 2 && WfItems(items)
    case _ => WfItem(c)
  }

  // ---- rendering -----------------------------------------------------------------------------------
  // Each function puts a rendering in front of the tokens k that follow it.

  /** How the file of a stderr redirection is written: 2> f, 2>f, 2>> f or 2>>f. */
  datatype ErrStyle = Apart | Joined | AppendApart | AppendJoined

  /** A way of writing commands down: whether the last command of a list goes without a separator, how
      many newlines stand where newlines may, whether redirections come before the words, and how
      stderr is redirected. */
  datatype Style = Style(bare: bool, gap: nat, early: bool, err: ErrStyle)

  function Cons(t: Token, k: seq<Token>): (ts: seq<Token>)
    ensures ts != [] && ts[0] == t && ts[1..] == k
  {
    [t] + k
  }

  function Newlines(n: nat, k: seq<Token>): seq<Token> { if n == 0 then k else Cons(Newline, Newlines(n - 1, k)) }

  function RWords(ws: seq<string>, k: seq<Token>): seq<Token>
  {
    if ws == [] then k else Cons(Word(ws[0]), RWords(ws[1..], k))
  }

  function AssignmentWord(a: Assignment): string { a.name + "=" + a.value }

  function RAssignments(az: seq<Assignment>, k: seq<Token>): seq<Token>
  {
    if az == [] then k else Cons(Word(AssignmentWord(az[0])), RAssignments(az[1..], k))
  }

  function RStdin(c: Cmd, k: seq<Token>): seq<Token>
    requires c.Simple?
  {
    if c.stdinFile.Some? then Cons(Less, Cons(Word(c.stdinFile.value), k)) else k
  }

  function RStdout(c: Cmd, k: seq<Token>): seq<Token>
    requires c.Simple?
  {
    if c.stdoutFile.Some? then Cons(if c.append then GreaterGreater else Greater, Cons(Word(c.stdoutFile.value), k))
        else k
  }

  /** The word or words of a stderr redirection; a name that would be misread is written apart. */
  function RErrFile(err: ErrStyle, f: string, k: seq<Token>): seq<Token>
  {
    if err == Joined && f != "" && f[0] != '>' && f != "&1" then Cons(Word("2>" + f), k)
    else if err == AppendJoined && f != "" then Cons(Word("2>>" + f), k)
    else Cons(Word(if err == AppendApart || err == AppendJoined then "2>>" else "2>"), Cons(Word(f), k))
  }

  function RStderr(st: Style, c: Cmd, k: seq<Token>): seq<Token>
    requires c.Simple?
  {
    if c.stderrFile.Some? then RErrFile(st.err, c.stderrFile.value, k) else k
  }

  function RMerge(c: Cmd, k: seq<Token>): seq<Token>
    requires c.Simple?
  {
    if c.stderrToStdout then Cons(Word("2>&1"), k) else k
  }

  function RRedirections(st: Style, c: Cmd, k: seq<Token>): seq<Token>
    requires c.Simple?
  {
    RStdin(c, RStdout(c, RStderr(st, c, RMerge(c, k))))
  }

  function RSimple(st: Style, c: Cmd, k: seq<Token>): seq<Token>
    requires c.Simple?
  {
    RAssignments(c.assignments,
                 if st.early then RRedirections(st, c, RWords(c.argv, k))
                 else RWords(c.argv, RRedirections(st, c, k)))
  }

  predicate HasBody(c: Cmd) { c.WhileDo? || c.UntilDo? || c.ForIn? || c.IfThen? || c.Subshell? }

  function BodyOf(c: Cmd): (body: Cmd)
    requires HasBody(c)
    ensures body < c
  {
    if c.IfThen? then c.thenBody else if c.Subshell? then c.inner else c.body
  }

  /** A construct is what comes before its body, the body and what comes after. */
  function RCommand(st: Style, c: Cmd, k: seq<Token>): seq<Token>
    requires WfCommand(c)
    decreases c, 2
  {
    if c.Simple? then RSimple(st, c, k) else ROpen(st, c, RList(st, BodyOf(c), RClose(st, c, k)))
  }

  function ROpen(st: Style, c: Cmd, ts: seq<Token>): seq<Token>
    requires HasBody(c) && WfCommand(c)
    decreases c, 1
  {
    var k := Newlines(st.gap, ts);
    match c
    case IfThen(cond, _, _, _) => Cons(If, Newlines(st.gap, RList(st, cond, Cons(Then, k))))
    case WhileDo(cond, _) => Cons(While, Newlines(st.gap, RList(st, cond, Cons(Do, k))))
    case UntilDo(cond, _) => Cons(Until, Newlines(st.gap, RList(st, cond, Cons(Do, k))))
    case ForIn(name, words, _) => Cons(For, Cons(Word(name), Newlines(st.gap, RIn(st, words, Cons(Do, k)))))
    case Subshell(_) => Cons(LParen, k)
  }

  /** The words of a for loop; a bare loop over none leaves out `in` too. */
  function RIn(st: Style, words: seq<string>, k: seq<Token>): seq<Token>
  {
    var k' := Newlines(st.gap, k);
    if st.bare && words == [] then k
    else Cons(In, RWords(words, if st.bare then k' else Cons(Semi, k')))
  }

  function RClose(st: Style, c: Cmd, k: seq<Token>): seq<Token>
    requires HasBody(c) && WfCommand(c)
    decreases c, 1
  {
    if c.IfThen? then RBranches(st, c.elifs, RElse(st, c.elseBody, Cons(Fi, k)))
    else Cons(if c.Subshell? then RParen else Done, k)
  }

  function RElse(st: Style, other: Option<Cmd>, k: seq<Token>): seq<Token>
    requires other.Some? ==> WfList(other.value)
    decreases other, 0
  {
    if other.Some? then Cons(Else, Newlines(st.gap, RList(st, other.value, k))) else k
  }

  function RBranches(st: Style, bs: seq<Branch>, k: seq<Token>): seq<Token>
    requires WfBranches(bs)
    decreases bs, 0
  {
    if bs == [] then k else RBranch(st, bs[0], RBranches(st, bs[1..], k))
  }

  function RBranch(st: Style, b: Branch, k: seq<Token>): seq<Token>
    requires WfBranch(b)
    decreases b, 0
  {
    var then' := Cons(Then, Newlines(st.gap, RList(st, b.body, k)));
    Cons(Elif, Newlines(st.gap, RList(st, b.cond, then')))
  }

  /** Stages after the first: a bar and a command each. */
  function RStages(st: Style, cs: seq<Cmd>, k: seq<Token>): seq<Token>
    requires WfStages(cs)
    decreases cs, 3
  {
    if cs == [] then k else Cons(Pipe, Newlines(st.gap, RCommand(st, cs[0], RStages(st, cs[1..], k))))
  }

  function RPipes(st: Style, c: Cmd, k: seq<Token>): seq<Token>
    requires WfPipes(c)
    decreases c, 3
  {
    if c.Pipeline? then RCommand(st, c.stages[0], RStages(st, c.stages[1..], k)) else RCommand(st, c, k)
  }

  function RPipeline(st: Style, c: Cmd, k: seq<Token>): seq<Token>
    requires WfPipeline(c)
    decreases c, 4
  {
    if c.Not? then Cons(Bang, Newlines(st.gap, RPipes(st, c.inner, k))) else RPipes(st, c, k)
  }

  function RAndOr(st: Style, c: Cmd, k: seq<Token>): seq<Token>
    requires WfAndOr(c)
    decreases c, 5
  {
    if c.And? || c.Or? then
      RAndOr(st, c.left, Cons(if c.And? then AndAnd else OrOr, Newlines(st.gap, RPipeline(st, c.right, k))))
    else RPipeline(st, c, k)
  }

  function Inner(item: Cmd): Cmd { if item.Background? then item.inner else item }

  function Separator(item: Cmd): Token { if item.Background? then Amp else Semi }

  /** What ends an item: nothing after the last of a bare list, unless it goes to the background. */
  function RSeparator(st: Style, c: Cmd, last: bool, k: seq<Token>): seq<Token>
  {
    var k' := Newlines(st.gap, k);
    if last && st.bare && !c.Background? then k' else Cons(Separator(c), k')
  }

  function RItem(st: Style, c: Cmd, last: bool, k: seq<Token>): seq<Token>
    requires WfItem(c)
    decreases c, 6
  {
    RAndOr(st, Inner(c), RSeparator(st, c, last, k))
  }

  function RItems(st: Style, cs: seq<Cmd>, k: seq<Token>): seq<Token>
    requires WfItems(cs)
    decreases cs, 7
  {
    if cs == [] then k else RItem(st, cs[0], |cs| == 1, RItems(st, cs[1..], k))
  }

  function RList(st: Style, c: Cmd, k: seq<Token>): seq<Token>
    requires WfList(c)
    decreases c, 8
  {
    match c
    case Empty => k
    case Sequence(items) => RItems(st, items, k)
    case _ => RItem(st, c, true, k)
  }

  /** The whole of a command line. */
  function Rendering(st: Style, c: Cmd): seq<Token>
    requires WfList(c)
  {
    RList(st, c, [])
  }
}
