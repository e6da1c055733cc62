/** The shell's parser (sh.c): what its token lists mean, how commands are written down, and
    that parsing what was written down gives the command back. */
module Shell {
  const MAXARGS := 10
  const O_RDONLY := 0
  const O_WRONLY := 1
  const O_CREATE := 0x200
  const O_TRUNC := 0x400

  /** A command over words, which are places in the input for the parser and strings for us. */
  datatype Cmd<W> =
    | Exec(args: seq<W>)
    | Redir(cmd: Cmd<W>, file: W, mode: int, fd: int)
    | Pipe(left: Cmd<W>, right: Cmd<W>)
    | List(left: Cmd<W>, right: Cmd<W>)
    | Back(cmd: Cmd<W>)

  /** A word, or a symbol; `+` is the symbol >>. */
  datatype Tok = Word(w: string) | Sym(c: char)

  datatype Res = Fail | Ok(cmd: Cmd<string>, rest: seq<Tok>)

  // ----- parsing a list of tokens ---------------------------------------------------------

  predicate HeadIn(ts: seq<Tok>, syms: string) {
    ts != [] && ts[0].Sym? && ts[0].c in syms
  }

  function Mode(op: char): int {
    if op == '<' then O_RDONLY else if op == '>' then O_WRONLY + O_CREATE + O_TRUNC else O_WRONLY + O_CREATE
  }

  function Fd(op: char): int {
    if op == '<' then 0 else 1
  }

  function ParseRedirs(c: Cmd<string>, ts: seq<Tok>): (r: Res)
    ensures r.Ok? ==> |r.rest| <= |ts| && !HeadIn(r.rest, "<>+")
    decreases |ts|
  {
    if !HeadIn(ts, "<>+") then Ok(c, ts)
    else if |ts| < 2 || !ts[1].Word? then Fail
    else ParseRedirs(Redir(c, ts[1].w, Mode(ts[0].c), Fd(ts[0].c)), ts[2..])
  }

  /** A further argument goes to the command inside the redirections. */
  function AddArg<W>(c: Cmd<W>, w: W): Cmd<W> {
    match c
    case Exec(args) => Exec(args + [w])
    case Redir(d, file, mode, fd) => Redir(AddArg(d, w), file, mode, fd)
    case _ => c
  }

  function Argc<W>(c: Cmd<W>): int {
    match c
    case Exec(args) => |args|
    case Redir(d, _, _, _) => Argc(d)
    case _ => 0
  }

  function ParseArgs(c: Cmd<string>, ts: seq<Tok>): (r: Res)
    ensures r.Ok? ==> |r.rest| <= |ts|
    decreases |ts|, 1
  {
    match ParseRedirs(c, ts)
    case Fail => Fail
    case Ok(d, rest) => MoreArgs(d, rest)
  }

  /** The arguments of d after redirections have been read. */
  function MoreArgs(d: Cmd<string>, ts: seq<Tok>): (r: Res)
    ensures r.Ok? ==> |r.rest| <= |ts|
    decreases |ts|, 0
  {
    if ts == [] || HeadIn(ts, "|)&;") then Ok(d, ts)
    else if ts[0].Word? && Argc(d) + 1 < MAXARGS then ParseArgs(AddArg(d, ts[0].w), ts[1..])
    else Fail
  }

  function ParseExec(ts: seq<Tok>): (r: Res)
    ensures r.Ok? ==> |r.rest| <= |ts|
    decreases |ts|, 2
  {
    if HeadIn(ts, "(") then ParseBlock(ts) else ParseArgs(Exec([]), ts)
  }

  function ParseBlock(ts: seq<Tok>): (r: Res)
    requires HeadIn(ts, "(")
    ensures r.Ok? ==> |r.rest| <= |ts|
    decreases |ts| - 1, 6
  {
    match ParseLine(ts[1..])
    case Fail => Fail
    case Ok(c, rest) => if HeadIn(rest, ")") then ParseRedirs(c, rest[1..]) else Fail
  }

  function ParsePipe(ts: seq<Tok>): (r: Res)
    ensures r.Ok? ==> |r.rest| <= |ts|
    decreases |ts|, 3
  {
    match ParseExec(ts)
    case Fail => Fail
    case Ok(c, rest) =>
      if HeadIn(rest, "|") then
        match ParsePipe(rest[1..])
        case Fail => Fail
        case Ok(d, rest') => Ok(Pipe(c, d), rest')
      else Ok(c, rest)
  }

  function Backs(c: Cmd<string>, ts: seq<Tok>): (r: Res)
    ensures r.Ok? && |r.rest| <= |ts|
    decreases |ts|
  {
    if HeadIn(ts, "&") then Backs(Back(c), ts[1..]) else Ok(c, ts)
  }

  function ParseLine(ts: seq<Tok>): (r: Res)
    ensures r.Ok? ==> |r.rest| <= |ts|
    decreases |ts|, 5
  {
    match ParsePipe(ts)
    case Fail => Fail
    case Ok(c, rest) => EndLine(Backs(c, rest).cmd, Backs(c, rest).rest)
  }

  /** What follows the first pipeline of a line and its `&`s. */
  function EndLine(c: Cmd<string>, ts: seq<Tok>): (r: Res)
    ensures r.Ok? ==> |r.rest| <= |ts|
    decreases |ts|, 4
  {
    if HeadIn(ts, ";") then
      match ParseLine(ts[1..])
      case Fail => Fail
      case Ok(d, rest) => Ok(List(c, d), rest)
    else Ok(c, ts)
  }

  // ----- writing a command down -------------------------------------------------------------

  /** Parentheses go where the grammar needs them. How the four functions call each other
      depends on the command; the rank is lower for the one that takes the command apart. */
  function Rank(level: nat, t: Cmd<string>): nat {
    match t
    case Exec(_) => level
    case Redir(_, _, _, _) => level
    case Pipe(_, _) => (level + 3) % 4
    case Back(_) => (level + 2) % 4
    case List(_, _) => (level + 1) % 4
  }

  function Words(args: seq<string>): seq<Tok> {
    if args == [] then [] else [Word(args[0])] + Words(args[1..])
  }

  function OpOf(mode: int): char {
    if mode == Mode('<') then '<' else if mode == Mode('>') then '>' else '+'
  }

  function PrintExec(t: Cmd<string>): seq<Tok>
    decreases t, Rank(0, t)
  {
    match t
    case Exec(args) => Words(args)
    case Redir(c, file, mode, _) => PrintExec(c) + [Sym(OpOf(mode)), Word(file)]
    case _ => [Sym('(')] + PrintLine(t) + [Sym(')')]
  }

  function PrintPipe(t: Cmd<string>): seq<Tok>
    decreases t, Rank(1, t)
  {
    match t
    case Pipe(l, r) => PrintExec(l) + [Sym('|')] + PrintPipe(r)
    case _ => PrintExec(t)
  }

  function PrintBack(t: Cmd<string>): seq<Tok>
    decreases t, Rank(2, t)
  {
    match t
    case Back(c) => PrintBack(c) + [Sym('&')]
    case _ => PrintPipe(t)
  }

  function PrintLine(t: Cmd<string>): seq<Tok>
    decreases t, Rank(3, t)
  {
    match t
    case List(l, r) => PrintBack(l) + [Sym(';')] + PrintLine(r)
    case _ => PrintBack(t)
  }

  /** The commands that can be written down: at most MAXARGS - 1 arguments, redirections as
      the shell makes them, and words that are words. */
  predicate Printable(t: Cmd<string>) {
    match t
    case Exec(args) => |args| < MAXARGS && forall i | 0 <= i < |args| :: IsWord(args[i])
    case Redir(c, file, mode, fd) =>
      Printable(c) && IsWord(file) && mode == Mode(OpOf(mode)) && fd == Fd(OpOf(mode))
    case Pipe(l, r) => Printable(l) && Printable(r)
    case List(l, r) => Printable(l) && Printable(r)
    case Back(c) => Printable(c)
  }

  // ----- parsing what was written down --------------------------------------------------------

  /** A simple command: redirections around arguments. */
  predicate Simple<W>(t: Cmd<W>) {
    match t
    case Exec(_) => true
    case Redir(c, _, _, _) => Simple(c)
    case _ => false
  }

  predicate Stop(ts: seq<Tok>, syms: string) {
    ts == [] || HeadIn(ts, syms)
  }

  lemma {:induction false} WordsParse(args: seq<string>, k: nat, r: seq<Tok>)
    requires k <= |args| < MAXARGS
    ensures ParseArgs(Exec(args[..k]), Words(args[k..]) + r) == ParseArgs(Exec(args), r)
    decreases |args| - k
  {
    if k == |args| {
      assert args[..k] == args && Words(args[k..]) + r == r;
    } else {
      var ts := Words(args[k..]) + r;
      assert args[k..][1..] == args[k + 1..] && args[..k] + [args[k]] == args[..k + 1];
      assert ts[0] == Word(args[k]) && ts[1..] == Words(args[k + 1..]) + r;
      WordsParse(args, k + 1, r);
    }
  }

  lemma OneRedir(c: Cmd<string>, file: string, op: char, r: seq<Tok>)
    requires op in "<>+"
    ensures ParseRedirs(c, [Sym(op), Word(file)] + r) == ParseRedirs(Redir(c, file, Mode(op), Fd(op)), r)
  {
    assert ([Sym(op), Word(file)] + r)[2..] == r;
  }

  /** A simple command is read by reading its arguments and then its redirections. */
  lemma {:induction false} SimpleParse(t: Cmd<string>, r: seq<Tok>)
    requires Simple(t) && Printable(t)
    ensures ParseArgs(Exec([]), PrintExec(t) + r) == ParseArgs(t, r)
  {
    match t
    case Exec(args) =>
      assert args[..0] == [] && args[0..] == args;
      WordsParse(args, 0, r);
    case Redir(c, file, mode, _) =>
      var ts := [Sym(OpOf(mode)), Word(file)];
      SimpleParse(c, ts + r);
      assert PrintExec(t) + r == PrintExec(c) + (ts + r);
      OneRedir(c, file, OpOf(mode), r);
  }

  lemma SimpleHead(t: Cmd<string>, r: seq<Tok>)
    requires Simple(t) && Stop(r, "|)&;<>+")
    ensures !HeadIn(PrintExec(t) + r, "(")
  {
    match t
    case Exec(args) =>
    case Redir(c, file, mode, _) =>
      var ts := [Sym(OpOf(mode)), Word(file)];
      assert PrintExec(t) + r == PrintExec(c) + (ts + r);
      SimpleHead(c, ts + r);
  }

  /** Any other command is read as a block and then its redirections. */
  lemma RedirPrinted(t: Cmd<string>, r: seq<Tok>)
    requires !Simple(t) && t.Redir?
    ensures PrintExec(t) + r == PrintExec(t.cmd) + ([Sym(OpOf(t.mode)), Word(t.file)] + r)
  {
    assert PrintExec(t) == PrintExec(t.cmd) + [Sym(OpOf(t.mode)), Word(t.file)];
  }

  lemma BlockPrinted(t: Cmd<string>, r: seq<Tok>)
    requires !Simple(t) && !t.Redir?
    ensures PrintExec(t) + r == [Sym('(')] + (PrintLine(t) + ([Sym(')')] + r))
    ensures (PrintExec(t) + r)[1..] == PrintLine(t) + ([Sym(')')] + r) && ([Sym(')')] + r)[1..] == r
  {
    assert PrintExec(t) + r == [Sym('(')] + (PrintLine(t) + ([Sym(')')] + r));
  }

  lemma PipePrinted(t: Cmd<string>, r: seq<Tok>)
    requires t.Pipe?
    ensures PrintPipe(t) + r == PrintExec(t.left) + ([Sym('|')] + (PrintPipe(t.right) + r))
    ensures ([Sym('|')] + (PrintPipe(t.right) + r))[1..] == PrintPipe(t.right) + r
  {}

  lemma {:induction false} BlockParse(t: Cmd<string>, r: seq<Tok>)
    requires !Simple(t) && Printable(t)
    ensures ParseExec(PrintExec(t) + r) == ParseRedirs(t, r)
    decreases t, Rank(0, t), 0
  {
    if t.Redir? {
      var ts := [Sym(OpOf(t.mode)), Word(t.file)];
      RedirPrinted(t, r);
      BlockParse(t.cmd, ts + r);
      OneRedir(t.cmd, t.file, OpOf(t.mode), r);
    } else {
      var ts := [Sym(')')] + r;
      BlockPrinted(t, r);
      LineParse(t, ts);
    }
  }

  lemma {:induction false} ExecParse(t: Cmd<string>, r: seq<Tok>)
    requires Printable(t) && Stop(r, "|)&;")
    ensures ParseExec(PrintExec(t) + r) == Ok(t, r)
    decreases t, Rank(0, t), 1
  {
    if Simple(t) {
      SimpleHead(t, r);
      SimpleParse(t, r);
    } else {
      BlockParse(t, r);
    }
  }

  lemma {:induction false} PipeParse(t: Cmd<string>, r: seq<Tok>)
    requires Printable(t) && Stop(r, ")&;")
    ensures ParsePipe(PrintPipe(t) + r) == Ok(t, r)
    decreases t, Rank(1, t)
  {
    match t {
      case Pipe(a, b) =>
        var ts := [Sym('|')] + (PrintPipe(b) + r);
        PipePrinted(t, r);
        ExecParse(a, ts);
        PipeParse(b, r);
      case _ =>
        ExecParse(t, r);
    }
  }

  /** The pipeline in front is read first, and the `&`s then rebuild the command. */
  lemma {:induction false} BackParse(t: Cmd<string>, r: seq<Tok>)
    requires Printable(t) && Stop(r, ")&;")
    ensures var p := ParsePipe(PrintBack(t) + r);
            p.Ok? && Backs(p.cmd, p.rest) == Backs(t, r)
    decreases t, Rank(2, t)
  {
    match t {
      case Back(c) =>
        var ts := [Sym('&')] + r;
        assert PrintBack(t) + r == PrintBack(c) + ts && ts[1..] == r;
        BackParse(c, ts);
      case _ =>
        PipeParse(t, r);
    }
  }

  lemma {:induction false} LineParse(t: Cmd<string>, r: seq<Tok>)
    requires Printable(t) && Stop(r, ")")
    ensures ParseLine(PrintLine(t) + r) == Ok(t, r)
    decreases t, Rank(3, t)
  {
    match t {
      case List(a, b) =>
        var ts := [Sym(';')] + PrintLine(b) + r;
        assert PrintLine(t) + r == PrintBack(a) + ts && ts[1..] == PrintLine(b) + r;
        BackParse(a, ts);
        LineParse(b, r);
      case _ =>
        BackParse(t, r);
    }
  }

  // ----- from characters to tokens --------------------------------------------------------------

  predicate Blank(c: char) { c in " \t\r\n\U{000B}" }

  predicate Symbol(c: char) { c in "<|>&;()" }

  predicate Delim(c: char) { Blank(c) || Symbol(c) }

  predicate IsWord(w: string) {
    w != "" && forall i | 0 <= i < |w| :: !Delim(w[i]) && w[i] != '\0'
  }

  function Skip(s: string): (t: string)
    ensures |t| <= |s| && (t != "" ==> !Blank(t[0]))
  {
    if s != "" && Blank(s[0]) then Skip(s[1..]) else s
  }

  function WordLen(t: string): (n: nat)
    ensures n <= |t| && (t != "" && !Delim(t[0]) ==> n > 0)
  {
    if t == "" || Delim(t[0]) then 0 else 1 + WordLen(t[1..])
  }

  /** The length of the token at the start of t. */
  function Len(t: string): (n: nat)
    requires t != "" && !Blank(t[0])
    ensures 0 < n <= |t|
  {
    if !Symbol(t[0]) then WordLen(t) else if |t| >= 2 && t[0] == '>' && t[1] == '>' then 2 else 1
  }

  function First(t: string): Tok
    requires t != "" && !Blank(t[0])
  {
    if !Symbol(t[0]) then Word(t[..Len(t)]) else if Len(t) == 2 then Sym('+') else Sym(t[0])
  }

  function Lex(s: string): seq<Tok>
    decreases |s|
  {
    var t := Skip(s);
    if t == "" then [] else [First(t)] + Lex(t[Len(t)..])
  }

  /** A command line that parses to one command with nothing left over. */
  function Parse(s: string): Res {
    match ParseLine(Lex(s))
    case Fail => Fail
    case Ok(c, rest) => if rest == [] then Ok(c, []) else Fail
  }

  // ----- the round trip ---------------------------------------------------------------------

  function Text(tok: Tok): string {
    match tok
    case Word(w) => w
    case Sym(c) => if c == '+' then ">>" else [c]
  }

  function Write(ts: seq<Tok>): string {
    if ts == [] then "" else Text(ts[0]) + " " + Write(ts[1..])
  }

  predicate TokOk(t: Tok) {
    if t.Word? then IsWord(t.w) else Symbol(t.c) || t.c == '+'
  }

  predicate ToksOk(ts: seq<Tok>) {
    forall i | 0 <= i < |ts| :: TokOk(ts[i])
  }

  lemma {:induction false} WordLenOf(w: string, s: string)
    requires forall i | 0 <= i < |w| :: !Delim(w[i])
    ensures WordLen(w + " " + s) == |w|
  {
    if w == "" {
      assert (w + " " + s)[0] == ' ';
    } else {
      assert (w + " " + s)[1..] == w[1..] + " " + s;
      WordLenOf(w[1..], s);
    }
  }

  lemma LexOne(tok: Tok, s: string)
    requires TokOk(tok)
    ensures Lex(Text(tok) + " " + s) == [tok] + Lex(" " + s)
  {
    var t, n := Text(tok) + " " + s, |Text(tok)|;
    assert t[0] == Text(tok)[0] && Skip(t) == t;
    if tok.Word? {
      WordLenOf(tok.w, s);
    } else {
      assert t[1] == if tok.c == '+' then '>' else ' ';
    }
    assert Len(t) == n && t[..n] == Text(tok) && t[n..] == " " + s;
  }

  lemma {:induction false} LexWrite(ts: seq<Tok>)
    requires ToksOk(ts)
    ensures Lex(Write(ts)) == ts
  {
    if ts != [] {
      LexOne(ts[0], Write(ts[1..]));
      LexBlank(Write(ts[1..]));
      LexWrite(ts[1..]);
    }
  }

  lemma LexBlank(s: string)
    ensures Lex(" " + s) == Lex(s)
  {
    assert (" " + s)[1..] == s;
    assert Skip(" " + s) == Skip(s);
  }

  lemma {:induction false} WordsOk(args: seq<string>)
    requires forall i | 0 <= i < |args| :: IsWord(args[i])
    ensures ToksOk(Words(args))
  {
    if args != [] {
      WordsOk(args[1..]);
    }
  }

  lemma {:induction false} ExecOk(t: Cmd<string>)
    requires Printable(t)
    ensures ToksOk(PrintExec(t))
    decreases t, Rank(0, t)
  {
    match t {
      case Exec(args) => WordsOk(args);
      case Redir(c, _, _, _) => ExecOk(c);
      case _ => LineOk(t);
    }
  }

  lemma {:induction false} PipeOk(t: Cmd<string>)
    requires Printable(t)
    ensures ToksOk(PrintPipe(t))
    decreases t, Rank(1, t)
  {
    match t {
      case Pipe(l, r) => ExecOk(l); PipeOk(r);
      case _ => ExecOk(t);
    }
  }

  lemma {:induction false} BackOk(t: Cmd<string>)
    requires Printable(t)
    ensures ToksOk(PrintBack(t))
    decreases t, Rank(2, t)
  {
    match t {
      case Back(c) => BackOk(c);
      case _ => PipeOk(t);
    }
  }

  lemma {:induction false} LineOk(t: Cmd<string>)
    requires Printable(t)
    ensures ToksOk(PrintLine(t))
    decreases t, Rank(3, t)
  {
    match t {
      case List(l, r) => BackOk(l); LineOk(r);
      case _ => BackOk(t);
    }
  }

  /** Writing a command down and parsing it gives the command back. */
  lemma RoundTrip(t: Cmd<string>)
    requires Printable(t)
    ensures Parse(Write(PrintLine(t))) == Ok(t, [])
  {
    LineOk(t);
    LexWrite(PrintLine(t));
    LineParse(t, []);
    assert PrintLine(t) + [] == PrintLine(t);
  }
}
