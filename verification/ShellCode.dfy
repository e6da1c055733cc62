/** The shell's parser as it runs (sh.c): a cursor in a buffer, and commands that point into it. */
module ShellCode {
  import opened Shell
  import Grammar = ShellGrammar

  /** The characters from q up to eq. */
  datatype Span = Span(q: int, eq: int)

  datatype Out = Panic | Parsed(cmd: Cmd<Span>)

  function Cut(s: string, p: Span): string {
    if 0 <= p.q <= p.eq <= |s| then s[p.q..p.eq] else ""
  }

  function CutAll(s: string, args: seq<Span>): (r: seq<string>)
    ensures |r| == |args| && forall i | 0 <= i < |r| :: r[i] == Cut(s, args[i])
  {
    seq(|args|, i requires 0 <= i < |args| => Cut(s, args[i]))
  }

  /** The command with the strings it points at. */
  function Strings(s: string, c: Cmd<Span>): Cmd<string> {
    match c
    case Exec(args) => Exec(CutAll(s, args))
    case Redir(d, file, mode, fd) => Redir(Strings(s, d), Cut(s, file), mode, fd)
    case Pipe(l, r) => Pipe(Strings(s, l), Strings(s, r))
    case List(l, r) => List(Strings(s, l), Strings(s, r))
    case Back(d) => Back(Strings(s, d))
  }

  /** A word of the input, with something that is no part of a word right after it. */
  predicate SpanOk(s: string, p: Span) {
    && 0 <= p.q < p.eq <= |s| && (forall i | p.q <= i < p.eq :: !Delim(s[i]))
    && (p.eq == |s| || Delim(s[p.eq]))
  }

  predicate SpansOk(s: string, c: Cmd<Span>) {
    match c
    case Exec(args) => forall i | 0 <= i < |args| :: SpanOk(s, args[i])
    case Redir(d, file, _, _) => SpansOk(s, d) && SpanOk(s, file)
    case Pipe(l, r) => SpansOk(s, l) && SpansOk(s, r)
    case List(l, r) => SpansOk(s, l) && SpansOk(s, r)
    case Back(d) => SpansOk(s, d)
  }

  lemma {:induction false} AddArgStrings(s: string, c: Cmd<Span>, p: Span)
    requires SpansOk(s, c) && SpanOk(s, p)
    ensures Strings(s, AddArg(c, p)) == AddArg(Strings(s, c), Cut(s, p)) && SpansOk(s, AddArg(c, p))
  {
    match c
    case Exec(args) => assert CutAll(s, args + [p]) == CutAll(s, args) + [Cut(s, p)];
    case Redir(d, _, _, _) => AddArgStrings(s, d, p);
    case _ =>
  }

  lemma {:induction false} SameArgc(s: string, c: Cmd<Span>)
    ensures Argc(Strings(s, c)) == Argc(c)
  {
    match c
    case Redir(d, _, _, _) => SameArgc(s, d);
    case _ =>
  }

  lemma {:induction false} ArgcUp<W>(c: Cmd<W>, w: W)
    requires Simple(c)
    ensures Argc(AddArg(c, w)) == Argc(c) + 1 && Simple(AddArg(c, w))
  {
    match c
    case Redir(d, _, _, _) => ArgcUp(d, w);
    case _ =>
  }

  /** What the first character of a symbol is. */
  function Lead(c: char): char {
    if c == '+' then '>' else c
  }

  predicate LeadIn(ts: seq<Tok>, syms: string) {
    ts != [] && ts[0].Sym? && Lead(ts[0].c) in syms
  }

  predicate EndOf(args: seq<Span>, k: int) {
    exists i :: 0 <= i < |args| && args[i].eq == k
  }

  /** k is right after a word of the command. */
  predicate IsEnd(c: Cmd<Span>, k: int) {
    match c
    case Exec(args) => EndOf(args, k)
    case Redir(d, file, _, _) => IsEnd(d, k) || file.eq == k
    case Pipe(l, r) => IsEnd(l, k) || IsEnd(r, k)
    case List(l, r) => IsEnd(l, k) || IsEnd(r, k)
    case Back(d) => IsEnd(d, k)
  }

  predicate InBuf(n: int, c: Cmd<Span>) {
    match c
    case Exec(args) => forall i | 0 <= i < |args| :: 0 <= args[i].eq < n
    case Redir(d, file, _, _) => InBuf(n, d) && 0 <= file.eq < n
    case Pipe(l, r) => InBuf(n, l) && InBuf(n, r)
    case List(l, r) => InBuf(n, l) && InBuf(n, r)
    case Back(d) => InBuf(n, d)
  }

  /** The C string at q: up to the first NUL. */
  function CString(b: seq<char>, q: int): string
    requires 0 <= q
    decreases |b| - q
  {
    if q >= |b| || b[q] == '\0' then "" else [b[q]] + CString(b, q + 1)
  }

  function At(b: seq<char>, p: Span): string {
    if 0 <= p.q then CString(b, p.q) else ""
  }

  function AtAll(b: seq<char>, args: seq<Span>): (r: seq<string>)
    ensures |r| == |args| && forall i | 0 <= i < |r| :: r[i] == At(b, args[i])
  {
    seq(|args|, i requires 0 <= i < |args| => At(b, args[i]))
  }

  /** The command with the C strings that its pointers point at. */
  function CStrings(b: seq<char>, c: Cmd<Span>): Cmd<string> {
    match c
    case Exec(args) => Exec(AtAll(b, args))
    case Redir(d, file, mode, fd) => Redir(CStrings(b, d), At(b, file), mode, fd)
    case Pipe(l, r) => Pipe(CStrings(b, l), CStrings(b, r))
    case List(l, r) => List(CStrings(b, l), CStrings(b, r))
    case Back(d) => Back(CStrings(b, d))
  }

  lemma {:induction false} SpansInBuf(s: string, c: Cmd<Span>)
    requires SpansOk(s, c)
    ensures InBuf(|s| + 1, c) && forall k | IsEnd(c, k) :: 0 <= k <= |s| && (k == |s| || Delim(s[k]))
  {
    match c
    case Exec(args) =>
    case Redir(d, _, _, _) => SpansInBuf(s, d);
    case Pipe(l, r) => SpansInBuf(s, l); SpansInBuf(s, r);
    case List(l, r) => SpansInBuf(s, l); SpansInBuf(s, r);
    case Back(d) => SpansInBuf(s, d);
  }

  /** b is the input with its NUL, and with NULs after the words of whole. */
  ghost predicate Terminated(s: string, b: seq<char>, whole: Cmd<Span>) {
    && |b| == |s| + 1 && b[|s|] == '\0' && '\0' !in s
    && (forall k | IsEnd(whole, k) :: 0 <= k <= |s| && (k == |s| || Delim(s[k])))
    && (forall k | 0 <= k < |s| :: b[k] == if IsEnd(whole, k) then '\0' else s[k])
  }

  lemma {:induction false} WordKept(s: string, b: seq<char>, whole: Cmd<Span>, q: int, eq: int)
    requires Terminated(s, b, whole) && 0 <= q <= eq <= |s| && IsEnd(whole, eq)
    requires forall i | q <= i < eq :: !Delim(s[i])
    ensures CString(b, q) == s[q..eq]
    decreases eq - q
  {
    if q < eq {
      assert !IsEnd(whole, q);
      WordKept(s, b, whole, q + 1, eq);
    }
  }

  /** No NUL falls into a word, so every word reads as it did in the input. */
  lemma {:induction false} CStringsKept(s: string, b: seq<char>, whole: Cmd<Span>, c: Cmd<Span>)
    requires Terminated(s, b, whole) && SpansOk(s, c)
    requires forall k | IsEnd(c, k) :: IsEnd(whole, k)
    ensures CStrings(b, c) == Strings(s, c)
  {
    match c
    case Exec(args) =>
      forall i | 0 <= i < |args| ensures At(b, args[i]) == Cut(s, args[i]) {
        assert SpanOk(s, args[i]) && EndOf(args, args[i].eq) && IsEnd(c, args[i].eq);
        WordKept(s, b, whole, args[i].q, args[i].eq);
      }
      assert AtAll(b, args) == CutAll(s, args);
    case Redir(d, file, _, _) =>
      CStringsKept(s, b, whole, d);
      assert IsEnd(c, file.eq);
      WordKept(s, b, whole, file.q, file.eq);
    case Pipe(l, r) =>
      CStringsKept(s, b, whole, l);
      CStringsKept(s, b, whole, r);
    case List(l, r) =>
      CStringsKept(s, b, whole, l);
      CStringsKept(s, b, whole, r);
    case Back(d) =>
      CStringsKept(s, b, whole, d);
  }

  lemma {:induction false} SkipTwice(s: string)
    ensures Skip(Skip(s)) == Skip(s) && Lex(Skip(s)) == Lex(s)
  {
    if s != "" && Blank(s[0]) {
      SkipTwice(s[1..]);
    }
  }

  class Parser {
    const buf: array<char>
    var pos: int

    /** The input is all but the last character, which is the NUL. */
    ghost predicate Valid()
      reads this, buf
    {
      && 0 <= pos < buf.Length && buf[buf.Length - 1] == '\0'
      && forall i | 0 <= i < buf.Length - 1 :: buf[i] != '\0'
    }

    ghost function Input(): string
      requires Valid()
      reads this, buf
    {
      buf[..buf.Length - 1]
    }

    ghost function Rest(): string
      requires Valid()
      reads this, buf
    {
      buf[pos..buf.Length - 1]
    }

    ghost function Toks(): seq<Tok>
      requires Valid()
      reads this, buf
    {
      Lex(Rest())
    }

    constructor (s: string)
      requires '\0' !in s
      ensures Valid() && Input() == s && pos == 0 && fresh(buf)
    {
      pos := 0;
      buf := new char[|s| + 1](i requires 0 <= i < |s| + 1 => if i < |s| then s[i] else '\0');
      new;
      assert buf[..|s|] == s;
    }

    // ----- tokens -------------------------------------------------------------------------

    /** Moves the cursor past blanks. */
    method SkipBlanks()
      requires Valid()
      modifies this`pos
      ensures Valid() && Rest() == Skip(old(Rest())) && Toks() == old(Toks()) && pos >= old(pos)
    {
      while pos < buf.Length - 1 && Blank(buf[pos])
        invariant Valid() && Skip(Rest()) == Skip(old(Rest())) && pos >= old(pos)
        decreases buf.Length - pos
      {
        assert Rest()[0] == buf[pos] && Rest()[1..] == buf[pos + 1..buf.Length - 1];
        pos := pos + 1;
      }
      assert pos < buf.Length - 1 ==> Rest()[0] == buf[pos];
      SkipTwice(old(Rest()));
    }

    /** peek: does the next token start with one of these? */
    method Peek(syms: string) returns (b: bool)
      requires Valid() && forall c | c in syms :: Symbol(c)
      modifies this`pos
      ensures Valid() && Toks() == old(Toks()) && b == LeadIn(Toks(), syms)
      ensures '>' !in syms ==> b == HeadIn(Toks(), syms)
    {
      SkipBlanks();
      assert pos < buf.Length - 1 ==> Rest()[0] == buf[pos];
      b := buf[pos] != '\0' && buf[pos] in syms;
    }

    /** gettoken: 'a' for a word, 0 at the end, and otherwise the symbol. */
    method Gettoken() returns (ret: char, p: Span)
      requires Valid()
      modifies this`pos
      ensures Valid()
      ensures old(Toks()) == [] ==> ret == '\0' && Toks() == []
      ensures old(Toks()) != [] ==>
                && Toks() == old(Toks())[1..]
                && match old(Toks())[0] {
                     case Word(w) => ret == 'a' && SpanOk(Input(), p) && Cut(Input(), p) == w
                     case Sym(c) => ret == c && ret != 'a' && ret != '\0'
                   }
    {
      SkipBlanks();
      ghost var t := Rest();
      var q := pos;
      assert t != "" ==> t[0] == buf[pos];
      if buf[pos] == '\0' {
        ret := '\0';
      } else {
        SkipTwice(old(Rest()));
        ret := ScanToken();
      }
      p := Span(q, pos);
      SkipBlanks();
    }

    /** The switch of gettoken, on the first character of a token. */
    method ScanToken() returns (ret: char)
      requires Valid() && pos < buf.Length - 1 && !Blank(buf[pos]) && Rest() != "" && Rest()[0] == buf[pos]
      modifies this`pos
      ensures Valid() && pos == old(pos) + Len(old(Rest())) && Rest() == old(Rest())[Len(old(Rest()))..]
      ensures match First(old(Rest())) {
                case Word(w) => ret == 'a' && SpanOk(Input(), Span(old(pos), pos)) && Input()[old(pos)..pos] == w
                case Sym(c) => ret == c && ret != 'a' && ret != '\0'
              }
    {
      ghost var t := Rest();
      if Symbol(buf[pos]) {
        ret := buf[pos];
        assert |t| >= 2 ==> t[1] == buf[pos + 1];
        pos := pos + 1;
        if ret == '>' && buf[pos] == '>' {
          ret := '+';
          pos := pos + 1;
        }
      } else {
        ret := 'a';
        ScanWord();
      }
    }

    /** The loop over the characters of a word. */
    method ScanWord()
      requires Valid() && pos < buf.Length - 1 && !Delim(buf[pos])
      modifies this`pos
      ensures Valid() && pos == old(pos) + WordLen(old(Rest())) && Rest() == old(Rest())[WordLen(old(Rest()))..]
      ensures SpanOk(Input(), Span(old(pos), pos))
    {
      while pos < buf.Length - 1 && !Delim(buf[pos])
        invariant Valid() && old(pos) <= pos && (pos > old(pos) || !Delim(buf[pos]))
        invariant pos - old(pos) + WordLen(Rest()) == WordLen(old(Rest()))
        invariant forall i | old(pos) <= i < pos :: !Delim(buf[i])
        decreases buf.Length - pos
      {
        assert Rest()[0] == buf[pos] && Rest()[1..] == buf[pos + 1..buf.Length - 1];
        pos := pos + 1;
      }
      assert pos < buf.Length - 1 ==> Rest()[0] == buf[pos];
    }

    // ----- commands -------------------------------------------------------------------------

    /** The outcome is what the token list calls for; in a command, every word is in place. */
    ghost predicate Agrees(out: Out, r: Res)
      requires Valid()
      reads this, buf
    {
      match r
      case Fail => out == Panic
      case Ok(c, rest) => out.Parsed? && Strings(Input(), out.cmd) == c && SpansOk(Input(), out.cmd) && Toks() == rest
    }

    method Parseredirs(c: Cmd<Span>) returns (out: Out)
      requires Valid() && SpansOk(Input(), c)
      modifies this`pos
      ensures Valid() && Agrees(out, ParseRedirs(Strings(Input(), c), old(Toks())))
      ensures out.Parsed? && Simple(c) ==> Simple(out.cmd) && Argc(out.cmd) == Argc(c)
    {
      var cmd := c;
      ghost var r := ParseRedirs(Strings(Input(), c), Toks());
      while true
        invariant Valid() && SpansOk(Input(), cmd) && r == ParseRedirs(Strings(Input(), cmd), Toks())
        invariant Simple(c) ==> Simple(cmd) && Argc(cmd) == Argc(c)
        decreases |Toks()|
      {
        var more := Peek("<>");
        if !more {
          return Parsed(cmd);
        }
        var tok, p0 := Gettoken();
        var word, p := Gettoken();
        if word != 'a' {
          return Panic;                    // "missing file for redirection"
        }
        if tok == '<' {
          cmd := Redir(cmd, p, O_RDONLY, 0);
        } else if tok == '>' {
          cmd := Redir(cmd, p, O_WRONLY + O_CREATE + O_TRUNC, 1);
        } else {
          cmd := Redir(cmd, p, O_WRONLY + O_CREATE, 1);
        }
      }
    }

    method Parseexec() returns (out: Out)
      requires Valid()
      modifies this`pos
      ensures Valid() && Agrees(out, ParseExec(old(Toks())))
      decreases |Toks()|, 1
    {
      var block := Peek("(");
      if block {
        out := Parseblock();
        return;
      }
      assert CutAll(Input(), []) == [];
      out := Parseredirs(Exec([]));
      if out.Parsed? {
        out := Parseargs(out.cmd);
      }
    }

    /** The body of the loop of parseexec: the command with one more argument and the redirections
        after it, or the end of the loop. */
    method ArgRound(cmd: Cmd<Span>, argc: int, ghost r: Res) returns (more: bool, out: Out)
      requires Valid() && SpansOk(Input(), cmd) && Simple(cmd) && Argc(cmd) == argc
        && r == MoreArgs(Strings(Input(), cmd), Toks())
      modifies this`pos
      ensures Valid() && (!more ==> Agrees(out, r))
      ensures more ==>
                && out.Parsed? && SpansOk(Input(), out.cmd) && Simple(out.cmd) && Argc(out.cmd) == argc + 1
                && |Toks()| < |old(Toks())| && r == MoreArgs(Strings(Input(), out.cmd), Toks())
    {
      var stop := Peek("|)&;");
      if stop {
        return false, Parsed(cmd);
      }
      var tok, p := Gettoken();
      if tok == '\0' {
        return false, Parsed(cmd);
      }
      if tok != 'a' {
        return false, Panic;                 // "syntax"
      }
      SameArgc(Input(), cmd);
      if argc + 1 >= MAXARGS {
        return false, Panic;                 // "too many args"
      }
      more, out := WithArg(cmd, p, argc, r);
    }

    method WithArg(cmd: Cmd<Span>, p: Span, argc: int, ghost r: Res) returns (more: bool, out: Out)
      requires Valid() && SpansOk(Input(), cmd) && Simple(cmd) && Argc(cmd) == argc && SpanOk(Input(), p)
      requires r == ParseArgs(AddArg(Strings(Input(), cmd), Cut(Input(), p)), Toks())
      modifies this`pos
      ensures Valid() && (!more ==> Agrees(out, r))
      ensures more ==>
                && out.Parsed? && SpansOk(Input(), out.cmd) && Simple(out.cmd) && Argc(out.cmd) == argc + 1
                && |Toks()| <= |old(Toks())| && r == MoreArgs(Strings(Input(), out.cmd), Toks())
    {
      AddArgStrings(Input(), cmd, p);
      ArgcUp(cmd, p);
      out := Parseredirs(AddArg(cmd, p));
      more := out != Panic;
    }

    /** The loop of parseexec over the arguments. */
    method Parseargs(c: Cmd<Span>) returns (out: Out)
      requires Valid() && SpansOk(Input(), c) && Simple(c) && Argc(c) == 0
      modifies this`pos
      ensures Valid() && Agrees(out, MoreArgs(Strings(Input(), c), old(Toks())))
    {
      var argc, cmd := 0, c;
      ghost var r := MoreArgs(Strings(Input(), c), Toks());
      while true
        invariant Valid() && SpansOk(Input(), cmd) && Simple(cmd) && Argc(cmd) == argc
        invariant r == MoreArgs(Strings(Input(), cmd), Toks())
        decreases |Toks()|
      {
        var more;
        more, out := ArgRound(cmd, argc, r);
        if !more {
          return;
        }
        cmd, argc := out.cmd, argc + 1;
      }
    }

    method Parseblock() returns (out: Out)
      requires Valid() && HeadIn(Toks(), "(")
      modifies this`pos
      ensures Valid() && Agrees(out, ParseBlock(old(Toks())))
      decreases |Toks()|, 0
    {
      var open := Peek("(");
      assert open;                         // otherwise: "parseblock"
      var tok, p := Gettoken();
      out := Parseline();
      if out == Panic {
        return;
      }
      var close := Peek(")");
      if !close {
        return Panic;                      // "syntax - missing )"
      }
      tok, p := Gettoken();
      out := Parseredirs(out.cmd);
    }

    method Parsepipe() returns (out: Out)
      requires Valid()
      modifies this`pos
      ensures Valid() && Agrees(out, ParsePipe(old(Toks())))
      decreases |Toks()|, 2
    {
      out := Parseexec();
      if out == Panic {
        return;
      }
      var cmd := out.cmd;
      var more := Peek("|");
      if more {
        var tok, p := Gettoken();
        out := Parsepipe();
        if out.Parsed? {
          out := Parsed(Pipe(cmd, out.cmd));
        }
      }
    }

    method Parseline() returns (out: Out)
      requires Valid()
      modifies this`pos
      ensures Valid() && Agrees(out, ParseLine(old(Toks())))
      decreases |Toks()|, 5
    {
      ghost var ts := Toks();
      out := Parsepipe();
      if out == Panic {
        return;
      }
      var cmd := out.cmd;
      ghost var r := Backs(Strings(Input(), cmd), Toks());
      var amp := Peek("&");
      while amp
        invariant Valid() && amp == LeadIn(Toks(), "&") && |Toks()| <= |ts|
        invariant SpansOk(Input(), cmd) && r == Backs(Strings(Input(), cmd), Toks())
        decreases |Toks()|
      {
        var tok, p := Gettoken();
        cmd := Back(cmd);
        amp := Peek("&");
      }
      out := Parserest(cmd);
    }

    /** The part of parseline from the `;` on. */
    method Parserest(cmd: Cmd<Span>) returns (out: Out)
      requires Valid() && SpansOk(Input(), cmd)
      modifies this`pos
      ensures Valid() && Agrees(out, EndLine(Strings(Input(), cmd), old(Toks())))
      decreases |Toks()|, 4
    {
      out := Parsed(cmd);
      var semi := Peek(";");
      if semi {
        var tok, p := Gettoken();
        out := Parseline();
        if out.Parsed? {
          out := Parsed(List(cmd, out.cmd));
        }
      }
    }

    // ----- NUL termination ------------------------------------------------------------------

    /** nulterminate: a NUL after every word of the command, and no other change. */
    method Nulterminate(c: Cmd<Span>)
      requires InBuf(buf.Length, c)
      modifies buf
      ensures forall i | 0 <= i < buf.Length :: buf[i] == if IsEnd(c, i) then '\0' else old(buf[i])
      decreases c
    {
      match c {
        case Exec(args) =>
          for i := 0 to |args|
            invariant forall k | 0 <= k < buf.Length ::
                        buf[k] == if EndOf(args[..i], k) then '\0' else old(buf[k])
          {
            buf[args[i].eq] := '\0';
            assert args[..i + 1] == args[..i] + [args[i]];
          }
          assert args[..|args|] == args;
        case Redir(d, file, _, _) =>
          Nulterminate(d);
          buf[file.eq] := '\0';
        case Pipe(l, r) =>
          Nulterminate(l);
          Nulterminate(r);
        case List(l, r) =>
          Nulterminate(l);
          Nulterminate(r);
        case Back(d) =>
          Nulterminate(d);
      }
    }

    /** nulterminate of the whole command. */
    method Terminate(c: Cmd<Span>)
      requires Valid() && SpansOk(Input(), c)
      modifies buf
      ensures CStrings(buf[..], c) == Strings(old(Input()), c)
    {
      ghost var s := Input();
      SpansInBuf(s, c);
      Nulterminate(c);
      CStringsKept(s, buf[..], c, c);
    }

    /** Whether anything but blanks is left. */
    method Leftovers() returns (left: bool)
      requires Valid()
      modifies this`pos
      ensures Valid() && Toks() == old(Toks()) && left == (Toks() != [])
    {
      var none := Peek("");
      SkipBlanks();
      left := pos != buf.Length - 1;
      assert left ==> Rest()[0] == buf[pos];
    }

    /** parsecmd: a command whose words, as C strings in the buffer, make up the command that
        the input stands for; or a panic, if the input stands for none. */
    method Parsecmd() returns (out: Out)
      requires Valid() && pos == 0
      modifies this`pos, buf
      ensures out == Panic <==> forall l :: !Grammar.Stands(l, old(Input()))
      ensures forall l | Grammar.Stands(l, old(Input())) ::
                out.Parsed? && CStrings(buf[..], out.cmd) == Grammar.LineCmd(l)
      ensures match Parse(old(Input())) {
                case Fail => out == Panic
                case Ok(c, _) => out.Parsed? && CStrings(buf[..], out.cmd) == c
              }
    {
      ghost var s := Input();
      assert Rest() == s;
      Grammar.ParseIff(s);
      out := Parseline();
      if out == Panic {
        return;
      }
      var left := Leftovers();
      if left {
        return Panic;                      // "leftovers"
      }
      Terminate(out.cmd);
    }
  }

  lemma {:induction false} WriteHasNoNul(ts: seq<Tok>)
    requires ToksOk(ts)
    ensures '\0' !in Write(ts)
  {
    if ts != [] {
      WriteHasNoNul(ts[1..]);
      assert '\0' !in Text(ts[0]);
    }
  }

  /** A command that is written down, and run through the parser, comes out as it was. */
  method ParseWritten(t: Cmd<string>) returns (p: Parser, out: Out)
    requires Printable(t)
    ensures out.Parsed? && CStrings(p.buf[..], out.cmd) == t
  {
    LineOk(t);
    WriteHasNoNul(PrintLine(t));
    RoundTrip(t);
    p := new Parser(Write(PrintLine(t)));
    out := p.Parsecmd();
  }
}
