/** What a command line means, said without a parser: how characters make tokens, tokens make
    command lines, and command lines make commands. The parser of sh.c accepts exactly these. */
module ShellGrammar {
  import opened Shell

  // ----- the language --------------------------------------------------------------------------

  /** An argument, or a redirection; arguments and redirections may come in any order. */
  datatype Item = Arg(w: string) | To(op: char, file: string)

  datatype Elem = Plain(items: seq<Item>) | Block(line: Line, redirs: seq<Item>)

  datatype Pipes = One(e: Elem) | Bar(e: Elem, more: Pipes)

  datatype Line = Last(p: Pipes, amps: nat) | Semi(p: Pipes, amps: nat, more: Line)

  function ItemToks(i: Item): seq<Tok> {
    match i
    case Arg(w) => [Word(w)]
    case To(op, file) => [Sym(op), Word(file)]
  }

  function ItemsToks(items: seq<Item>): seq<Tok> {
    if items == [] then [] else ItemToks(items[0]) + ItemsToks(items[1..])
  }

  function ElemToks(e: Elem): seq<Tok> {
    match e
    case Plain(items) => ItemsToks(items)
    case Block(l, redirs) => [Sym('(')] + LineToks(l) + [Sym(')')] + ItemsToks(redirs)
  }

  function PipesToks(p: Pipes): seq<Tok> {
    match p
    case One(e) => ElemToks(e)
    case Bar(e, more) => ElemToks(e) + [Sym('|')] + PipesToks(more)
  }

  function Ampersands(n: nat): seq<Tok> {
    if n == 0 then [] else [Sym('&')] + Ampersands(n - 1)
  }

  function LineToks(l: Line): seq<Tok> {
    match l
    case Last(p, n) => PipesToks(p) + Ampersands(n)
    case Semi(p, n, more) => PipesToks(p) + Ampersands(n) + [Sym(';')] + LineToks(more)
  }

  /** At most MAXARGS - 1 arguments, and only redirections after a block. */
  predicate ElemFits(e: Elem) {
    match e
    case Plain(items) => ItemsFit(items) && |ArgsOf(items)| < MAXARGS
    case Block(l, redirs) => Fits(l) && AllTo(redirs)
  }

  predicate ItemFits(i: Item) { i.To? ==> i.op in "<>+" }

  predicate ItemsFit(items: seq<Item>) {
    forall i | 0 <= i < |items| :: ItemFits(items[i])
  }

  predicate AllTo(items: seq<Item>) {
    forall i | 0 <= i < |items| :: items[i].To? && ItemFits(items[i])
  }

  predicate PipesFit(p: Pipes) {
    match p
    case One(e) => ElemFits(e)
    case Bar(e, more) => ElemFits(e) && PipesFit(more)
  }

  predicate Fits(l: Line) {
    match l
    case Last(p, _) => PipesFit(p)
    case Semi(p, _, more) => PipesFit(p) && Fits(more)
  }

  // ----- what it means -------------------------------------------------------------------------

  function ArgsOf(items: seq<Item>): seq<string> {
    if items == [] then []
    else ArgsOf(items[..|items| - 1]) + match items[|items| - 1] { case Arg(w) => [w] case To(_, _) => [] }
  }

  /** What open is to do: create what is written to, and empty it for `>`. */
  function Flags(op: char): int {
    (if op == '<' then 0 else 0x201) + (if op == '>' then 0x400 else 0)
  }

  /** Standard input or standard output. */
  function Stream(op: char): int {
    if op == '<' then 0 else 1
  }

  /** The redirections among the items around c, the first one innermost. */
  function Around(c: Cmd<string>, items: seq<Item>): Cmd<string> {
    if items == [] then c
    else
      var d := Around(c, items[..|items| - 1]);
      match items[|items| - 1]
      case Arg(_) => d
      case To(op, file) => Redir(d, file, Flags(op), Stream(op))
  }

  function ElemCmd(e: Elem): Cmd<string> {
    match e
    case Plain(items) => Around(Exec(ArgsOf(items)), items)
    case Block(l, redirs) => Around(LineCmd(l), redirs)
  }

  function PipesCmd(p: Pipes): Cmd<string> {
    match p
    case One(e) => ElemCmd(e)
    case Bar(e, more) => Pipe(ElemCmd(e), PipesCmd(more))
  }

  function InBack(c: Cmd<string>, n: nat): Cmd<string> {
    if n == 0 then c else Back(InBack(c, n - 1))
  }

  function LineCmd(l: Line): Cmd<string> {
    match l
    case Last(p, n) => InBack(PipesCmd(p), n)
    case Semi(p, n, more) => List(InBack(PipesCmd(p), n), LineCmd(more))
  }

  // ----- a redirection and an argument -----------------------------------------------------------

  lemma ReadRedir(c: Cmd<string>, op: char, f: string, r: seq<Tok>)
    requires op in "<>+"
    ensures ParseArgs(c, [Sym(op), Word(f)] + r) == ParseArgs(Redir(c, f, Mode(op), Fd(op)), r)
    ensures ParseRedirs(c, [Sym(op), Word(f)] + r) == ParseRedirs(Redir(c, f, Mode(op), Fd(op)), r)
    ensures Mode(op) == Flags(op) && Fd(op) == Stream(op)
  {
    OneRedir(c, f, op, r);
  }

  lemma ReadArg(c: Cmd<string>, w: string, r: seq<Tok>)
    requires Argc(c) + 1 < MAXARGS
    ensures ParseArgs(c, [Word(w)] + r) == ParseArgs(AddArg(c, w), r)
  {
    assert ([Word(w)] + r)[1..] == r;
  }

  lemma Regrouped(x: Tok, y: Tok, z: Tok, r: seq<Tok>)
    ensures [x, y, z] + r == [x, y] + ([z] + r) && [x, y, z] + r == [x] + ([y, z] + r)
  {}

  /** A redirection may stand before or after an argument. */
  lemma RedirAnywhere(c: Cmd<string>, op: char, f: string, w: string, r: seq<Tok>)
    requires op in "<>+"
    ensures ParseArgs(c, [Sym(op), Word(f), Word(w)] + r) == ParseArgs(c, [Word(w), Sym(op), Word(f)] + r)
  {
    var d := Redir(c, f, Mode(op), Fd(op));
    Regrouped(Sym(op), Word(f), Word(w), r);
    Regrouped(Word(w), Sym(op), Word(f), r);
    ReadRedir(c, op, f, [Word(w)] + r);
    if Argc(c) + 1 < MAXARGS {
      ReadArg(d, w, r);
      ReadArg(c, w, [Sym(op), Word(f)] + r);
      ReadRedir(AddArg(c, w), op, f, r);
    }
  }

  // ----- every line of the language is read as what it means ------------------------------------

  lemma {:induction false} ArgInside(a: seq<string>, items: seq<Item>, w: string)
    ensures AddArg(Around(Exec(a), items), w) == Around(Exec(a + [w]), items)
    ensures Argc(Around(Exec(a), items)) == |a|
  {
    if items != [] {
      ArgInside(a, items[..|items| - 1], w);
    }
  }

  /** One more item, as the parser reads it. */
  lemma NextItem(items: seq<Item>, i: Item, r: seq<Tok>)
    requires ItemFits(i) && |ArgsOf(items + [i])| < MAXARGS
    ensures ParseArgs(ElemCmd(Plain(items)), ItemToks(i) + r) == ParseArgs(ElemCmd(Plain(items + [i])), r)
  {
    assert (items + [i])[..|items|] == items;
    match i
    case Arg(w) =>
      ArgInside(ArgsOf(items), items, w);
      ReadArg(ElemCmd(Plain(items)), w, r);
    case To(op, f) =>
      assert ArgsOf(items + [i]) == ArgsOf(items);
      ReadRedir(ElemCmd(Plain(items)), op, f, r);
  }

  lemma NextRedir(c: Cmd<string>, items: seq<Item>, i: Item, r: seq<Tok>)
    requires i.To? && ItemFits(i)
    ensures ParseRedirs(Around(c, items), ItemToks(i) + r) == ParseRedirs(Around(c, items + [i]), r)
  {
    assert (items + [i])[..|items|] == items;
    ReadRedir(Around(c, items), i.op, i.file, r);
  }

  lemma {:induction false} FewerArgs(items: seq<Item>, more: seq<Item>)
    ensures ArgsOf(items + more) == ArgsOf(items) + ArgsOf(more)
  {
    if more == [] {
      assert items + more == items;
    } else {
      var k := |more| - 1;
      assert (items + more)[..|items| + k] == items + more[..k];
      FewerArgs(items, more[..k]);
    }
  }

  lemma Assoc(a: seq<Tok>, b: seq<Tok>, c: seq<Tok>)
    ensures (a + b) + c == a + (b + c)
  {}

  lemma Regroup(items: seq<Item>, i: Item, more: seq<Item>, r: seq<Tok>)
    ensures items + ([i] + more) == (items + [i]) + more
    ensures ItemsToks([i] + more) + r == ItemToks(i) + (ItemsToks(more) + r)
  {
    assert ([i] + more)[1..] == more;
    Assoc(ItemToks(i), ItemsToks(more), r);
  }

  lemma NoMore(items: seq<Item>, r: seq<Tok>)
    ensures items + [] == items && [] + items == items && ItemsToks([]) + r == r
  {}

  lemma NextOf(items: seq<Item>, more: seq<Item>, r: seq<Tok>)
    requires more != [] && ItemsFit(more) && |ArgsOf(items + more)| < MAXARGS
    ensures items + more == (items + [more[0]]) + more[1..] && ItemsFit(more[1..])
    ensures ParseArgs(ElemCmd(Plain(items)), ItemsToks(more) + r) ==
            ParseArgs(ElemCmd(Plain(items + [more[0]])), ItemsToks(more[1..]) + r)
  {
    var i, rest := more[0], more[1..];
    assert more == [i] + rest;
    Regroup(items, i, rest, r);
    FewerArgs(items + [i], rest);
    NextItem(items, i, ItemsToks(rest) + r);
  }

  /** Words and redirections in any order: the redirections, in order, around a command whose
      arguments are the words, in order. */
  lemma {:induction false} ItemsParse(items: seq<Item>, more: seq<Item>, r: seq<Tok>)
    requires ItemsFit(more) && |ArgsOf(items + more)| < MAXARGS && Stop(r, "|)&;")
    ensures ParseArgs(ElemCmd(Plain(items)), ItemsToks(more) + r) == Ok(ElemCmd(Plain(items + more)), r)
    decreases |more|
  {
    if more == [] {
      NoMore(items, r);
    } else {
      NextOf(items, more, r);
      ItemsParse(items + [more[0]], more[1..], r);
    }
  }

  lemma {:induction false} RedirsParse(c: Cmd<string>, items: seq<Item>, more: seq<Item>, r: seq<Tok>)
    requires AllTo(more) && !HeadIn(r, "<>+")
    ensures ParseRedirs(Around(c, items), ItemsToks(more) + r) == Ok(Around(c, items + more), r)
    decreases |more|
  {
    if more == [] {
      NoMore(items, r);
    } else {
      var i, rest := more[0], more[1..];
      assert more == [i] + rest;
      Regroup(items, i, rest, r);
      NextRedir(c, items, i, ItemsToks(rest) + r);
      RedirsParse(c, items + [i], rest, r);
    }
  }

  lemma BlockToks(l: Line, redirs: seq<Item>, r: seq<Tok>)
    ensures var after := [Sym(')')] + (ItemsToks(redirs) + r);
            && ElemToks(Block(l, redirs)) + r == [Sym('(')] + (LineToks(l) + after)
            && ([Sym('(')] + (LineToks(l) + after))[1..] == LineToks(l) + after
            && after[1..] == ItemsToks(redirs) + r
  {}

  lemma BlockParses(l: Line, redirs: seq<Item>, r: seq<Tok>)
    requires var after := [Sym(')')] + (ItemsToks(redirs) + r);
             ParseLine(LineToks(l) + after) == Ok(LineCmd(l), after)
    requires ParseRedirs(LineCmd(l), ItemsToks(redirs) + r) == Ok(ElemCmd(Block(l, redirs)), r)
    ensures ParseExec(ElemToks(Block(l, redirs)) + r) == Ok(ElemCmd(Block(l, redirs)), r)
  {
    BlockToks(l, redirs, r);
  }

  lemma PlainParses(items: seq<Item>, r: seq<Tok>)
    requires ElemFits(Plain(items)) && Stop(r, "|)&;")
    ensures ParseExec(ItemsToks(items) + r) == Ok(ElemCmd(Plain(items)), r)
  {
    NoMore(items, r);
    ItemsParse([], items, r);
    assert !HeadIn(ItemsToks(items) + r, "(") by {
      if items == [] {
        NoMore(items, r);
      } else {
        assert ItemFits(items[0]) && (ItemsToks(items) + r)[0] == ItemToks(items[0])[0];
      }
    }
  }

  lemma {:induction false} ElemParse(e: Elem, r: seq<Tok>)
    requires ElemFits(e) && Stop(r, "|)&;")
    ensures ParseExec(ElemToks(e) + r) == Ok(ElemCmd(e), r)
    decreases e
  {
    match e
    case Plain(items) =>
      PlainParses(items, r);
    case Block(l, redirs) =>
      LineReads(l, [Sym(')')] + (ItemsToks(redirs) + r));
      NoMore(redirs, r);
      RedirsParse(LineCmd(l), [], redirs, r);
      BlockParses(l, redirs, r);
  }

  lemma BarToks(e: Elem, more: Pipes, r: seq<Tok>)
    ensures var after := [Sym('|')] + (PipesToks(more) + r);
            PipesToks(Bar(e, more)) + r == ElemToks(e) + after && after[1..] == PipesToks(more) + r
  {}

  lemma {:induction false} PipesParse(p: Pipes, r: seq<Tok>)
    requires PipesFit(p) && Stop(r, ")&;")
    ensures ParsePipe(PipesToks(p) + r) == Ok(PipesCmd(p), r)
    decreases p
  {
    match p
    case One(e) =>
      ElemParse(e, r);
    case Bar(e, more) =>
      BarToks(e, more, r);
      ElemParse(e, [Sym('|')] + (PipesToks(more) + r));
      PipesParse(more, r);
  }

  lemma {:induction false} AmpersandsParse(c: Cmd<string>, k: nat, n: nat, r: seq<Tok>)
    requires !HeadIn(r, "&")
    ensures Backs(InBack(c, k), Ampersands(n) + r) == Ok(InBack(c, k + n), r)
    decreases n
  {
    if n == 0 {
      assert Ampersands(n) + r == r;
    } else {
      Assoc([Sym('&')], Ampersands(n - 1), r);
      AmpersandsParse(c, k + 1, n - 1, r);
    }
  }

  /** What follows the first pipeline of a line and its ampersands. */
  function After(l: Line, r: seq<Tok>): seq<Tok> {
    match l
    case Last(_, _) => r
    case Semi(_, _, more) => [Sym(';')] + (LineToks(more) + r)
  }

  lemma LineParts(l: Line, r: seq<Tok>)
    ensures LineToks(l) + r == PipesToks(l.p) + (Ampersands(l.amps) + After(l, r))
    ensures l.Semi? ==> After(l, r)[1..] == LineToks(l.more) + r
  {
    var p, a := PipesToks(l.p), Ampersands(l.amps);
    match l
    case Last(_, _) =>
      Assoc(p, a, r);
    case Semi(_, _, more) =>
      Assoc(p + a + [Sym(';')], LineToks(more), r);
      Assoc(p + a, [Sym(';')], LineToks(more) + r);
      Assoc(p, a, After(l, r));
  }

  lemma {:induction false} LineReads(l: Line, r: seq<Tok>)
    requires Fits(l) && Stop(r, ")")
    ensures ParseLine(LineToks(l) + r) == Ok(LineCmd(l), r)
    decreases l
  {
    var after := After(l, r);
    LineParts(l, r);
    PipesParse(l.p, Ampersands(l.amps) + after);
    AmpersandsParse(PipesCmd(l.p), 0, l.amps, after);
    if l.Semi? {
      LineReads(l.more, r);
    }
  }

  // ----- and whatever is read is such a line ------------------------------------------------------

  /** The next redirection that is read. */
  lemma RedirFound(c: Cmd<string>, items: seq<Item>, ts: seq<Tok>, p: Res) returns (i: Item, rest: seq<Tok>)
    requires HeadIn(ts, "<>+") && p == ParseRedirs(Around(c, items), ts) && p.Ok?
    ensures ts == ItemToks(i) + rest && |rest| < |ts| && i.To? && ItemFits(i)
    ensures p == ParseRedirs(Around(c, items + [i]), rest)
  {
    i, rest := To(ts[0].c, ts[1].w), ts[2..];
    assert ts == ItemToks(i) + rest;
    NextRedir(c, items, i, rest);
  }

  lemma HeadSplit(ts: seq<Tok>, c: char)
    requires ts != [] && ts[0] == Sym(c)
    ensures ts == [Sym(c)] + ts[1..]
  {}

  lemma OneMore(c: Cmd<string>, items: seq<Item>, i: Item, found: seq<Item>, ts: seq<Tok>, rest: seq<Tok>, p: Res)
    requires i.To? && ItemFits(i) && AllTo(found) && ts == ItemToks(i) + rest
    requires p.Ok? && rest == ItemsToks(found) + p.rest && p.cmd == Around(c, items + [i] + found)
    ensures AllTo([i] + found) && ts == ItemsToks([i] + found) + p.rest && p.cmd == Around(c, items + ([i] + found))
  {
    Regroup(items, i, found, p.rest);
  }

  lemma {:induction false} RedirsFound(c: Cmd<string>, items: seq<Item>, ts: seq<Tok>, p: Res)
    returns (more: seq<Item>)
    requires p == ParseRedirs(Around(c, items), ts) && p.Ok?
    ensures AllTo(more) && ts == ItemsToks(more) + p.rest && p.cmd == Around(c, items + more)
    decreases |ts|
  {
    if HeadIn(ts, "<>+") {
      var i, rest := RedirFound(c, items, ts, p);
      var found := RedirsFound(c, items + [i], rest, p);
      OneMore(c, items, i, found, ts, rest, p);
      more := [i] + found;
    } else {
      more := [];
      NoMore(items, ts);
    }
  }

  /** The next word or redirection that is read. */
  lemma ItemFound(items: seq<Item>, ts: seq<Tok>) returns (i: Item, rest: seq<Tok>)
    requires !Stop(ts, "|)&;") && ParseArgs(ElemCmd(Plain(items)), ts).Ok? && |ArgsOf(items)| < MAXARGS
    ensures ts == ItemToks(i) + rest && |rest| < |ts| && ItemFits(i) && |ArgsOf(items + [i])| < MAXARGS
    ensures ParseArgs(ElemCmd(Plain(items)), ts) == ParseArgs(ElemCmd(Plain(items + [i])), rest)
  {
    ArgInside(ArgsOf(items), items, "");
    if ts[0].Word? {
      i, rest := Arg(ts[0].w), ts[1..];
    } else {
      i, rest := To(ts[0].c, ts[1].w), ts[2..];
    }
    assert (items + [i])[..|items|] == items && ts == ItemToks(i) + rest;
    NextItem(items, i, rest);
  }

  lemma FitsMore(i: Item, more: seq<Item>)
    requires ItemFits(i) && ItemsFit(more)
    ensures ItemsFit([i] + more)
  {}

  lemma {:induction false} ItemsFound(items: seq<Item>, ts: seq<Tok>, p: Res) returns (more: seq<Item>)
    requires |ArgsOf(items)| < MAXARGS && p == ParseArgs(ElemCmd(Plain(items)), ts) && p.Ok?
    ensures ItemsFit(more) && |ArgsOf(items + more)| < MAXARGS
    ensures ts == ItemsToks(more) + p.rest && p.cmd == ElemCmd(Plain(items + more))
    decreases |ts|
  {
    if Stop(ts, "|)&;") {
      more := [];
      NoMore(items, ts);
    } else {
      var i, rest := ItemFound(items, ts);
      var found := ItemsFound(items + [i], rest, p);
      Regroup(items, i, found, p.rest);
      more := [i] + found;
      FitsMore(i, found);
    }
  }

  lemma {:induction false} ElemFound(ts: seq<Tok>, p: Res) returns (e: Elem)
    requires p == ParseExec(ts) && p.Ok?
    ensures ElemFits(e) && ts == ElemToks(e) + p.rest && p.cmd == ElemCmd(e)
    decreases |ts|, 0
  {
    if HeadIn(ts, "(") {
      var inner := ParseLine(ts[1..]);
      var l := LineFound(ts[1..], inner);
      var redirs := RedirsFound(inner.cmd, [], inner.rest[1..], p);
      NoMore(redirs, []);
      e := Block(l, redirs);
      HeadSplit(ts, '(');
      HeadSplit(inner.rest, ')');
      BlockToks(l, redirs, p.rest);
    } else {
      var items := ItemsFound([], ts, p);
      NoMore(items, []);
      e := Plain(items);
    }
  }

  lemma {:induction false} PipesFound(ts: seq<Tok>, p: Res) returns (q: Pipes)
    requires p == ParsePipe(ts) && p.Ok?
    ensures PipesFit(q) && ts == PipesToks(q) + p.rest && p.cmd == PipesCmd(q)
    decreases |ts|, 1
  {
    var first := ParseExec(ts);
    var e := ElemFound(ts, first);
    if HeadIn(first.rest, "|") {
      var more := PipesFound(first.rest[1..], ParsePipe(first.rest[1..]));
      q := Bar(e, more);
      HeadSplit(first.rest, '|');
      BarToks(e, more, p.rest);
    } else {
      q := One(e);
    }
  }

  lemma {:induction false} AmpersandsFound(c: Cmd<string>, k: nat, ts: seq<Tok>) returns (n: nat)
    ensures ts == Ampersands(n) + Backs(InBack(c, k), ts).rest && Backs(InBack(c, k), ts).cmd == InBack(c, k + n)
    decreases |ts|
  {
    if HeadIn(ts, "&") {
      n := AmpersandsFound(c, k + 1, ts[1..]);
      n := n + 1;
    } else {
      n := 0;
    }
  }

  /** Where the rest of a line begins. */
  lemma LineSplit(ts: seq<Tok>, p: Res, first: Res, b: Res)
    requires p == ParseLine(ts) && p.Ok? && first == ParsePipe(ts) && first.Ok? && b == Backs(first.cmd, first.rest)
    ensures p == EndLine(b.cmd, b.rest) && |b.rest| <= |ts|
  {}

  lemma EndSplit(c: Cmd<string>, ts: seq<Tok>, p: Res)
    requires p == EndLine(c, ts) && p.Ok?
    ensures if HeadIn(ts, ";") then
              var more := ParseLine(ts[1..]);
              more.Ok? && p == Ok(List(c, more.cmd), more.rest) && ts == [Sym(';')] + ts[1..]
            else p == Ok(c, ts)
  {
    if HeadIn(ts, ";") {
      HeadSplit(ts, ';');
    }
  }

  lemma {:induction false} HeadFound(ts: seq<Tok>, p: Res) returns (q: Pipes, n: nat, b: Res)
    requires p == ParseLine(ts) && p.Ok?
    ensures PipesFit(q) && b.Ok? && |b.rest| <= |ts| && ts == PipesToks(q) + (Ampersands(n) + b.rest)
    ensures b.cmd == InBack(PipesCmd(q), n) && p == EndLine(b.cmd, b.rest)
    decreases |ts|, 2
  {
    var first := ParsePipe(ts);
    q := PipesFound(ts, first);
    n := AmpersandsFound(PipesCmd(q), 0, first.rest);
    b := Backs(first.cmd, first.rest);
    LineSplit(ts, p, first, b);
  }

  lemma JoinSemi(q: Pipes, n: nat, more: Line, ts: seq<Tok>, rest: seq<Tok>, r: seq<Tok>)
    requires ts == PipesToks(q) + (Ampersands(n) + ([Sym(';')] + rest)) && rest == LineToks(more) + r
    ensures ts == LineToks(Semi(q, n, more)) + r
  {
    LineParts(Semi(q, n, more), r);
  }

  lemma {:induction false} LineFound(ts: seq<Tok>, p: Res) returns (l: Line)
    requires p == ParseLine(ts) && p.Ok?
    ensures Fits(l) && ts == LineToks(l) + p.rest && p.cmd == LineCmd(l)
    decreases |ts|, 3
  {
    var q, n, b := HeadFound(ts, p);
    EndSplit(b.cmd, b.rest, p);
    if HeadIn(b.rest, ";") {
      var rest := b.rest[1..];
      var more := LineFound(rest, ParseLine(rest));
      JoinSemi(q, n, more, ts, rest, p.rest);
      l := Semi(q, n, more);
    } else {
      l := Last(q, n);
      LineParts(l, p.rest);
    }
  }

  predicate Means(l: Line, ts: seq<Tok>, c: Cmd<string>) {
    Fits(l) && LineToks(l) == ts && LineCmd(l) == c
  }

  /** Exactly the lines of the language are read, each as what it means. */
  lemma ParseLineIff(ts: seq<Tok>, c: Cmd<string>)
    ensures ParseLine(ts) == Ok(c, []) <==> exists l :: Means(l, ts, c)
  {
    if ParseLine(ts) == Ok(c, []) {
      var l := LineFound(ts, Ok(c, []));
      assert Means(l, ts, c);
    }
    forall l | Means(l, ts, c) ensures ParseLine(ts) == Ok(c, []) {
      LineReads(l, []);
      assert LineToks(l) + [] == LineToks(l);
    }
  }

  // ----- characters ----------------------------------------------------------------------------

  predicate Gap(g: string) {
    forall i | 0 <= i < |g| :: g[i] in " \t\r\n\U{000B}"
  }

  predicate Letter(c: char) {
    c !in " \t\r\n\U{000B}<|>&;()\0"
  }

  predicate Spelt(t: Tok) {
    match t
    case Word(w) => w != "" && forall i | 0 <= i < |w| :: Letter(w[i])
    case Sym(c) => c in "<|>&;()+"
  }

  /** These two tokens stay two with nothing between them. */
  predicate MayTouch(a: Tok, b: Tok) {
    !(a.Word? && b.Word?) && !(a == Sym('>') && (b == Sym('>') || b == Sym('+')))
  }

  predicate Proper(gaps: seq<string>, ts: seq<Tok>) {
    && |gaps| == |ts| + 1 && (forall i | 0 <= i < |gaps| :: Gap(gaps[i]))
    && (forall i | 0 <= i < |ts| :: Spelt(ts[i]))
    && forall i | 0 < i < |ts| :: gaps[i] == "" ==> MayTouch(ts[i - 1], ts[i])
  }

  /** The tokens with gaps before, between and after them. */
  function Spell(gaps: seq<string>, ts: seq<Tok>): string
    requires |gaps| == |ts| + 1
  {
    if ts == [] then gaps[0] else gaps[0] + (Text(ts[0]) + Spell(gaps[1..], ts[1..]))
  }

  lemma {:induction false} SkipGap(g: string, s: string)
    requires Gap(g)
    ensures Skip(g + s) == Skip(s) && Lex(g + s) == Lex(s)
  {
    if g == "" {
      assert g + s == s;
    } else {
      assert (g + s)[1..] == g[1..] + s;
      SkipGap(g[1..], s);
    }
  }

  lemma {:induction false} WordEnds(w: string, s: string)
    requires (forall i | 0 <= i < |w| :: Letter(w[i])) && (s == "" || Delim(s[0]))
    ensures WordLen(w + s) == |w|
  {
    if w == "" {
      assert w + s == s;
    } else {
      assert (w + s)[1..] == w[1..] + s;
      WordEnds(w[1..], s);
    }
  }

  /** The first character of what follows a token. */
  lemma SpellHead(gaps: seq<string>, ts: seq<Tok>)
    requires Proper(gaps, ts)
    ensures var s := Spell(gaps, ts);
            && (gaps[0] != "" ==> s != "" && s[0] in " \t\r\n\U{000B}")
            && (gaps[0] == "" && ts == [] ==> s == "")
            && (gaps[0] == "" && ts != [] ==> s != "" && s[0] == Text(ts[0])[0])
  {
    assert ts != [] ==> Spelt(ts[0]);
  }

  lemma WordFirst(w: string, s: string)
    requires Spelt(Word(w)) && (s == "" || Delim(s[0]))
    ensures var u := w + s; u != "" && !Blank(u[0]) && Len(u) == |w| && First(u) == Word(w)
  {
    var u := w + s;
    assert u[0] == w[0] && Letter(w[0]) && u[..|w|] == w;
    WordEnds(w, s);
  }

  lemma SymFirst(c: char, s: string)
    requires Spelt(Sym(c)) && (c == '>' ==> s == "" || s[0] != '>')
    ensures var u := Text(Sym(c)) + s; u != "" && !Blank(u[0]) && Len(u) == |Text(Sym(c))| && First(u) == Sym(c)
  {
    var u := Text(Sym(c)) + s;
    assert u[0] == if c == '+' then '>' else c;
    assert c != '+' && s != "" ==> u[1] == s[0];
  }

  lemma TokenFirst(t: Tok, s: string)
    requires Spelt(t) && (t.Word? ==> s == "" || Delim(s[0])) && (t == Sym('>') ==> s == "" || s[0] != '>')
    ensures Lex(Text(t) + s) == [t] + Lex(s)
  {
    match t {
      case Word(w) => WordFirst(w, s);
      case Sym(c) => SymFirst(c, s);
    }
    assert (Text(t) + s)[|Text(t)|..] == s;
  }

  lemma Apart(gaps: seq<string>, ts: seq<Tok>)
    requires Proper(gaps, ts) && ts != []
    ensures Proper(gaps[1..], ts[1..]) && Spelt(ts[0])
    ensures var s := Spell(gaps[1..], ts[1..]);
            && (ts[0].Word? ==> s == "" || Delim(s[0]))
            && (ts[0] == Sym('>') ==> s == "" || s[0] != '>')
  {
    assert gaps[1..][0] == gaps[1] && (|ts| > 1 ==> ts[1..][0] == ts[1]);
    assert |ts| > 1 ==> (gaps[1] == "" ==> MayTouch(ts[0], ts[1]));
    SpellHead(gaps[1..], ts[1..]);
    assert |ts| > 1 ==> Spelt(ts[1]);
  }

  lemma {:induction false} SpellLex(gaps: seq<string>, ts: seq<Tok>)
    requires Proper(gaps, ts)
    ensures Lex(Spell(gaps, ts)) == ts
  {
    if ts == [] {
      assert gaps[0] + "" == gaps[0];
      SkipGap(gaps[0], "");
    } else {
      var g, s := gaps[1..], Spell(gaps[1..], ts[1..]);
      Apart(gaps, ts);
      SkipGap(gaps[0], Text(ts[0]) + s);
      TokenFirst(ts[0], s);
      SpellLex(g, ts[1..]);
    }
  }

  lemma {:induction false} LeadingGap(s: string) returns (g: string)
    ensures Gap(g) && s == g + Skip(s)
  {
    if s != "" && Blank(s[0]) {
      var h := LeadingGap(s[1..]);
      g := [s[0]] + h;
    } else {
      g := "";
    }
  }

  lemma {:induction false} WordLetters(t: string)
    requires '\0' !in t
    ensures forall i | 0 <= i < WordLen(t) :: Letter(t[i])
    ensures WordLen(t) < |t| ==> Delim(t[WordLen(t)])
  {
    if t != "" && !Delim(t[0]) {
      WordLetters(t[1..]);
    }
  }

  /** Where the first token ends. */
  lemma TokenCut(t: string)
    requires t != "" && !Blank(t[0]) && '\0' !in t
    ensures var u := t[Len(t)..];
            && Spelt(First(t)) && t == Text(First(t)) + u
            && (First(t).Word? ==> u == "" || Delim(u[0])) && (First(t) == Sym('>') ==> u == "" || u[0] != '>')
  {
    WordLetters(t);
  }

  lemma StaysProper(g: string, gaps: seq<string>, t: Tok, ts: seq<Tok>)
    requires Gap(g) && Spelt(t) && Proper(gaps, ts)
    requires var s := Spell(gaps, ts);
             && (t.Word? ==> s == "" || Delim(s[0])) && (t == Sym('>') ==> s == "" || s[0] != '>')
    ensures Proper([g] + gaps, [t] + ts)
  {
    SpellHead(gaps, ts);
    var all, toks := [g] + gaps, [t] + ts;
    forall i | 0 < i < |toks| && all[i] == "" ensures MayTouch(toks[i - 1], toks[i]) {
      assert toks[i] == ts[i - 1] && all[i] == gaps[i - 1] && Spelt(ts[i - 1]);
      if i > 1 {
        assert MayTouch(ts[i - 2], ts[i - 1]);
      }
    }
  }

  /** Every input without a NUL is a spelling of its tokens. */
  lemma {:induction false} GapsFound(s: string) returns (gaps: seq<string>)
    requires '\0' !in s
    ensures Proper(gaps, Lex(s)) && Spell(gaps, Lex(s)) == s
    decreases |s|
  {
    var g := LeadingGap(s);
    var t := Skip(s);
    if t == "" {
      gaps := [g];
    } else {
      var u := t[Len(t)..];
      var more := GapsFound(u);
      gaps := [g] + more;
      TokenCut(t);
      assert gaps[1..] == more && Lex(s)[1..] == Lex(u);
      StaysProper(g, more, First(t), Lex(u));
    }
  }

  ghost predicate Spells(s: string, ts: seq<Tok>) {
    exists gaps :: Proper(gaps, ts) && Spell(gaps, ts) == s
  }

  /** The tokens of an input are exactly those that it spells. */
  lemma LexIff(s: string, ts: seq<Tok>)
    requires '\0' !in s
    ensures Lex(s) == ts <==> Spells(s, ts)
  {
    var gaps := GapsFound(s);
    forall h | Proper(h, ts) && Spell(h, ts) == s ensures Lex(s) == ts {
      SpellLex(h, ts);
    }
  }

  // ----- command lines -------------------------------------------------------------------------

  ghost predicate Stands(l: Line, s: string) {
    Fits(l) && Spells(s, LineToks(l))
  }

  /** A command line is accepted exactly if it spells a line of the language, and then it is
      what that line means. */
  lemma ParseIff(s: string)
    requires '\0' !in s
    ensures Parse(s).Ok? <==> exists l :: Stands(l, s)
    ensures forall l | Stands(l, s) :: Parse(s) == Ok(LineCmd(l), [])
  {
    forall l | Stands(l, s) ensures Parse(s) == Ok(LineCmd(l), []) {
      LexIff(s, LineToks(l));
      assert Means(l, Lex(s), LineCmd(l));
      ParseLineIff(Lex(s), LineCmd(l));
    }
    if Parse(s).Ok? {
      var l := LineFound(Lex(s), ParseLine(Lex(s)));
      assert LineToks(l) + [] == LineToks(l);
      LexIff(s, LineToks(l));
      assert Stands(l, s);
    }
  }

  lemma {:induction false} SkipAfter(s: string, b: string)
    requires Gap(b)
    ensures Skip(s + b) == if Skip(s) == "" then "" else Skip(s) + b
  {
    if s == "" {
      assert s + b == b + "";
      SkipGap(b, "");
    } else {
      assert (s + b)[1..] == s[1..] + b;
      SkipAfter(s[1..], b);
    }
  }

  lemma {:induction false} WordLenAfter(t: string, b: string)
    requires Gap(b)
    ensures WordLen(t + b) == WordLen(t)
  {
    if t == "" {
      assert t + b == b;
    } else {
      assert (t + b)[1..] == t[1..] + b;
      WordLenAfter(t[1..], b);
    }
  }

  lemma {:induction false} BlanksAfter(s: string, b: string)
    requires Gap(b)
    ensures Lex(s + b) == Lex(s)
    decreases |s|
  {
    var t := Skip(s);
    SkipAfter(s, b);
    if t != "" {
      var n := Len(t);
      WordLenAfter(t, b);
      assert Len(t + b) == n && (t + b)[..n] == t[..n] && (t + b)[n..] == t[n..] + b;
      BlanksAfter(t[n..], b);
    }
  }

  /** Blanks before and after a command line, such as the newline that gets gives, change nothing. */
  lemma BlanksAround(a: string, s: string, b: string)
    requires Gap(a) && Gap(b)
    ensures Parse(a + s + b) == Parse(s) && Parse(s + "\n") == Parse(s)
  {
    assert a + s + b == a + (s + b);
    SkipGap(a, s + b);
    BlanksAfter(s, b);
    BlanksAfter(s, "\n");
  }
}
