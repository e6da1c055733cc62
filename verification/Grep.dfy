/** The regular expression matcher of grep.c, against what its patterns mean. Strings are
    the characters before the NUL, so that *p == 0 is p == "". */
module Grep {
  // ----- what a pattern means ------------------------------------------------------------

  /** A character, and `.` for any, once or any number of times. */
  datatype Item = One(c: char) | Star(c: char)

  /** The items of a pattern after `^`, and whether it ends with the anchor `$`. */
  datatype Pattern = Pattern(items: seq<Item>, end: bool)

  /** `*` after a character makes it a Star; `$` is an anchor only as the last character. All
      other characters, `*`, `^` and `$` among them, stand for themselves. */
  function Parse(re: string): Pattern {
    if re == "" then Pattern([], false)
    else if |re| >= 2 && re[1] == '*' then Cons(Star(re[0]), Parse(re[2..]))
    else if re == "$" then Pattern([], true)
    else Cons(One(re[0]), Parse(re[1..]))
  }

  function Cons(it: Item, p: Pattern): Pattern {
    Pattern([it] + p.items, p.end)
  }

  predicate Accepts(c: char, x: char) {
    c == '.' || c == x
  }

  predicate AllAccepted(c: char, w: string) {
    forall i | 0 <= i < |w| :: Accepts(c, w[i])
  }

  predicate Fits(it: Item, w: string) {
    (it.One? ==> |w| == 1) && AllAccepted(it.c, w)
  }

  function Concat(parts: seq<string>): string {
    if parts == [] then "" else parts[0] + Concat(parts[1..])
  }

  predicate FitAll(items: seq<Item>, parts: seq<string>) {
    |parts| == |items| && forall i | 0 <= i < |items| :: Fits(items[i], parts[i])
  }

  /** w is in the language of the items: it can be cut into one part for each. */
  ghost predicate In(items: seq<Item>, w: string) {
    exists parts :: FitAll(items, parts) && Concat(parts) == w
  }

  /** text[i..j] matches, where the anchor `$`, if there is one, requires. */
  ghost predicate MatchAt(p: Pattern, text: string, i: int, j: int)
    requires 0 <= i <= j <= |text|
  {
    In(p.items, text[i..j]) && (p.end ==> j == |text|)
  }

  ghost predicate Here(p: Pattern, text: string) {
    exists j :: 0 <= j <= |text| && MatchAt(p, text, 0, j)
  }

  /** The pattern occurs in the text, at its start if it begins with `^`. */
  ghost predicate Occurs(re: string, text: string) {
    if re != "" && re[0] == '^' then Here(Parse(re[1..]), text)
    else exists i, j :: 0 <= i <= j <= |text| && MatchAt(Parse(re), text, i, j)
  }

  // ----- one item at a time ----------------------------------------------------------------

  lemma InNil(w: string)
    ensures In([], w) <==> w == ""
  {
    if w == "" {
      assert FitAll([], []) && Concat([]) == w;
    }
  }

  /** A word is in the language if a first part fits the first item and the rest the others. */
  lemma InSplit(it: Item, items: seq<Item>, w: string, k: int)
    requires 0 <= k <= |w| && Fits(it, w[..k]) && In(items, w[k..])
    ensures In([it] + items, w)
  {
    var parts :| FitAll(items, parts) && Concat(parts) == w[k..];
    var all := [w[..k]] + parts;
    assert all[1..] == parts && FitAll([it] + items, all);
    assert Concat(all) == w[..k] + w[k..] == w;
  }

  lemma InUnsplit(it: Item, items: seq<Item>, w: string) returns (k: int)
    requires In([it] + items, w)
    ensures 0 <= k <= |w| && Fits(it, w[..k]) && In(items, w[k..])
  {
    var all :| FitAll([it] + items, all) && Concat(all) == w;
    k := |all[0]|;
    assert w == all[0] + Concat(all[1..]) && w[..k] == all[0] && w[k..] == Concat(all[1..]);
    assert FitAll(items, all[1..]) by {
      forall i | 0 <= i < |items| ensures Fits(items[i], all[1..][i]) {
        assert ([it] + items)[i + 1] == items[i];
      }
    }
  }

  /** The same for a match at the start of a text. */
  lemma HereSplit(it: Item, p: Pattern, text: string, k: int)
    requires 0 <= k <= |text| && Fits(it, text[..k]) && Here(p, text[k..])
    ensures Here(Cons(it, p), text)
  {
    var j :| 0 <= j <= |text[k..]| && MatchAt(p, text[k..], 0, j);
    var w := text[0..k + j];
    assert w[..k] == text[..k] && w[k..] == text[k..][0..j];
    InSplit(it, p.items, w, k);
    assert MatchAt(Cons(it, p), text, 0, k + j);
  }

  lemma HereUnsplit(it: Item, p: Pattern, text: string) returns (k: int)
    requires Here(Cons(it, p), text)
    ensures 0 <= k <= |text| && Fits(it, text[..k]) && Here(p, text[k..])
  {
    var j :| 0 <= j <= |text| && MatchAt(Cons(it, p), text, 0, j);
    var w := text[0..j];
    k := InUnsplit(it, p.items, w);
    assert w[..k] == text[..k];
    assert w[k..] == text[k..j] == text[k..][0..j - k];
    assert MatchAt(p, text[k..], 0, j - k);
  }

  lemma HereNil(text: string, end: bool)
    ensures Here(Pattern([], end), text) <==> !end || text == ""
  {
    InNil(text[0..0]);
    assert MatchAt(Pattern([], end), text, 0, 0) <==> end ==> text == "";
    forall j | 0 <= j <= |text| ensures MatchAt(Pattern([], end), text, 0, j) ==> j == 0 {
      InNil(text[0..j]);
    }
  }

  lemma HereOne(c: char, p: Pattern, text: string)
    ensures Here(Cons(One(c), p), text) <==> text != "" && Accepts(c, text[0]) && Here(p, text[1..])
  {
    if Here(Cons(One(c), p), text) {
      var k := HereUnsplit(One(c), p, text);
      assert text[..k][0] == text[0];
    }
    if text != "" && Accepts(c, text[0]) && Here(p, text[1..]) {
      HereSplit(One(c), p, text, 1);
    }
  }

  lemma AcceptedAt(c: char, text: string, i: int, k: int)
    requires 0 <= i <= |text| && 0 <= k && AllAccepted(c, text[..i])
    ensures k < i ==> Accepts(c, text[k])
  {
    if k < i {
      assert text[..i][k] == text[k];
    }
  }

  /** What follows a starred item begins no later than the first character that does not fit. */
  lemma StarEnds(c: char, p: Pattern, text: string, k: int) returns (i: int)
    requires Here(Cons(Star(c), p), text) && 0 <= k <= |text| && (k == |text| || !Accepts(c, text[k]))
    ensures 0 <= i <= k && Here(p, text[i..])
  {
    i := HereUnsplit(Star(c), p, text);
    AcceptedAt(c, text, i, k);
  }

  // ----- the code ----------------------------------------------------------------------------

  /** matchhere: re at the beginning of text. */
  method Matchhere(re: string, text: string) returns (r: bool)
    ensures r <==> Here(Parse(re), text)
    decreases |re|, 0
  {
    if re == "" {
      HereNil(text, false);
      return true;
    }
    if |re| >= 2 && re[1] == '*' {
      r := Matchstar(re[0], re[2..], text);
      return;
    }
    if re[0] == '$' && |re| == 1 {
      assert re == "$";
      HereNil(text, true);
      return text == "";
    }
    assert re != "$";
    HereOne(re[0], Parse(re[1..]), text);
    if text != "" && (re[0] == '.' || re[0] == text[0]) {
      r := Matchhere(re[1..], text[1..]);
      return;
    }
    return false;
  }

  /** matchstar: any number of c and then re at the beginning of text. */
  method Matchstar(c: char, re: string, text: string) returns (r: bool)
    ensures r <==> Here(Cons(Star(c), Parse(re)), text)
    decreases |re|, 1
  {
    var k := 0;
    while true
      invariant 0 <= k <= |text| && AllAccepted(c, text[..k])
      invariant forall i | 0 <= i < k :: !Here(Parse(re), text[i..])
      decreases |text| - k
    {
      r := Matchhere(re, text[k..]);
      if r {
        HereSplit(Star(c), Parse(re), text, k);
        return;
      }
      if k == |text| || !(text[k] == c || c == '.') {
        break;
      }
      k := k + 1;
    }
    if Here(Cons(Star(c), Parse(re)), text) {
      ghost var i := StarEnds(c, Parse(re), text, k);
    }
    return false;
  }

  /** match: whether the pattern occurs in the text. */
  method Match(re: string, text: string) returns (r: bool)
    ensures r <==> Occurs(re, text)
  {
    if re != "" && re[0] == '^' {
      r := Matchhere(re[1..], text);
      return;
    }
    var i := 0;
    while true
      invariant 0 <= i <= |text|
      invariant forall x | 0 <= x < i :: !Here(Parse(re), text[x..])
      decreases |text| - i
    {
      r := Matchhere(re, text[i..]);
      if r {
        ghost var j :| 0 <= j <= |text[i..]| && MatchAt(Parse(re), text[i..], 0, j);
        assert text[i..][0..j] == text[i..i + j];
        assert MatchAt(Parse(re), text, i, i + j);
        return;
      }
      if i == |text| {
        break;
      }
      i := i + 1;
    }
    forall x, y | 0 <= x <= y <= |text| ensures !MatchAt(Parse(re), text, x, y) {
      assert text[x..][0..y - x] == text[x..y];
      assert MatchAt(Parse(re), text, x, y) ==> MatchAt(Parse(re), text[x..], 0, y - x);
      assert !Here(Parse(re), text[x..]);
    }
    return false;
  }
}
