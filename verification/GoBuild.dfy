/** The `//go:build` evaluator: `backend/app/indexers/go_indexer.py`. */
module GoBuild {

  type Token = string

  // ----- Expressions and the tokens they print as -----

  /**
   * Build expressions by precedence: `!` binds tighter than `&&`, which binds tighter than `||`.
   * AndCut and OrCut are an operand followed by an operator with nothing after it. They are not
   * build expressions; the evaluator lets them through, see `EvaluatesIffReadable`.
   */
  datatype Expr =
    | Tag(name: Token)
    | Paren(inner: Expr)
    | Not(arg: Expr)
    | And(left: Expr, right: Expr)
    | Or(left: Expr, right: Expr)
    | AndCut(left: Expr)
    | OrCut(left: Expr)

  predicate IsTagToken(tok: Token) {
    tok != "(" && tok != ")" && tok != "!" && tok != "&&" && tok != "||"
  }

  /** How loosely the outermost operator binds. */
  function Level(e: Expr): nat {
    match e
    case Tag(_) | Paren(_) | Not(_) => 0
    case And(_, _) | AndCut(_) => 1
    case Or(_, _) | OrCut(_) => 2
  }

  /** Written with the parentheses the precedences need. */
  predicate IsOr(e: Expr) {
    match e
    case Tag(name) => IsTagToken(name)
    case Paren(inner) => IsOr(inner)
    case Not(arg) => IsOr(arg) && Level(arg) == 0
    case And(left, right) => IsOr(left) && IsOr(right) && Level(left) <= 1 && Level(right) == 0
    case Or(left, right) => IsOr(left) && IsOr(right) && Level(right) <= 1
    case AndCut(left) => IsOr(left) && Level(left) <= 1
    case OrCut(left) => IsOr(left)
  }

  predicate IsAnd(e: Expr) {
    IsOr(e) && Level(e) <= 1
  }

  predicate IsUnary(e: Expr) {
    IsOr(e) && Level(e) == 0
  }

  /** No operator lacks its right operand. */
  predicate Complete(e: Expr) {
    match e
    case Tag(_) => true
    case Paren(inner) => Complete(inner)
    case Not(arg) => Complete(arg)
    case And(left, right) => Complete(left) && Complete(right)
    case Or(left, right) => Complete(left) && Complete(right)
    case _ => false
  }

  /** A build expression as the Go command documents it. */
  predicate IsBuildExpr(e: Expr) {
    IsOr(e) && Complete(e)
  }

  function Print(e: Expr): (tokens: seq<Token>)
    ensures tokens != []
  {
    match e
    case Tag(name) => [name]
    case Paren(inner) => ["("] + Print(inner) + [")"]
    case Not(arg) => ["!"] + Print(arg)
    case And(left, right) => Print(left) + ["&&"] + Print(right)
    case Or(left, right) => Print(left) + ["||"] + Print(right)
    case AndCut(left) => Print(left) + ["&&"]
    case OrCut(left) => Print(left) + ["||"]
  }

  // ----- Meaning -----

  function EvalTag(tag: Token, tags: set<Token>): bool {
    if tag == "" then false else
      var negated := tag[0] == '!';
      var name := if negated then tag[1..] else tag;
      var result := if name == "true" then true else if name == "false" then false else name in tags;
      if negated then !result else result
  }

  function Value(e: Expr, tags: set<Token>): bool {
    match e
    case Tag(name) => EvalTag(name, tags)
    case Paren(inner) => Value(inner, tags)
    case Not(arg) => !Value(arg, tags)
    case And(left, right) => Value(left, tags) && Value(right, tags)
    case Or(left, right) => Value(left, tags) || Value(right, tags)
    case AndCut(_) => false
    case OrCut(_) => true
  }

  /**
   * No `&&` is reached with a false left operand that still has a right operand to read, and no
   * `||` with a true one.
   */
  predicate Readable(e: Expr, tags: set<Token>) {
    match e
    case Tag(_) => true
    case Paren(inner) => Readable(inner, tags)
    case Not(arg) => Readable(arg, tags)
    case And(left, right) => Readable(left, tags) && Value(left, tags) && Readable(right, tags)
    case Or(left, right) => Readable(left, tags) && !Value(left, tags) && Readable(right, tags)
    case AndCut(left) => Readable(left, tags) && !Value(left, tags)
    case OrCut(left) => Readable(left, tags) && Value(left, tags)
  }

  // ----- The evaluator as functions of the position -----

  datatype Outcome = Ok(val: bool, next: nat) | Raise

  predicate At(tokens: seq<Token>, i: nat, tok: Token) {
    i < |tokens| && tokens[i] == tok
  }

  function Primary(tokens: seq<Token>, tags: set<Token>, i: nat): (r: Outcome)
    requires i <= |tokens|
    ensures r.Ok? ==> i < r.next <= |tokens|
    decreases |tokens| - i, 0
  {
    if i == |tokens| then Raise
    else if tokens[i] == "(" then
      var r := OrLevel(tokens, tags, i + 1);
      if r.Raise? || !At(tokens, r.next, ")") then Raise else Ok(r.val, r.next + 1)
    else if tokens[i] in [")", "&&", "||"] then Raise
    else Ok(EvalTag(tokens[i], tags), i + 1)
  }

  function Unary(tokens: seq<Token>, tags: set<Token>, i: nat): (r: Outcome)
    requires i <= |tokens|
    ensures r.Ok? ==> i < r.next <= |tokens|
    decreases |tokens| - i, 1
  {
    if At(tokens, i, "!") then
      var r := Unary(tokens, tags, i + 1);
      if r.Raise? then Raise else Ok(!r.val, r.next)
    else Primary(tokens, tags, i)
  }

  function AndLevel(tokens: seq<Token>, tags: set<Token>, i: nat): (r: Outcome)
    requires i <= |tokens|
    ensures r.Ok? ==> i < r.next <= |tokens|
    decreases |tokens| - i, 2
  {
    var r := Unary(tokens, tags, i);
    if r.Raise? then Raise else AndLoop(tokens, tags, r.val, r.next)
  }

  /** The `&&` loop: with a false value the right operand is not read. */
  function AndLoop(tokens: seq<Token>, tags: set<Token>, val: bool, i: nat): (r: Outcome)
    requires i <= |tokens|
    ensures r.Ok? ==> i <= r.next <= |tokens|
    decreases |tokens| - i, 2
  {
    if !At(tokens, i, "&&") then Ok(val, i)
    else if !val then AndLoop(tokens, tags, false, i + 1)
    else
      var r := Unary(tokens, tags, i + 1);
      if r.Raise? then Raise else AndLoop(tokens, tags, r.val, r.next)
  }

  function OrLevel(tokens: seq<Token>, tags: set<Token>, i: nat): (r: Outcome)
    requires i <= |tokens|
    ensures r.Ok? ==> i < r.next <= |tokens|
    decreases |tokens| - i, 3
  {
    var r := AndLevel(tokens, tags, i);
    if r.Raise? then Raise else OrLoop(tokens, tags, r.val, r.next)
  }

  /** The `||` loop: with a true value the right operand is not read. */
  function OrLoop(tokens: seq<Token>, tags: set<Token>, val: bool, i: nat): (r: Outcome)
    requires i <= |tokens|
    ensures r.Ok? ==> i <= r.next <= |tokens|
    decreases |tokens| - i, 3
  {
    if !At(tokens, i, "||") then Ok(val, i)
    else if val then OrLoop(tokens, tags, true, i + 1)
    else
      var r := AndLevel(tokens, tags, i + 1);
      if r.Raise? then Raise else OrLoop(tokens, tags, r.val, r.next)
  }

  datatype Result = Returns(val: bool) | Raises

  function Eval(tokens: seq<Token>, tags: set<Token>): Result {
    var r := OrLevel(tokens, tags, 0);
    if r.Ok? && r.next == |tokens| then Returns(r.val) else Raises
  }

  // ----- What the tags decide -----

  /** A token that names a tag. */
  predicate IsPlainTag(tok: Token) {
    IsTagToken(tok) && tok != "" && tok[0] != '!' && tok != "true" && tok != "false"
  }

  /** A tag with a `!` in the same token. */
  predicate IsNegatedTag(tok: Token) {
    |tok| > 1 && tok[0] == '!' && tok[1..] != "true" && tok[1..] != "false"
  }

  lemma OneToken(tok: Token, tags: set<Token>)
    requires IsTagToken(tok)
    ensures Eval([tok], tags) == Returns(EvalTag(tok, tags))
  {
    var tokens := [tok];
    assert Primary(tokens, tags, 0) == Ok(EvalTag(tok, tags), 1);
    assert Unary(tokens, tags, 0) == Primary(tokens, tags, 0);
    assert AndLevel(tokens, tags, 0) == AndLoop(tokens, tags, EvalTag(tok, tags), 1);
    assert OrLevel(tokens, tags, 0) == OrLoop(tokens, tags, EvalTag(tok, tags), 1);
  }

  /** One token: a tag by its name, the two constants, a leading `!` that negates the rest, or nothing. */
  lemma SingleToken(tokens: seq<Token>, tags: set<Token>)
    ensures |tokens| == 1 && IsPlainTag(tokens[0]) ==> Eval(tokens, tags) == Returns(tokens[0] in tags)
    ensures |tokens| == 1 && IsNegatedTag(tokens[0]) ==> Eval(tokens, tags) == Returns(tokens[0][1..] !in tags)
    ensures tokens == ["true"] || tokens == ["!false"] ==> Eval(tokens, tags) == Returns(true)
    ensures tokens == ["false"] || tokens == ["!true"] || tokens == [""] ==> Eval(tokens, tags) == Returns(false)
  {
    hide Eval;
    if |tokens| == 1 && IsTagToken(tokens[0]) {
      OneToken(tokens[0], tags);
      assert tokens == [tokens[0]];
    }
  }

  /** Two tags and an operator: the right one is evaluated, or else it is left over and the call raises. */
  lemma TwoTags(a: Token, b: Token, tags: set<Token>)
    requires IsPlainTag(a) && IsPlainTag(b)
    ensures Eval(["!", a], tags) == Returns(a !in tags)
    ensures Eval(["(", a, ")"], tags) == Returns(a in tags)
    ensures Eval([a, "&&", b], tags) == if a in tags then Returns(b in tags) else Raises
    ensures Eval([a, "||", b], tags) == if a in tags then Raises else Returns(b in tags)
  {
    hide Eval, EvalTag;
    PlainTagIs(a, tags);
    PlainTagIs(b, tags);
    var not, paren, both, either := Not(Tag(a)), Paren(Tag(a)), And(Tag(a), Tag(b)), Or(Tag(a), Tag(b));
    assert Print(not) == ["!", a] && Print(paren) == ["(", a, ")"];
    assert Print(both) == [a, "&&", b] && Print(either) == [a, "||", b];
    PrintedExprEvaluates(not, tags);
    PrintedExprEvaluates(paren, tags);
    PrintedExprEvaluates(both, tags);
    PrintedExprEvaluates(either, tags);
  }

  lemma PlainTagIs(name: Token, tags: set<Token>)
    requires IsPlainTag(name)
    ensures EvalTag(name, tags) <==> name in tags
  {
  }

  /** The name that a token asks the tags for. */
  function NameIn(tok: Token): Token {
    if tok != "" && tok[0] == '!' then tok[1..] else tok
  }

  /** The two sets hold the same of the names in the tokens. */
  ghost predicate Agree(tokens: seq<Token>, a: set<Token>, b: set<Token>) {
    forall i | 0 <= i < |tokens| :: NameIn(tokens[i]) in a <==> NameIn(tokens[i]) in b
  }

  /** The outcome depends only on which of the names in the tokens are among the tags. */
  lemma OnlyNamesMatter(tokens: seq<Token>, a: set<Token>, b: set<Token>)
    requires Agree(tokens, a, b)
    ensures Eval(tokens, a) == Eval(tokens, b)
  {
    SameOr(tokens, a, b, 0);
  }

  lemma {:induction false} SamePrimary(tokens: seq<Token>, a: set<Token>, b: set<Token>, i: nat)
    requires Agree(tokens, a, b) && i <= |tokens|
    ensures Primary(tokens, a, i) == Primary(tokens, b, i)
    decreases |tokens| - i, 0
  {
    if i < |tokens| {
      assert NameIn(tokens[i]) in a <==> NameIn(tokens[i]) in b;
      if tokens[i] == "(" {
        SameOr(tokens, a, b, i + 1);
      }
    }
  }

  lemma {:induction false} SameUnary(tokens: seq<Token>, a: set<Token>, b: set<Token>, i: nat)
    requires Agree(tokens, a, b) && i <= |tokens|
    ensures Unary(tokens, a, i) == Unary(tokens, b, i)
    decreases |tokens| - i, 1
  {
    if At(tokens, i, "!") {
      SameUnary(tokens, a, b, i + 1);
    } else {
      SamePrimary(tokens, a, b, i);
    }
  }

  lemma {:induction false} SameAnd(tokens: seq<Token>, a: set<Token>, b: set<Token>, i: nat)
    requires Agree(tokens, a, b) && i <= |tokens|
    ensures AndLevel(tokens, a, i) == AndLevel(tokens, b, i)
    decreases |tokens| - i, 2
  {
    SameUnary(tokens, a, b, i);
    var r := Unary(tokens, a, i);
    if r.Ok? {
      SameAndLoop(tokens, a, b, r.val, r.next);
    }
  }

  lemma {:induction false} SameAndLoop(tokens: seq<Token>, a: set<Token>, b: set<Token>, val: bool, i: nat)
    requires Agree(tokens, a, b) && i <= |tokens|
    ensures AndLoop(tokens, a, val, i) == AndLoop(tokens, b, val, i)
    decreases |tokens| - i, 2
  {
    if At(tokens, i, "&&") {
      if !val {
        SameAndLoop(tokens, a, b, false, i + 1);
      } else {
        SameUnary(tokens, a, b, i + 1);
        var r := Unary(tokens, a, i + 1);
        if r.Ok? {
          SameAndLoop(tokens, a, b, r.val, r.next);
        }
      }
    }
  }

  lemma {:induction false} SameOr(tokens: seq<Token>, a: set<Token>, b: set<Token>, i: nat)
    requires Agree(tokens, a, b) && i <= |tokens|
    ensures OrLevel(tokens, a, i) == OrLevel(tokens, b, i)
    decreases |tokens| - i, 3
  {
    SameAnd(tokens, a, b, i);
    var r := AndLevel(tokens, a, i);
    if r.Ok? {
      SameOrLoop(tokens, a, b, r.val, r.next);
    }
  }

  lemma {:induction false} SameOrLoop(tokens: seq<Token>, a: set<Token>, b: set<Token>, val: bool, i: nat)
    requires Agree(tokens, a, b) && i <= |tokens|
    ensures OrLoop(tokens, a, val, i) == OrLoop(tokens, b, val, i)
    decreases |tokens| - i, 3
  {
    if At(tokens, i, "||") {
      if val {
        SameOrLoop(tokens, a, b, true, i + 1);
      } else {
        SameAnd(tokens, a, b, i + 1);
        var r := AndLevel(tokens, a, i + 1);
        if r.Ok? {
          SameOrLoop(tokens, a, b, r.val, r.next);
        }
      }
    }
  }

  // ----- The evaluator as the source writes it -----

  class Parser {
    const tokens: seq<Token>
    const tags: set<Token>
    var idx: nat

    constructor (tokens: seq<Token>, tags: set<Token>)
      ensures this.tokens == tokens && this.tags == tags && idx == 0
    {
      this.tokens, this.tags, idx := tokens, tags, 0;
    }

    /** The outcome a method reports: its value and where it left `idx`. */
    ghost predicate Reports(want: Outcome, ok: bool, val: bool)
      reads this
    {
      if ok then want == Ok(val, idx) else want == Raise
    }

    method ParsePrimary() returns (ok: bool, val: bool)
      requires idx <= |tokens|
      modifies this`idx
      ensures Reports(Primary(tokens, tags, old(idx)), ok, val)
      decreases |tokens| - idx, 0
    {
      if idx == |tokens| {
        return false, false;
      }
      var tok := tokens[idx];
      if tok == "(" {
        idx := idx + 1;
        ok, val := ParseOr();
        if !ok || idx >= |tokens| || tokens[idx] != ")" {
          return false, false;
        }
        idx := idx + 1;
        return;
      }
      if tok in [")", "&&", "||"] {
        return false, false;
      }
      idx := idx + 1;
      return true, EvalTag(tok, tags);
    }

    method ParseUnary() returns (ok: bool, val: bool)
      requires idx <= |tokens|
      modifies this`idx
      ensures Reports(Unary(tokens, tags, old(idx)), ok, val)
      decreases |tokens| - idx, 1
    {
      if idx < |tokens| && tokens[idx] == "!" {
        idx := idx + 1;
        ok, val := ParseUnary();
        val := !val;
      } else {
        ok, val := ParsePrimary();
      }
    }

    method ParseAnd() returns (ok: bool, val: bool)
      requires idx <= |tokens|
      modifies this`idx
      ensures Reports(AndLevel(tokens, tags, old(idx)), ok, val)
      decreases |tokens| - idx, 2
    {
      ok, val := ParseUnary();
      if !ok { return; }
      while idx < |tokens| && tokens[idx] == "&&"
        invariant old(idx) < idx <= |tokens| && ok
        invariant AndLevel(tokens, tags, old(idx)) == AndLoop(tokens, tags, val, idx)
        decreases |tokens| - idx
      {
        idx := idx + 1;
        if val {
          ok, val := ParseUnary();
          if !ok { return; }
        }
      }
    }

    method ParseOr() returns (ok: bool, val: bool)
      requires idx <= |tokens|
      modifies this`idx
      ensures Reports(OrLevel(tokens, tags, old(idx)), ok, val)
      decreases |tokens| - idx, 3
    {
      ok, val := ParseAnd();
      if !ok { return; }
      while idx < |tokens| && tokens[idx] == "||"
        invariant old(idx) < idx <= |tokens| && ok
        invariant OrLevel(tokens, tags, old(idx)) == OrLoop(tokens, tags, val, idx)
        decreases |tokens| - idx
      {
        idx := idx + 1;
        if !val {
          ok, val := ParseAnd();
          if !ok { return; }
        }
      }
    }
  }

  /** `_eval_go_build` on the tokens of its expression. */
  method EvalGoBuild(tokens: seq<Token>, tags: set<Token>) returns (r: Result)
    ensures r == Eval(tokens, tags)
    ensures forall e | IsBuildExpr(e) && Print(e) == tokens ::
              r == if Readable(e, tags) then Returns(Value(e, tags)) else Raises
    ensures |tokens| == 1 && IsPlainTag(tokens[0]) ==> r.Returns? && (r.val <==> tokens[0] in tags)
    ensures |tokens| == 1 && IsNegatedTag(tokens[0]) ==> r.Returns? && (r.val <==> tokens[0][1..] !in tags)
    ensures tokens == ["true"] || tokens == ["!false"] ==> r == Returns(true)
    ensures tokens == ["false"] || tokens == ["!true"] || tokens == [""] ==> r == Returns(false)
  {
    SingleToken(tokens, tags);
    forall e | IsBuildExpr(e) && Print(e) == tokens
      ensures Eval(tokens, tags) == if Readable(e, tags) then Returns(Value(e, tags)) else Raises
    {
      PrintedExprEvaluates(e, tags);
    }
    if tokens == [] {
      return Raises;
    }
    var p := new Parser(tokens, tags);
    var ok, val := p.ParseOr();
    if !ok || p.idx < |tokens| {
      return Raises;
    }
    return Returns(val);
  }

  // ----- Reading a readable expression -----

  /** `part` stands in `tokens` at `i`. */
  predicate Stands(part: seq<Token>, tokens: seq<Token>, i: nat) {
    i + |part| <= |tokens| && tokens[i..i + |part|] == part
  }

  lemma StandsSplit(a: seq<Token>, b: seq<Token>, tokens: seq<Token>, i: nat)
    ensures Stands(a + b, tokens, i) <==> Stands(a, tokens, i) && Stands(b, tokens, i + |a|)
  {
    if i + |a| + |b| <= |tokens| {
      var all := tokens[i..i + |a + b|];
      assert all[..|a|] == tokens[i..i + |a|] && all[|a|..] == tokens[i + |a|..i + |a| + |b|];
      assert all == all[..|a|] + all[|a|..];
      assert (a + b)[..|a|] == a && (a + b)[|a|..] == b;
    }
  }

  lemma StandsOne(tok: Token, tokens: seq<Token>, i: nat)
    ensures Stands([tok], tokens, i) <==> At(tokens, i, tok)
  {
  }

  lemma StandsAround(a: seq<Token>, op: Token, b: seq<Token>, tokens: seq<Token>, i: nat)
    ensures Stands(a + [op] + b, tokens, i) <==>
            Stands(a, tokens, i) && At(tokens, i + |a|, op) && Stands(b, tokens, i + |a| + 1)
  {
    StandsSplit(a + [op], b, tokens, i);
    StandsSplit(a, [op], tokens, i);
    StandsOne(op, tokens, i + |a|);
  }

  lemma StandsParen(inner: Expr, tokens: seq<Token>, i: nat)
    requires Stands(Print(Paren(inner)), tokens, i)
    ensures At(tokens, i, "(") && Stands(Print(inner), tokens, i + 1) && At(tokens, i + 1 + |Print(inner)|, ")")
    ensures |Print(Paren(inner))| == |Print(inner)| + 2
  {
    var a := Print(inner);
    StandsSplit(["("] + a, [")"], tokens, i);
    StandsSplit(["("], a, tokens, i);
    StandsOne("(", tokens, i);
    StandsOne(")", tokens, i + 1 + |a|);
  }

  lemma StandsNot(arg: Expr, tokens: seq<Token>, i: nat)
    requires Stands(Print(Not(arg)), tokens, i)
    ensures At(tokens, i, "!") && Stands(Print(arg), tokens, i + 1)
    ensures |Print(Not(arg))| == |Print(arg)| + 1
  {
    StandsSplit(["!"], Print(arg), tokens, i);
    StandsOne("!", tokens, i);
  }

  lemma StandsBinary(e: Expr, tokens: seq<Token>, i: nat)
    requires (e.And? || e.Or?) && Stands(Print(e), tokens, i)
    ensures var p := i + |Print(e.left)|;
            && Stands(Print(e.left), tokens, i)
            && At(tokens, p, if e.And? then "&&" else "||")
            && Stands(Print(e.right), tokens, p + 1)
            && i + |Print(e)| == p + 1 + |Print(e.right)|
  {
    StandsAround(Print(e.left), if e.And? then "&&" else "||", Print(e.right), tokens, i);
  }

  lemma StandsCut(e: Expr, tokens: seq<Token>, i: nat)
    requires (e.AndCut? || e.OrCut?) && Stands(Print(e), tokens, i)
    ensures var p := i + |Print(e.left)|;
            && Stands(Print(e.left), tokens, i)
            && At(tokens, p, if e.AndCut? then "&&" else "||")
            && i + |Print(e)| == p + 1
  {
    var op := if e.AndCut? then "&&" else "||";
    StandsSplit(Print(e.left), [op], tokens, i);
    StandsOne(op, tokens, i + |Print(e.left)|);
  }

  /** One turn of the `&&` loop that reads its operand, and one that skips it. */
  lemma AndStep(tokens: seq<Token>, tags: set<Token>, i: nat, p: nat, val: bool)
    requires i <= |tokens| && At(tokens, p, "&&") && AndLevel(tokens, tags, i) == AndLoop(tokens, tags, val, p)
    ensures !val ==> AndLevel(tokens, tags, i) == AndLoop(tokens, tags, false, p + 1)
    ensures val ==> var r := Unary(tokens, tags, p + 1);
              AndLevel(tokens, tags, i) == if r.Raise? then Raise else AndLoop(tokens, tags, r.val, r.next)
  {
  }

  /** The same for the `||` loop. */
  lemma OrStep(tokens: seq<Token>, tags: set<Token>, i: nat, p: nat, val: bool)
    requires i <= |tokens| && At(tokens, p, "||") && OrLevel(tokens, tags, i) == OrLoop(tokens, tags, val, p)
    ensures val ==> OrLevel(tokens, tags, i) == OrLoop(tokens, tags, true, p + 1)
    ensures !val ==> var r := AndLevel(tokens, tags, p + 1);
              OrLevel(tokens, tags, i) == if r.Raise? then Raise else OrLoop(tokens, tags, r.val, r.next)
  {
  }

  lemma PairParts(e: Expr, tags: set<Token>)
    requires (e.And? || e.Or?) && IsOr(e) && Readable(e, tags)
    ensures Readable(e.left, tags) && Readable(e.right, tags) && Value(e.left, tags) == e.And?
    ensures IsOr(e.left) && (e.And? ==> IsAnd(e.left) && IsUnary(e.right)) && (e.Or? ==> IsAnd(e.right))
  {
  }

  lemma AndLoopEnds(tokens: seq<Token>, tags: set<Token>, val: bool, i: nat)
    requires i <= |tokens| && !At(tokens, i, "&&")
    ensures AndLoop(tokens, tags, val, i) == Ok(val, i)
  {
  }

  lemma NotBoth(tokens: seq<Token>, i: nat)
    ensures At(tokens, i, "||") ==> !At(tokens, i, "&&")
  {
  }

  lemma {:induction false} ReadsUnary(e: Expr, tokens: seq<Token>, tags: set<Token>, i: nat)
    requires IsUnary(e) && Stands(Print(e), tokens, i) && Readable(e, tags)
    ensures Unary(tokens, tags, i) == Ok(Value(e, tags), i + |Print(e)|)
    decreases e, 0
  {
    match e
    case Tag(name) =>
      StandsOne(name, tokens, i);
    case Paren(inner) =>
      StandsParen(inner, tokens, i);
      ReadsOr(inner, tokens, tags, i + 1);
    case Not(arg) =>
      StandsNot(arg, tokens, i);
      ReadsUnary(arg, tokens, tags, i + 1);
  }

  /** Reading an and-level expression leads to the `&&` loop right after it. */
  lemma {:induction false} ReadsAnd(e: Expr, tokens: seq<Token>, tags: set<Token>, i: nat)
    requires IsAnd(e) && Stands(Print(e), tokens, i) && Readable(e, tags)
    ensures AndLevel(tokens, tags, i) == AndLoop(tokens, tags, Value(e, tags), i + |Print(e)|)
    decreases e, 1
  {
    if e.And? {
      ReadsAndPair(e, tokens, tags, i);
    } else if e.AndCut? {
      StandsCut(e, tokens, i);
      ReadsAnd(e.left, tokens, tags, i);
      AndStep(tokens, tags, i, i + |Print(e.left)|, false);
    } else {
      ReadsUnary(e, tokens, tags, i);
    }
  }

  lemma AndPairReads(tokens: seq<Token>, tags: set<Token>, i: nat, p: nat, end: nat, val: bool)
    requires i <= |tokens| && At(tokens, p, "&&") && AndLevel(tokens, tags, i) == AndLoop(tokens, tags, true, p)
    requires end <= |tokens| && Unary(tokens, tags, p + 1) == Ok(val, end)
    ensures AndLevel(tokens, tags, i) == AndLoop(tokens, tags, val, end)
  {
    AndStep(tokens, tags, i, p, true);
    hide Unary, AndLevel, AndLoop;
  }

  lemma {:induction false} ReadsAndPair(e: Expr, tokens: seq<Token>, tags: set<Token>, i: nat)
    requires e.And? && IsAnd(e) && Stands(Print(e), tokens, i) && Readable(e, tags)
    ensures AndLevel(tokens, tags, i) == AndLoop(tokens, tags, Value(e.right, tags), i + |Print(e)|)
    decreases e, 0
  {
    hide IsOr, IsAnd, IsUnary, Readable, Value, Print, Stands, At, Unary, AndLevel, AndLoop;
    StandsBinary(e, tokens, i);
    AndPartIsOr(e);
    PairParts(e, tags);
    var p := i + |Print(e.left)|;
    ReadsAnd(e.left, tokens, tags, i);
    ReadsUnary(e.right, tokens, tags, p + 1);
    AndPairReads(tokens, tags, i, p, i + |Print(e)|, Value(e.right, tags));
  }

  /** The same for an or-level expression, whose last and-level part must have nothing to go on with. */
  lemma {:induction false} ReadsOr(e: Expr, tokens: seq<Token>, tags: set<Token>, i: nat)
    requires IsOr(e) && Stands(Print(e), tokens, i) && Readable(e, tags)
    requires !At(tokens, i + |Print(e)|, "&&")
    ensures OrLevel(tokens, tags, i) == OrLoop(tokens, tags, Value(e, tags), i + |Print(e)|)
    decreases e, 2
  {
    if e.Or? {
      ReadsOrPair(e, tokens, tags, i);
    } else if e.OrCut? {
      StandsCut(e, tokens, i);
      ReadsOr(e.left, tokens, tags, i);
      OrStep(tokens, tags, i, i + |Print(e.left)|, true);
    } else {
      ReadsAnd(e, tokens, tags, i);
    }
  }

  lemma OrPairReads(tokens: seq<Token>, tags: set<Token>, i: nat, p: nat, end: nat, val: bool)
    requires i <= |tokens| && At(tokens, p, "||") && OrLevel(tokens, tags, i) == OrLoop(tokens, tags, false, p)
    requires end <= |tokens| && !At(tokens, end, "&&")
    requires AndLevel(tokens, tags, p + 1) == AndLoop(tokens, tags, val, end)
    ensures OrLevel(tokens, tags, i) == OrLoop(tokens, tags, val, end)
  {
    OrStep(tokens, tags, i, p, false);
    AndLoopEnds(tokens, tags, val, end);
    hide AndLevel, AndLoop, OrLevel, OrLoop;
  }

  lemma {:induction false} ReadsOrPair(e: Expr, tokens: seq<Token>, tags: set<Token>, i: nat)
    requires e.Or? && IsOr(e) && Stands(Print(e), tokens, i) && Readable(e, tags)
    requires !At(tokens, i + |Print(e)|, "&&")
    ensures OrLevel(tokens, tags, i) == OrLoop(tokens, tags, Value(e.right, tags), i + |Print(e)|)
    decreases e, 0
  {
    hide IsOr, IsAnd, Readable, Value, Print, Stands, At, AndLevel, AndLoop, OrLevel, OrLoop;
    StandsBinary(e, tokens, i);
    PairParts(e, tags);
    var p := i + |Print(e.left)|;
    NotBoth(tokens, p);
    ReadsOr(e.left, tokens, tags, i);
    ReadsAnd(e.right, tokens, tags, p + 1);
    OrPairReads(tokens, tags, i, p, i + |Print(e)|, Value(e.right, tags));
  }

  /** `i` is at the first token of an operand, which no loop and no closing parenthesis accepts. */
  predicate AtOperand(tokens: seq<Token>, i: nat) {
    i < |tokens| && tokens[i] !in [")", "&&", "||"]
  }

  predicate Stuck(r: Outcome, tokens: seq<Token>) {
    r.Raise? || AtOperand(tokens, r.next)
  }

  lemma {:induction false} StartsOperand(e: Expr)
    requires IsOr(e)
    ensures Print(e)[0] !in [")", "&&", "||"]
  {
    match e
    case Or(left, _) => StartsOperand(left);
    case And(left, _) => StartsOperand(left);
    case OrCut(left) => StartsOperand(left);
    case AndCut(left) => StartsOperand(left);
    case _ =>
  }

  lemma OperandStands(e: Expr, tokens: seq<Token>, i: nat)
    requires IsOr(e) && Stands(Print(e), tokens, i)
    ensures AtOperand(tokens, i)
  {
    StartsOperand(e);
    assert tokens[i] == Print(e)[0];
  }

  lemma {:induction false} UnreadableUnaryRaises(e: Expr, tokens: seq<Token>, tags: set<Token>, i: nat)
    requires IsUnary(e) && Complete(e) && Stands(Print(e), tokens, i) && !Readable(e, tags)
    ensures Unary(tokens, tags, i) == Raise
    decreases e, 0
  {
    match e
    case Paren(inner) =>
      StandsParen(inner, tokens, i);
      UnreadableOrSticks(inner, tokens, tags, i + 1);
    case Not(arg) =>
      StandsNot(arg, tokens, i);
      UnreadableUnaryRaises(arg, tokens, tags, i + 1);
    case Tag(_) =>
  }

  lemma AndSticks(tokens: seq<Token>, tags: set<Token>, i: nat, p: nat, val: bool)
    requires i <= |tokens| && At(tokens, p, "&&") && AndLevel(tokens, tags, i) == AndLoop(tokens, tags, val, p)
    requires if val then Unary(tokens, tags, p + 1) == Raise else AtOperand(tokens, p + 1)
    ensures Stuck(AndLevel(tokens, tags, i), tokens)
  {
    AndStep(tokens, tags, i, p, val);
    if !val {
      AndLoopEnds(tokens, tags, false, p + 1);
    }
    hide Unary, AndLevel, AndLoop;
  }

  lemma {:induction false} UnreadableAndSticks(e: Expr, tokens: seq<Token>, tags: set<Token>, i: nat)
    requires IsAnd(e) && Complete(e) && Stands(Print(e), tokens, i) && !Readable(e, tags)
    ensures Stuck(AndLevel(tokens, tags, i), tokens)
    decreases e, 1
  {
    match e
    case And(_, _) => UnreadableAndPair(e, tokens, tags, i);
    case Paren(_) | Not(_) => UnreadableUnaryRaises(e, tokens, tags, i);
    case Tag(_) =>
  }

  lemma UnreadableParts(e: Expr, tags: set<Token>)
    requires (e.And? || e.Or?) && IsOr(e) && Complete(e) && !Readable(e, tags)
    ensures IsOr(e.left) && (e.And? ==> IsAnd(e.left) && IsUnary(e.right)) && IsAnd(e.right)
    ensures Complete(e.left) && Complete(e.right)
    ensures Readable(e.left, tags) && Value(e.left, tags) == e.And? ==> !Readable(e.right, tags)
  {
  }

  lemma {:induction false} UnreadableAndPair(e: Expr, tokens: seq<Token>, tags: set<Token>, i: nat)
    requires e.And? && IsAnd(e) && Complete(e) && Stands(Print(e), tokens, i) && !Readable(e, tags)
    ensures Stuck(AndLevel(tokens, tags, i), tokens)
    decreases e, 0
  {
    hide IsOr, IsAnd, IsUnary, Complete, Readable, Value, Print, Stands, At, Unary, AndLevel, AndLoop, Stuck, AtOperand;
    StandsBinary(e, tokens, i);
    AndPartIsOr(e);
    UnreadableParts(e, tags);
    var p := i + |Print(e.left)|;
    if !Readable(e.left, tags) {
      UnreadableAndSticks(e.left, tokens, tags, i);
    } else {
      ReadsAnd(e.left, tokens, tags, i);
      if Value(e.left, tags) {
        UnreadableUnaryRaises(e.right, tokens, tags, p + 1);
      } else {
        AndPartIsOr(e.right);
        OperandStands(e.right, tokens, p + 1);
      }
      AndSticks(tokens, tags, i, p, Value(e.left, tags));
    }
  }

  lemma AndPartIsOr(e: Expr)
    requires IsAnd(e)
    ensures IsOr(e)
  {
  }

  lemma OrSticks(tokens: seq<Token>, tags: set<Token>, i: nat, p: nat, val: bool)
    requires i <= |tokens| && At(tokens, p, "||") && OrLevel(tokens, tags, i) == OrLoop(tokens, tags, val, p)
    requires if val then AtOperand(tokens, p + 1) else Stuck(AndLevel(tokens, tags, p + 1), tokens)
    ensures Stuck(OrLevel(tokens, tags, i), tokens)
  {
    OrStep(tokens, tags, i, p, val);
    hide Unary, AndLevel, AndLoop, OrLevel;
  }

  lemma {:induction false} UnreadableOrSticks(e: Expr, tokens: seq<Token>, tags: set<Token>, i: nat)
    requires IsOr(e) && Complete(e) && Stands(Print(e), tokens, i) && !Readable(e, tags)
    ensures Stuck(OrLevel(tokens, tags, i), tokens)
    decreases e, 2
  {
    match e
    case Or(_, _) => UnreadableOrPair(e, tokens, tags, i);
    case Paren(_) | Not(_) | And(_, _) =>
      UnreadableAndSticks(e, tokens, tags, i);
    case Tag(_) =>
  }

  lemma {:induction false} UnreadableOrPair(e: Expr, tokens: seq<Token>, tags: set<Token>, i: nat)
    requires e.Or? && IsOr(e) && Complete(e) && Stands(Print(e), tokens, i) && !Readable(e, tags)
    ensures Stuck(OrLevel(tokens, tags, i), tokens)
    decreases e, 1
  {
    hide IsOr, IsAnd, Complete, Readable, Value, Print, Stands, At, AndLevel, OrLevel, OrLoop, Stuck, AtOperand;
    StandsBinary(e, tokens, i);
    UnreadableParts(e, tags);
    var p := i + |Print(e.left)|;
    if !Readable(e.left, tags) {
      UnreadableOrSticks(e.left, tokens, tags, i);
    } else {
      NotBoth(tokens, p);
      ReadsOr(e.left, tokens, tags, i);
      if Value(e.left, tags) {
        AndPartIsOr(e.right);
        OperandStands(e.right, tokens, p + 1);
      } else {
        UnreadableAndSticks(e.right, tokens, tags, p + 1);
      }
      OrSticks(tokens, tags, i, p, Value(e.left, tags));
    }
  }

  /** On a build expression the evaluator returns its value when it is readable and raises otherwise. */
  lemma PrintedExprEvaluates(e: Expr, tags: set<Token>)
    requires IsBuildExpr(e)
    ensures Eval(Print(e), tags) == if Readable(e, tags) then Returns(Value(e, tags)) else Raises
  {
    var tokens := Print(e);
    assert Stands(tokens, tokens, 0);
    if Readable(e, tags) {
      ReadsOr(e, tokens, tags, 0);
    } else {
      UnreadableOrSticks(e, tokens, tags, 0);
    }
  }

  // ----- What an arbitrary token list must look like to evaluate -----

  /** `e` is a readable expression of value `val` that prints as the tokens from `i` to `j`. */
  ghost predicate Reads(e: Expr, tokens: seq<Token>, tags: set<Token>, i: nat, j: nat, val: bool) {
    && i <= j <= |tokens| && Print(e) == tokens[i..j]
    && IsOr(e) && Readable(e, tags) && Value(e, tags) == val
  }

  lemma JoinParen(inner: Expr, tokens: seq<Token>, tags: set<Token>, i: nat, j: nat, val: bool)
    requires Reads(inner, tokens, tags, i + 1, j, val) && At(tokens, i, "(") && At(tokens, j, ")")
    ensures Reads(Paren(inner), tokens, tags, i, j + 1, val)
  {
    assert tokens[i..j + 1] == ["("] + tokens[i + 1..j] + [")"];
  }

  lemma JoinNot(arg: Expr, tokens: seq<Token>, tags: set<Token>, i: nat, j: nat, val: bool)
    requires Reads(arg, tokens, tags, i + 1, j, val) && At(tokens, i, "!") && Level(arg) == 0
    ensures Reads(Not(arg), tokens, tags, i, j, !val)
  {
    assert tokens[i..j] == ["!"] + tokens[i + 1..j];
  }

  lemma JoinCut(left: Expr, tokens: seq<Token>, tags: set<Token>, i: nat, p: nat)
    requires || (Reads(left, tokens, tags, i, p, true) && At(tokens, p, "||"))
             || (Reads(left, tokens, tags, i, p, false) && At(tokens, p, "&&") && Level(left) <= 1)
    ensures Reads(if At(tokens, p, "||") then OrCut(left) else AndCut(left),
                  tokens, tags, i, p + 1, At(tokens, p, "||"))
  {
    assert tokens[i..p + 1] == tokens[i..p] + [tokens[p]];
  }

  lemma JoinAnd(left: Expr, right: Expr, tokens: seq<Token>, tags: set<Token>, i: nat, p: nat, j: nat, val: bool)
    requires Reads(left, tokens, tags, i, p, true) && At(tokens, p, "&&") && Level(left) <= 1
    requires Reads(right, tokens, tags, p + 1, j, val) && Level(right) == 0
    ensures Reads(And(left, right), tokens, tags, i, j, val)
  {
    assert tokens[i..j] == tokens[i..p] + [tokens[p]] + tokens[p + 1..j];
  }

  lemma JoinOr(left: Expr, right: Expr, tokens: seq<Token>, tags: set<Token>, i: nat, p: nat, j: nat, val: bool)
    requires Reads(left, tokens, tags, i, p, false) && At(tokens, p, "||")
    requires Reads(right, tokens, tags, p + 1, j, val) && Level(right) <= 1
    ensures Reads(Or(left, right), tokens, tags, i, j, val)
  {
    assert tokens[i..j] == tokens[i..p] + [tokens[p]] + tokens[p + 1..j];
  }

  lemma {:induction false} BuildUnary(tokens: seq<Token>, tags: set<Token>, i: nat) returns (e: Expr)
    requires i <= |tokens| && Unary(tokens, tags, i).Ok?
    ensures var r := Unary(tokens, tags, i); Reads(e, tokens, tags, i, r.next, r.val)
    ensures Level(e) == 0
    decreases |tokens| - i, 1
  {
    if tokens[i] == "!" {
      var arg := BuildUnary(tokens, tags, i + 1);
      var r := Unary(tokens, tags, i + 1);
      JoinNot(arg, tokens, tags, i, r.next, r.val);
      e := Not(arg);
    } else if tokens[i] == "(" {
      var inner := BuildOr(tokens, tags, i + 1);
      var r := OrLevel(tokens, tags, i + 1);
      JoinParen(inner, tokens, tags, i, r.next, r.val);
      e := Paren(inner);
    } else {
      e := Tag(tokens[i]);
    }
  }

  lemma {:induction false} BuildAndLoop(left: Expr, tokens: seq<Token>, tags: set<Token>, start: nat, i: nat, val: bool)
    returns (e: Expr)
    requires Reads(left, tokens, tags, start, i, val) && Level(left) <= 1
    requires AndLoop(tokens, tags, val, i).Ok?
    ensures var r := AndLoop(tokens, tags, val, i); Reads(e, tokens, tags, start, r.next, r.val)
    ensures Level(e) <= 1
    decreases |tokens| - i, 2
  {
    if !At(tokens, i, "&&") {
      e := left;
    } else if !val {
      JoinCut(left, tokens, tags, start, i);
      e := BuildAndLoop(AndCut(left), tokens, tags, start, i + 1, false);
    } else {
      var right := BuildUnary(tokens, tags, i + 1);
      var r := Unary(tokens, tags, i + 1);
      JoinAnd(left, right, tokens, tags, start, i, r.next, r.val);
      e := BuildAndLoop(And(left, right), tokens, tags, start, r.next, r.val);
    }
  }

  lemma {:induction false} BuildAnd(tokens: seq<Token>, tags: set<Token>, i: nat) returns (e: Expr)
    requires i <= |tokens| && AndLevel(tokens, tags, i).Ok?
    ensures var r := AndLevel(tokens, tags, i); Reads(e, tokens, tags, i, r.next, r.val)
    ensures Level(e) <= 1
    decreases |tokens| - i, 3
  {
    var first := BuildUnary(tokens, tags, i);
    var r := Unary(tokens, tags, i);
    e := BuildAndLoop(first, tokens, tags, i, r.next, r.val);
  }

  lemma {:induction false} BuildOrLoop(left: Expr, tokens: seq<Token>, tags: set<Token>, start: nat, i: nat, val: bool)
    returns (e: Expr)
    requires Reads(left, tokens, tags, start, i, val)
    requires OrLoop(tokens, tags, val, i).Ok?
    ensures var r := OrLoop(tokens, tags, val, i); Reads(e, tokens, tags, start, r.next, r.val)
    decreases |tokens| - i, 4
  {
    if !At(tokens, i, "||") {
      e := left;
    } else if val {
      JoinCut(left, tokens, tags, start, i);
      e := BuildOrLoop(OrCut(left), tokens, tags, start, i + 1, true);
    } else {
      var right := BuildAnd(tokens, tags, i + 1);
      var r := AndLevel(tokens, tags, i + 1);
      JoinOr(left, right, tokens, tags, start, i, r.next, r.val);
      e := BuildOrLoop(Or(left, right), tokens, tags, start, r.next, r.val);
    }
  }

  lemma {:induction false} BuildOr(tokens: seq<Token>, tags: set<Token>, i: nat) returns (e: Expr)
    requires i <= |tokens| && OrLevel(tokens, tags, i).Ok?
    ensures var r := OrLevel(tokens, tags, i); Reads(e, tokens, tags, i, r.next, r.val)
    decreases |tokens| - i, 5
  {
    var first := BuildAnd(tokens, tags, i);
    var r := AndLevel(tokens, tags, i);
    e := BuildOrLoop(first, tokens, tags, i, r.next, r.val);
  }

  /** The token lists that evaluate to `val`: those a readable expression, with cuts allowed, prints. */
  ghost predicate ReadableAs(tokens: seq<Token>, tags: set<Token>, val: bool) {
    exists e :: IsOr(e) && Print(e) == tokens && Readable(e, tags) && Value(e, tags) == val
  }

  /** For every token list, well formed or not: which value comes back, and when. */
  lemma EvaluatesIffReadable(tokens: seq<Token>, tags: set<Token>, val: bool)
    ensures Eval(tokens, tags) == Returns(val) <==> ReadableAs(tokens, tags, val)
  {
    if Eval(tokens, tags) == Returns(val) {
      var e := BuildOr(tokens, tags, 0);
      assert tokens[0..|tokens|] == tokens;
    }
    if ReadableAs(tokens, tags, val) {
      var e :| IsOr(e) && Print(e) == tokens && Readable(e, tags) && Value(e, tags) == val;
      assert Stands(tokens, tokens, 0);
      ReadsOr(e, tokens, tags, 0);
    }
  }

  /** A well-formed expression that raises: `linux && cgo` when `linux` is not among the tags. */
  lemma ShortCircuitSkipsParse()
    ensures var e := And(Tag("linux"), Tag("cgo"));
            IsBuildExpr(e) && !Value(e, {}) && Eval(Print(e), {}) == Raises
  {
    var e := And(Tag("linux"), Tag("cgo"));
    assert !Readable(e, {});
    PrintedExprEvaluates(e, {});
  }

  /** A malformed token list that returns: `linux &&` when `linux` is not among the tags. */
  lemma DanglingOperatorReturns()
    ensures Eval(["linux", "&&"], {}) == Returns(false)
    ensures !exists e :: IsBuildExpr(e) && Print(e) == ["linux", "&&"]
  {
    var cut := AndCut(Tag("linux"));
    assert Print(cut) == ["linux", "&&"];
    EvaluatesIffReadable(["linux", "&&"], {}, false);
    forall e | IsBuildExpr(e) && Print(e) == ["linux", "&&"]
      ensures false
    {
      EndsOperand(e);
    }
  }

  lemma {:induction false} EndsOperand(e: Expr)
    requires Complete(e) && IsOr(e)
    ensures Print(e)[|Print(e)| - 1] !in ["(", "!", "&&", "||"]
  {
    match e
    case Not(arg) => EndsOperand(arg);
    case And(_, right) => EndsOperand(right);
    case Or(_, right) => EndsOperand(right);
    case _ =>
  }
}
