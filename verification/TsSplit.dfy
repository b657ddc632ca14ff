/**
 * Splitting TypeScript parameters and call arguments at their top-level commas. Models
 * `_split_ts_params` and `_extract_call_args` of `backend/app/api_contracts.py`: that splitting is
 * stable, and that the two scanners agree on balanced text.
 */
module TsSplit {
  import opened Basics
  import opened PyText

  /** The depths of `()`, `<>`, `[]` and `{}`, the open quote and whether the next character is escaped. */
  datatype Mode = Mode(par: nat, ang: nat, br: nat, brace: nat, quote: Option<char>, esc: bool)

  const ZERO := Mode(0, 0, 0, 0, None, false)

  predicate IsQuote(c: char) {
    c == '\'' || c == '"' || c == '`'
  }

  function Down(n: nat): nat {
    if n == 0 then 0 else n - 1
  }

  function Next(m: Mode, c: char): Mode {
    if m.quote.Some? then
      if m.esc then m.(esc := false)
      else if c == '\\' then m.(esc := true)
      else if c == m.quote.value then m.(quote := None)
      else m
    else if IsQuote(c) then m.(quote := Some(c))
    else if c == '(' then m.(par := m.par + 1)
    else if c == ')' then m.(par := Down(m.par))
    else if c == '<' then m.(ang := m.ang + 1)
    else if c == '>' then m.(ang := Down(m.ang))
    else if c == '[' then m.(br := m.br + 1)
    else if c == ']' then m.(br := Down(m.br))
    else if c == '{' then m.(brace := m.brace + 1)
    else if c == '}' then m.(brace := Down(m.brace))
    else m
  }

  predicate Splits(m: Mode, c: char, par: nat) {
    c == ',' && m.quote.None? && m.par == par && m.ang == 0 && m.br == 0 && m.brace == 0
  }

  /** Only text inside a string is escaped, and a string is closed by a quote. */
  predicate Sane(m: Mode) {
    if m.quote.None? then !m.esc else IsQuote(m.quote.value)
  }

  // ----- Splitting -----

  /** The pieces between the top-level commas of `cur + s`, when `cur` has been read and left mode `m`. */
  function Pieces(m: Mode, cur: string, s: string): (pieces: seq<string>)
    ensures pieces != []
    decreases |s|
  {
    if s == "" then [cur]
    else if Splits(m, s[0], 0) then [cur] + Pieces(m, "", s[1..])
    else Pieces(Next(m, s[0]), cur + [s[0]], s[1..])
  }

  /** The pieces stripped, without those left empty. */
  function Tokens(pieces: seq<string>): seq<string> {
    if pieces == [] then []
    else (if Strip(pieces[0]) == "" then [] else [Strip(pieces[0])]) + Tokens(pieces[1..])
  }

  function SplitParams(s: string): seq<string> {
    Tokens(Pieces(ZERO, "", s))
  }

  method SplitTsParams(params: string) returns (out: seq<string>)
    ensures out == SplitParams(params)
  {
    hide Strip;
    out := [];
    var cur := "";
    var depthPar: nat, depthAng: nat, depthBr: nat, depthBrace: nat := 0, 0, 0, 0;
    var inStr: Option<char>, esc := None, false;
    for n := 0 to |params|
      invariant Sane(Mode(depthPar, depthAng, depthBr, depthBrace, inStr, esc))
      invariant out + Tokens(Pieces(Mode(depthPar, depthAng, depthBr, depthBrace, inStr, esc), cur, params[n..]))
             == SplitParams(params)
    {
      var ch := params[n];
      assert params[n..][0] == ch && params[n..][1..] == params[n + 1..];
      if inStr.Some? {
        cur := cur + [ch];
        if esc {
          esc := false;
        } else if ch == '\\' {
          esc := true;
        } else if ch == inStr.value {
          inStr := None;
        }
        continue;
      }
      if IsQuote(ch) {
        inStr := Some(ch);
        cur := cur + [ch];
        continue;
      }
      if ch == '(' {
        depthPar := depthPar + 1;
      } else if ch == ')' {
        depthPar := Down(depthPar);
      } else if ch == '<' {
        depthAng := depthAng + 1;
      } else if ch == '>' {
        depthAng := Down(depthAng);
      } else if ch == '[' {
        depthBr := depthBr + 1;
      } else if ch == ']' {
        depthBr := Down(depthBr);
      } else if ch == '{' {
        depthBrace := depthBrace + 1;
      } else if ch == '}' {
        depthBrace := Down(depthBrace);
      }
      if ch == ',' && depthPar == 0 && depthAng == 0 && depthBr == 0 && depthBrace == 0 {
        var tok := Strip(cur);
        ghost var rest := Pieces(ZERO, "", params[n + 1..]);
        TokensOfMore(cur, rest);
        out := out + (if tok == "" then [] else [tok]);
        cur := "";
      } else {
        cur := cur + [ch];
      }
    }
    var tok := Strip(cur);
    TokensOfOne(cur);
    out := out + (if tok == "" then [] else [tok]);
  }

  lemma TokensOfOne(piece: string)
    ensures Tokens([piece]) == if Strip(piece) == "" then [] else [Strip(piece)]
  {
    assert Tokens([piece][1..]) == [];
  }

  lemma TokensOfMore(piece: string, rest: seq<string>)
    ensures Tokens([piece] + rest) == (if Strip(piece) == "" then [] else [Strip(piece)]) + Tokens(rest)
  {
    assert ([piece] + rest)[1..] == rest;
  }

  // ----- Call arguments -----

  /** The pieces of a call's arguments: as `Pieces`, within one more parenthesis, up to the one closing it. */
  function ArgPieces(m: Mode, cur: string, s: string): (pieces: seq<string>)
    ensures pieces != []
    decreases |s|
  {
    if s == "" || (m.quote.None? && s[0] == ')' && m.par <= 1) then [cur]
    else if Splits(m, s[0], 1) then [cur] + ArgPieces(m, "", s[1..])
    else ArgPieces(Next(m, s[0]), cur + [s[0]], s[1..])
  }

  /** `str.find` of one character, for a start within the text or past its end. */
  function FindChar(s: string, c: char, start: nat): (at: int)
    ensures at == -1 ==> forall k | start <= k < |s| :: s[k] != c
    ensures at != -1 ==> start <= at < |s| && s[at] == c && forall k | start <= k < at :: s[k] != c
    decreases |s| - start
  {
    if start >= |s| then -1 else if s[start] == c then start else FindChar(s, c, start + 1)
  }

  function CallArgs(text: string, callStart: nat): seq<string> {
    var p0 := FindChar(text, '(', callStart);
    if p0 < 0 then [] else Tokens(ArgPieces(ZERO.(par := 1), "", text[p0 + 1..]))
  }

  /** The arguments found, with those of the text left, are the ones wanted. */
  ghost predicate Reading(wanted: seq<string>, args: seq<string>, m: Mode, cur: string, rest: string) {
    args + Tokens(ArgPieces(m, cur, rest)) == wanted
  }

  lemma ReadOn(wanted: seq<string>, args: seq<string>, m: Mode, cur: string, text: string, i: nat)
    requires i < |text| && Reading(wanted, args, m, cur, text[i..])
    requires !(m.quote.None? && text[i] == ')' && m.par <= 1) && !Splits(m, text[i], 1)
    ensures Reading(wanted, args, Next(m, text[i]), cur + [text[i]], text[i + 1..])
  {
    hide Next, Splits, Tokens;
    assert text[i..][0] == text[i] && text[i..][1..] == text[i + 1..];
  }

  lemma ReadComma(wanted: seq<string>, args: seq<string>, m: Mode, cur: string, text: string, i: nat)
    requires i < |text| && Reading(wanted, args, m, cur, text[i..]) && Splits(m, text[i], 1)
    ensures Reading(wanted, args + Tokens([cur]), m, "", text[i + 1..])
  {
    assert text[i..][0] == text[i] && text[i..][1..] == text[i + 1..];
    TokensOfMore(cur, ArgPieces(m, "", text[i + 1..]));
    TokensOfOne(cur);
  }

  lemma ReadEnd(wanted: seq<string>, args: seq<string>, m: Mode, cur: string, rest: string)
    requires Reading(wanted, args, m, cur, rest)
    requires rest == "" || (m.quote.None? && rest[0] == ')' && m.par <= 1)
    ensures args + Tokens([cur]) == wanted
  {
  }

  method ExtractCallArgs(text: string, callStart: nat) returns (args: seq<string>)
    ensures args == CallArgs(text, callStart)
  {
    hide Strip, Tokens, ArgPieces, Reading, FindChar;
    var p0 := FindChar(text, '(', callStart);
    if p0 < 0 {
      return [];
    }
    args := [];
    var i: nat, cur := p0 + 1, "";
    var depthPar: nat, depthAng: nat, depthBr: nat, depthBrace: nat := 1, 0, 0, 0;
    var inStr: Option<char>, esc := None, false;
    ghost var wanted := CallArgs(text, callStart);
    ReadStart(text, callStart);
    while i < |text| && depthPar > 0
      invariant i <= |text|
      invariant depthPar > 0 && Sane(Mode(depthPar, depthAng, depthBr, depthBrace, inStr, esc))
      invariant Reading(wanted, args, Mode(depthPar, depthAng, depthBr, depthBrace, inStr, esc), cur, text[i..])
      decreases |text| - i
    {
      var ch := text[i];
      ghost var m := Mode(depthPar, depthAng, depthBr, depthBrace, inStr, esc);
      if inStr.Some? {
        ReadOn(wanted, args, m, cur, text, i);
        cur := cur + [ch];
        if esc {
          esc := false;
        } else if ch == '\\' {
          esc := true;
        } else if ch == inStr.value {
          inStr := None;
        }
        i := i + 1;
        continue;
      }
      if IsQuote(ch) {
        ReadOn(wanted, args, m, cur, text, i);
        inStr := Some(ch);
        cur := cur + [ch];
        i := i + 1;
        continue;
      }
      if ch == '(' {
        depthPar := depthPar + 1;
      } else if ch == ')' {
        if depthPar == 1 {
          break;
        }
        depthPar := depthPar - 1;
      } else if ch == '<' {
        depthAng := depthAng + 1;
      } else if ch == '>' {
        depthAng := Down(depthAng);
      } else if ch == '[' {
        depthBr := depthBr + 1;
      } else if ch == ']' {
        depthBr := Down(depthBr);
      } else if ch == '{' {
        depthBrace := depthBrace + 1;
      } else if ch == '}' {
        depthBrace := Down(depthBrace);
      }
      if ch == ',' && depthPar == 1 && depthAng == 0 && depthBr == 0 && depthBrace == 0 {
        ReadComma(wanted, args, m, cur, text, i);
        TokensOfOne(cur);
        var tok := Strip(cur);
        args := args + (if tok == "" then [] else [tok]);
        cur := "";
      } else {
        ReadOn(wanted, args, m, cur, text, i);
        cur := cur + [ch];
      }
      i := i + 1;
    }
    ReadEnd(wanted, args, Mode(depthPar, depthAng, depthBr, depthBrace, inStr, esc), cur, text[i..]);
    TokensOfOne(cur);
    var tok := Strip(cur);
    args := args + (if tok == "" then [] else [tok]);
  }

  lemma ReadStart(text: string, callStart: nat)
    requires FindChar(text, '(', callStart) >= 0
    ensures Reading(CallArgs(text, callStart), [], ZERO.(par := 1), "", text[FindChar(text, '(', callStart) + 1..])
  {
  }

  /** Outside strings no parenthesis is closed before it is opened, and at the end all are closed. */
  predicate Balanced(m: Mode, s: string)
    decreases |s|
  {
    if s == "" then m.par == 0 && m.quote.None?
    else !(m.quote.None? && s[0] == ')' && m.par == 0) && Balanced(Next(m, s[0]), s[1..])
  }

  function Up(m: Mode): Mode {
    m.(par := m.par + 1)
  }

  lemma NextUp(m: Mode, c: char)
    requires !(m.quote.None? && c == ')' && m.par == 0)
    ensures Next(Up(m), c) == Up(Next(m, c))
    ensures Splits(Up(m), c, 1) <==> Splits(m, c, 0)
    ensures !(Up(m).quote.None? && c == ')' && Up(m).par <= 1)
  {
  }

  lemma {:induction false} BalancedPieces(m: Mode, cur: string, s: string, rest: string)
    requires Balanced(m, s)
    ensures ArgPieces(Up(m), cur, s + ")" + rest) == Pieces(m, cur, s)
    decreases |s|
  {
    var all := s + ")" + rest;
    if s == "" {
      assert all[0] == ')';
    } else {
      assert all[0] == s[0] && all[1..] == s[1..] + ")" + rest;
      NextUp(m, s[0]);
      hide Next, Up, Splits;
      if Splits(m, s[0], 0) {
        BalancedPieces(m, "", s[1..], rest);
      } else {
        BalancedPieces(Next(m, s[0]), cur + [s[0]], s[1..], rest);
      }
    }
  }

  /**
   * The arguments of a call whose text between the parentheses is balanced outside strings are what
   * the parameter splitter makes of that text, whatever comes before the call and after it.
   */
  lemma ScannersAgree(before: string, s: string, rest: string, callStart: nat)
    requires callStart <= |before| && forall k | callStart <= k < |before| :: before[k] != '('
    requires Balanced(ZERO, s)
    ensures CallArgs(before + "(" + s + ")" + rest, callStart) == SplitParams(s)
  {
    hide Strip, Tokens, Pieces, ArgPieces, Balanced, FindChar;
    var text := before + "(" + s + ")" + rest;
    CallStartsAt(before, s + ")" + rest, callStart);
    assert before + "(" + (s + ")" + rest) == text;
    BalancedPieces(ZERO, "", s, rest);
  }

  lemma CallStartsAt(before: string, rest: string, callStart: nat)
    requires callStart <= |before| && forall k | callStart <= k < |before| :: before[k] != '('
    ensures FindChar(before + "(" + rest, '(', callStart) == |before|
    ensures (before + "(" + rest)[|before| + 1..] == rest
  {
    var text := before + "(" + rest;
    assert text[|before|] == '(';
    assert forall k | callStart <= k < |before| :: text[k] == before[k];
  }

  // ----- Splitting is stable -----

  function Join(tokens: seq<string>): string {
    if tokens == [] then ""
    else if |tokens| == 1 then tokens[0]
    else tokens[0] + "," + Join(tokens[1..])
  }

  function After(m: Mode, s: string): Mode
    decreases |s|
  {
    if s == "" then m else After(Next(m, s[0]), s[1..])
  }

  /** Read from mode `m`, the text has no top-level comma. */
  predicate Clean(m: Mode, s: string)
    decreases |s|
  {
    s == "" || (!Splits(m, s[0], 0) && Clean(Next(m, s[0]), s[1..]))
  }

  /** No piece has a top-level comma, and all but the last leave nothing open. */
  predicate Chain(pieces: seq<string>) {
    pieces == [] ||
    (Clean(ZERO, pieces[0]) && (|pieces| > 1 ==> After(ZERO, pieces[0]) == ZERO) && Chain(pieces[1..]))
  }

  lemma {:induction false} CleanConcat(m: Mode, a: string, b: string)
    ensures After(m, a + b) == After(After(m, a), b)
    ensures Clean(m, a + b) <==> Clean(m, a) && Clean(After(m, a), b)
    decreases |a|
  {
    if a == "" {
      assert a + b == b;
    } else {
      assert (a + b)[0] == a[0] && (a + b)[1..] == a[1..] + b;
      CleanConcat(Next(m, a[0]), a[1..], b);
    }
  }

  lemma NextSane(m: Mode, c: char)
    requires Sane(m)
    ensures Sane(Next(m, c))
    ensures Splits(m, c, 0) ==> m == ZERO
  {
  }

  /** No piece has a top-level comma, the first one read on from `cur`. */
  lemma {:induction false} PiecesChain(m: Mode, cur: string, s: string) returns (first: string)
    requires Sane(m)
    ensures var pieces := Pieces(m, cur, s);
            && pieces[0] == cur + first && Clean(m, first)
            && (|pieces| > 1 ==> After(m, first) == ZERO)
            && Chain(pieces[1..])
    decreases |s|
  {
    if s == "" {
      first := "";
    } else {
      NextSane(m, s[0]);
      hide Sane, Next, Splits;
      if Splits(m, s[0], 0) {
        first := "";
        var next := PiecesChain(m, "", s[1..]);
        assert Pieces(m, "", s[1..])[0] == next;
      } else {
        var next := PiecesChain(Next(m, s[0]), cur + [s[0]], s[1..]);
        first := [s[0]] + next;
        assert cur + [s[0]] + next == cur + first;
      }
    }
  }

  lemma {:induction false} PiecesJoin(m: Mode, cur: string, s: string)
    ensures Join(Pieces(m, cur, s)) == cur + s
    decreases |s|
  {
    if s == "" {
      assert cur + s == cur;
    } else if Splits(m, s[0], 0) {
      PiecesJoin(m, "", s[1..]);
      assert cur + "," + s[1..] == cur + s;
    } else {
      hide Splits, Next;
      PiecesJoin(Next(m, s[0]), cur + [s[0]], s[1..]);
      assert cur + [s[0]] + s[1..] == cur + s;
    }
  }

  /** Cutting a text loses only the commas it is cut at. */
  lemma PiecesJoinBack(s: string)
    ensures Join(Pieces(ZERO, "", s)) == s && Chain(Pieces(ZERO, "", s))
  {
    PiecesJoin(ZERO, "", s);
    var first := PiecesChain(ZERO, "", s);
    var pieces := Pieces(ZERO, "", s);
    assert pieces[0] == first && "" + s == s;
  }

  lemma {:induction false} PieceThenMore(m: Mode, cur: string, piece: string, rest: string)
    requires Clean(m, piece) && After(m, piece) == ZERO
    ensures Pieces(m, cur, piece + "," + rest) == [cur + piece] + Pieces(ZERO, "", rest)
    decreases |piece|
  {
    var all := piece + "," + rest;
    if piece == "" {
      assert all[0] == ',' && all[1..] == rest && cur + piece == cur;
    } else {
      assert all[0] == piece[0] && all[1..] == piece[1..] + "," + rest;
      PieceThenMore(Next(m, piece[0]), cur + [piece[0]], piece[1..], rest);
      assert cur + [piece[0]] + piece[1..] == cur + piece;
    }
  }

  lemma {:induction false} LastPiece(m: Mode, cur: string, piece: string)
    requires Clean(m, piece)
    ensures Pieces(m, cur, piece) == [cur + piece]
    decreases |piece|
  {
    if piece == "" {
      assert cur + piece == cur;
    } else {
      LastPiece(Next(m, piece[0]), cur + [piece[0]], piece[1..]);
      assert cur + [piece[0]] + piece[1..] == cur + piece;
    }
  }

  /** Pieces that form a chain are found again in their join. */
  lemma {:induction false} PiecesOfJoin(pieces: seq<string>)
    requires pieces != [] && Chain(pieces)
    ensures Pieces(ZERO, "", Join(pieces)) == pieces
    decreases |pieces|
  {
    assert "" + pieces[0] == pieces[0];
    if |pieces| == 1 {
      LastPiece(ZERO, "", pieces[0]);
    } else {
      PiecesOfJoin(pieces[1..]);
      PieceThenMore(ZERO, "", pieces[0], Join(pieces[1..]));
    }
  }

  lemma {:induction false} BlankChangesNothing(pad: string)
    requires Blank(pad)
    ensures After(ZERO, pad) == ZERO
    decreases |pad|
  {
    if pad != "" {
      assert pad[0] in pad && IsSpace(pad[0]);
      BlankChangesNothing(pad[1..]);
    }
  }

  lemma {:induction false} BlankClosesNothing(m: Mode, pad: string)
    requires Sane(m) && Blank(pad) && After(m, pad) == ZERO
    ensures m == ZERO
    decreases |pad|
  {
    if pad != "" {
      assert pad[0] in pad && IsSpace(pad[0]);
      BlankClosesNothing(Next(m, pad[0]), pad[1..]);
    }
  }

  lemma {:induction false} StaysSane(m: Mode, s: string)
    requires Sane(m)
    ensures Sane(After(m, s))
    decreases |s|
  {
    if s != "" {
      StaysSane(Next(m, s[0]), s[1..]);
    }
  }

  lemma StripKeepsClean(piece: string)
    requires Clean(ZERO, piece)
    ensures Clean(ZERO, Strip(piece))
    ensures After(ZERO, piece) == ZERO ==> After(ZERO, Strip(piece)) == ZERO
  {
    var left, right := StripCuts(piece);
    hide Strip;
    var core := Strip(piece);
    CleanConcat(ZERO, left + core, right);
    CleanConcat(ZERO, left, core);
    BlankChangesNothing(left);
    StaysSane(ZERO, core);
    if After(ZERO, piece) == ZERO {
      BlankClosesNothing(After(ZERO, core), right);
    }
  }

  predicate AllTrimmed(tokens: seq<string>) {
    forall i | 0 <= i < |tokens| :: tokens[i] != "" && Trimmed(tokens[i])
  }

  lemma {:induction false} TokensChain(pieces: seq<string>)
    requires Chain(pieces)
    ensures Chain(Tokens(pieces)) && AllTrimmed(Tokens(pieces))
    ensures |Tokens(pieces)| <= |pieces|
    decreases |pieces|
  {
    if pieces != [] {
      StripKeepsClean(pieces[0]);
      TokensChain(pieces[1..]);
      var left, right := StripCuts(pieces[0]);
      hide Strip, Clean, After;
      var tokens := Tokens(pieces);
      if Strip(pieces[0]) != "" {
        assert tokens[1..] == Tokens(pieces[1..]);
      } else {
        assert tokens == Tokens(pieces[1..]);
      }
    }
  }

  lemma {:induction false} TokensOfTrimmed(tokens: seq<string>)
    requires AllTrimmed(tokens)
    ensures Tokens(tokens) == tokens
    decreases |tokens|
  {
    if tokens != [] {
      StripOfTrimmed(tokens[0]);
      TokensOfTrimmed(tokens[1..]);
    }
  }

  /** Splitting the comma-join of what a text was split into gives the same again. */
  lemma SplittingIsStable(s: string)
    ensures SplitParams(Join(SplitParams(s))) == SplitParams(s)
  {
    PiecesJoinBack(s);
    TokensChain(Pieces(ZERO, "", s));
    var tokens := SplitParams(s);
    if tokens == [] {
      assert Strip("") == "";
      assert Tokens([""]) == [];
    } else {
      PiecesOfJoin(tokens);
      TokensOfTrimmed(tokens);
    }
  }

  // ----- Nested text -----

  datatype Bracket = Round | Angle | Square | Curly

  function Opening(b: Bracket): char {
    match b
    case Round => '('
    case Angle => '<'
    case Square => '['
    case Curly => '{'
  }

  function Closing(b: Bracket): char {
    match b
    case Round => ')'
    case Angle => '>'
    case Square => ']'
    case Curly => '}'
  }

  /** Text in which every bracket has its match and every string its end. */
  datatype Nested =
    | Done
    | Plain(c: char, rest: Nested)
    | Quoted(mark: char, body: string, rest: Nested)
    | Group(bracket: Bracket, inner: Nested, rest: Nested)

  function Written(t: Nested): string {
    match t
    case Done => ""
    case Plain(c, rest) => [c] + Written(rest)
    case Quoted(mark, body, rest) => [mark] + (body + ([mark] + Written(rest)))
    case Group(bracket, inner, rest) => [Opening(bracket)] + (Written(inner) + ([Closing(bracket)] + Written(rest)))
  }

  predicate IsBracket(c: char) {
    c == '(' || c == ')' || c == '[' || c == ']' || c == '{' || c == '}' || c == '<' || c == '>'
  }

  /** Plain characters are no quotes or brackets and, outside brackets, no commas. */
  predicate IsNested(t: Nested, inside: bool) {
    match t
    case Done => true
    case Plain(c, rest) => !IsMark(c) && !IsBracket(c) && (c == ',' ==> inside) && IsNested(rest, inside)
    case Quoted(mark, body, rest) => IsMark(mark) && IsBody(mark, body) && IsNested(rest, inside)
    case Group(_, inner, rest) => IsNested(inner, true) && IsNested(rest, inside)
  }

  predicate InCode(m: Mode) {
    m.quote.None? && !m.esc
  }

  predicate InBrackets(m: Mode) {
    m.par > 0 || m.ang > 0 || m.br > 0 || m.brace > 0
  }

  function Opened(m: Mode, b: Bracket): Mode {
    match b
    case Round => m.(par := m.par + 1)
    case Angle => m.(ang := m.ang + 1)
    case Square => m.(br := m.br + 1)
    case Curly => m.(brace := m.brace + 1)
  }

  lemma BracketSteps(m: Mode, b: Bracket)
    requires InCode(m)
    ensures Next(m, Opening(b)) == Opened(m, b) && Next(Opened(m, b), Closing(b)) == m
    ensures !Splits(m, Opening(b), 0) && !Splits(Opened(m, b), Closing(b), 0)
    ensures InCode(Opened(m, b)) && InBrackets(Opened(m, b))
    ensures Opening(b) != ')' && (Closing(b) == ')' ==> Opened(m, b).par > 0)
  {
  }

  lemma PlainSteps(m: Mode, c: char)
    requires InCode(m) && !IsMark(c) && !IsBracket(c)
    ensures Next(m, c) == m && c != ')'
    ensures Splits(m, c, 0) <==> c == ',' && !InBrackets(m)
  {
  }

  lemma QuoteSteps(m: Mode, mark: char)
    requires InCode(m) && IsMark(mark)
    ensures Next(m, mark) == m.(quote := Some(mark)) && Next(m.(quote := Some(mark)), mark) == m
    ensures !Splits(m, mark, 0) && !Splits(m.(quote := Some(mark)), mark, 0) && mark != ')'
  {
  }

  lemma OneThenMore(m: Mode, c: char, s: string)
    ensures After(m, [c] + s) == After(Next(m, c), s)
    ensures Clean(m, [c] + s) <==> !Splits(m, c, 0) && Clean(Next(m, c), s)
    ensures Balanced(m, [c] + s) <==> !(m.quote.None? && c == ')' && m.par == 0) && Balanced(Next(m, c), s)
  {
    hide Next, Splits;
    assert ([c] + s)[1..] == s;
  }

  /** A string is read to its end as it is, and nothing in it cuts or closes anything. */
  lemma {:induction false} BodyIsSkipped(m: Mode, mark: char, body: string, rest: string)
    requires m.quote == Some(mark) && !m.esc && IsMark(mark) && IsBody(mark, body)
    ensures After(m, body + rest) == After(m, rest)
    ensures Clean(m, body + rest) <==> Clean(m, rest)
    ensures Balanced(m, body + rest) <==> Balanced(m, rest)
    decreases |body|
  {
    hide After, Clean, Balanced;
    if body == "" {
      assert body + rest == rest;
    } else if body[0] == '\\' {
      var escaped := m.(esc := true);
      assert body + rest == [body[0]] + ([body[1]] + (body[2..] + rest));
      assert Next(m, body[0]) == escaped && Next(escaped, body[1]) == m;
      OneThenMore(m, body[0], [body[1]] + (body[2..] + rest));
      OneThenMore(escaped, body[1], body[2..] + rest);
      BodyIsSkipped(m, mark, body[2..], rest);
    } else {
      assert body + rest == [body[0]] + (body[1..] + rest);
      assert Next(m, body[0]) == m;
      OneThenMore(m, body[0], body[1..] + rest);
      BodyIsSkipped(m, mark, body[1..], rest);
    }
  }

  /** Nested text leaves nothing open, closes nothing, and has no top-level comma. */
  lemma {:induction false} NestedIsSkipped(m: Mode, t: Nested, inside: bool, tail: string)
    requires InCode(m) && IsNested(t, inside) && (inside ==> InBrackets(m))
    ensures After(m, Written(t) + tail) == After(m, tail)
    ensures Clean(m, Written(t) + tail) <==> Clean(m, tail)
    ensures Balanced(m, Written(t) + tail) <==> Balanced(m, tail)
    decreases t
  {
    hide After, Clean, Balanced, Next, Splits, Opening, Closing, Opened, Written, IsMark, IsBracket, IsBody;
    WrittenThen(t, tail);
    match t
    case Done =>
    case Plain(c, rest) =>
      PlainSteps(m, c);
      OneThenMore(m, c, Written(rest) + tail);
      NestedIsSkipped(m, rest, inside, tail);
    case Quoted(mark, body, rest) =>
      QuotedIsSkipped(m, mark, body, Written(rest) + tail);
      NestedIsSkipped(m, rest, inside, tail);
    case Group(b, inner, rest) =>
      var after := Written(rest) + tail;
      BracketSteps(m, b);
      OneThenMore(m, Opening(b), Written(inner) + ([Closing(b)] + after));
      NestedIsSkipped(Opened(m, b), inner, true, [Closing(b)] + after);
      OneThenMore(Opened(m, b), Closing(b), after);
      NestedIsSkipped(m, rest, inside, tail);
  }

  lemma WrittenThen(t: Nested, tail: string)
    ensures match t
            case Done => Written(t) + tail == tail
            case Plain(c, rest) => Written(t) + tail == [c] + (Written(rest) + tail)
            case Quoted(mark, body, rest) => Written(t) + tail == [mark] + (body + ([mark] + (Written(rest) + tail)))
            case Group(b, inner, rest) =>
              Written(t) + tail == [Opening(b)] + (Written(inner) + ([Closing(b)] + (Written(rest) + tail)))
  {
    hide Opening, Closing;
    match t
    case Done =>
    case Plain(c, rest) => Reassociate([c], "", "", Written(rest), tail);
    case Quoted(mark, body, rest) => Reassociate([mark], body, [mark], Written(rest), tail);
    case Group(b, inner, rest) => Reassociate([Opening(b)], Written(inner), [Closing(b)], Written(rest), tail);
  }

  lemma Reassociate<T>(a: seq<T>, b: seq<T>, c: seq<T>, d: seq<T>, e: seq<T>)
    ensures a + (b + (c + d)) + e == a + (b + (c + (d + e)))
    ensures a + d + e == a + (d + e)
  {
  }

  lemma QuotedIsSkipped(m: Mode, mark: char, body: string, rest: string)
    requires InCode(m) && IsMark(mark) && IsBody(mark, body)
    ensures var s := [mark] + (body + ([mark] + rest));
            && After(m, s) == After(m, rest) && (Clean(m, s) <==> Clean(m, rest)) && (Balanced(m, s) <==> Balanced(m, rest))
  {
    hide After, Clean, Balanced, Next, Splits;
    var quoted := m.(quote := Some(mark));
    QuoteSteps(m, mark);
    OneThenMore(m, mark, body + ([mark] + rest));
    BodyIsSkipped(quoted, mark, body, [mark] + rest);
    OneThenMore(quoted, mark, rest);
  }

  function AllWritten(texts: seq<Nested>): (r: seq<string>)
    ensures |r| == |texts|
  {
    if texts == [] then [] else [Written(texts[0])] + AllWritten(texts[1..])
  }

  lemma {:induction false} NestedChain(texts: seq<Nested>)
    requires forall t | t in texts :: IsNested(t, false)
    ensures Chain(AllWritten(texts))
    ensures Balanced(ZERO, Join(AllWritten(texts)))
    decreases |texts|
  {
    hide After, Clean, Written, IsNested, Next, Splits;
    if texts == [] {
      assert Balanced(ZERO, "");
    } else {
      var first, pieces := Written(texts[0]), AllWritten(texts);
      NestedChain(texts[1..]);
      assert pieces[1..] == AllWritten(texts[1..]) && first + "" == first;
      NothingLeft();
      NestedIsSkipped(ZERO, texts[0], false, "");
      if |texts| > 1 {
        var more := Join(AllWritten(texts[1..]));
        NestedIsSkipped(ZERO, texts[0], false, "," + more);
        CommaIsBalanced(more);
        assert first + "," + more == first + ("," + more);
      }
    }
  }

  lemma NothingLeft()
    ensures After(ZERO, "") == ZERO && Clean(ZERO, "") && Balanced(ZERO, "")
  {
  }

  lemma CommaIsBalanced(s: string)
    ensures Balanced(ZERO, "," + s) <==> Balanced(ZERO, s)
  {
    OneThenMore(ZERO, ',', s);
  }

  /**
   * Texts whose commas are all within brackets of the four kinds or within strings, joined by commas,
   * are cut at just those: both as parameters and as the arguments of a call.
   */
  lemma CutsAtTopLevelOnly(texts: seq<Nested>, before: string, rest: string, callStart: nat)
    requires texts != [] && forall t | t in texts :: IsNested(t, false)
    requires callStart <= |before| && forall k | callStart <= k < |before| :: before[k] != '('
    ensures var s := Join(AllWritten(texts));
            && Pieces(ZERO, "", s) == AllWritten(texts)
            && SplitParams(s) == Tokens(AllWritten(texts))
            && CallArgs(before + "(" + s + ")" + rest, callStart) == Tokens(AllWritten(texts))
  {
    hide Tokens, CallArgs, Chain, IsNested, Written, Balanced;
    NestedChain(texts);
    PiecesOfJoin(AllWritten(texts));
    ScannersAgree(before, Join(AllWritten(texts)), rest, callStart);
  }
}
