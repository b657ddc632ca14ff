/**
 * Finding the end of a `{...}` block in code with strings and comments, and inserting text before its
 * closing brace. Models `extract_brace_block` of `backend/app/parsing_utils.py` and the use that the
 * editors of `backend/app/py_edits.py` and `backend/app/ts_edits.py` make of it.
 */
module BraceBlock {
  import opened Basics

  // ----- What is code, one character at a time -----

  /** `slash` is a slash just read that may open a comment, `star` a star that may close one. */
  datatype Mode = Code(slash: bool) | LineComment | BlockComment(star: bool) | Str(quote: char, esc: bool)

  predicate IsQuote(c: char) {
    c == '\'' || c == '"' || c == '`'
  }

  function Next(m: Mode, c: char): Mode {
    match m
    case Code(slash) =>
      if slash && c == '/' then LineComment
      else if slash && c == '*' then BlockComment(false)
      else if c == '/' then Code(true)
      else if IsQuote(c) then Str(c, false)
      else Code(false)
    case LineComment => if c == '\n' then Code(false) else LineComment
    case BlockComment(star) => if star && c == '/' then Code(false) else BlockComment(c == '*')
    case Str(quote, esc) =>
      if esc then Str(quote, false)
      else if c == '\\' then Str(quote, true)
      else if c == quote then Code(false)
      else m
  }

  /** What a character adds to the depth: only braces in code count. */
  function Weight(m: Mode, c: char): int {
    if m.Code? && c == '{' then 1 else if m.Code? && c == '}' then -1 else 0
  }

  function After(m: Mode, s: string): Mode
    decreases |s|
  {
    if s == "" then m else After(Next(m, s[0]), s[1..])
  }

  /** The depth after `n` characters. */
  function Depth(m: Mode, s: string, n: nat): int
    requires n <= |s|
    decreases n
  {
    if n == 0 then 0 else Weight(m, s[0]) + Depth(Next(m, s[0]), s[1..], n - 1)
  }

  /** The count of characters up to the brace that brings the depth from `depth` to zero. */
  function CloseAt(m: Mode, s: string, depth: int): Option<nat>
    decreases |s|
  {
    if s == "" then None
    else if Weight(m, s[0]) == -1 && depth == 1 then Some(1)
    else
      var rest := CloseAt(Next(m, s[0]), s[1..], depth + Weight(m, s[0]));
      if rest.None? then None else Some(rest.value + 1)
  }

  predicate StartsBlock(text: string, bracePos: int) {
    0 <= bracePos < |text| && text[bracePos] == '{'
  }

  function Block(text: string, bracePos: int): Option<(int, int)> {
    if !StartsBlock(text, bracePos) then None
    else
      var length := CloseAt(Code(false), text[bracePos..], 0);
      if length.None? then None else Some((bracePos, bracePos + length.value))
  }

  // ----- The scanner -----

  /** From position `i` on, the block ends where it is wanted. */
  ghost predicate Seeking(wanted: Option<nat>, text: string, i: nat, m: Mode, depth: int) {
    && i <= |text|
    && var length := CloseAt(m, text[i..], depth);
       wanted == if length.None? then None else Some(i + length.value)
  }

  lemma SeekOn(wanted: Option<nat>, text: string, i: nat, m: Mode, depth: int)
    requires i < |text| && Seeking(wanted, text, i, m, depth) && !(Weight(m, text[i]) == -1 && depth == 1)
    ensures Seeking(wanted, text, i + 1, Next(m, text[i]), depth + Weight(m, text[i]))
  {
    hide Next, Weight;
    assert text[i..][0] == text[i] && text[i..][1..] == text[i + 1..];
  }

  lemma SeekEnds(wanted: Option<nat>, text: string, i: nat, m: Mode)
    requires i < |text| && Seeking(wanted, text, i, m, 1) && Weight(m, text[i]) == -1
    ensures wanted == Some(i + 1)
  {
  }

  /** A slash opens nothing, and a star closes nothing, unless the next character says so. */
  lemma SeekAlone(wanted: Option<nat>, text: string, i: nat, m: Mode, depth: int)
    requires Seeking(wanted, text, i, m, depth)
    requires m == Code(true) || m == BlockComment(true)
    requires i < |text| ==> text[i] != '/' && (m.Code? ==> text[i] != '*')
    ensures Seeking(wanted, text, i, if m.Code? then Code(false) else BlockComment(false), depth)
  {
    if i < |text| {
      assert text[i..][0] == text[i];
    }
  }

  lemma SeekFails(wanted: Option<nat>, text: string, m: Mode, depth: int)
    requires Seeking(wanted, text, |text|, m, depth)
    ensures wanted.None?
  {
  }

  function ModeOf(inStr: Option<char>, esc: bool, inLineComment: bool, inBlockComment: bool): Mode {
    if inLineComment then LineComment
    else if inBlockComment then BlockComment(false)
    else if inStr.Some? then Str(inStr.value, esc)
    else Code(false)
  }

  method ExtractBraceBlock(text: string, bracePos: int) returns (block: Option<(int, int)>)
    ensures block == Block(text, bracePos)
  {
    hide Seeking, CloseAt;
    if bracePos < 0 || bracePos >= |text| || text[bracePos] != '{' {
      return None;
    }
    var i: nat, depth: int := bracePos, 0;
    var inStr: Option<char>, esc := None, false;
    var inLineComment, inBlockComment := false, false;
    ghost var wanted := SeekStart(text, bracePos);
    while i < |text|
      invariant i <= |text|
      invariant inStr.None? ==> !esc
      invariant inLineComment ==> !inBlockComment
      invariant inLineComment || inBlockComment ==> inStr.None?
      invariant Seeking(wanted, text, i, ModeOf(inStr, esc, inLineComment, inBlockComment), depth)
      decreases |text| - i
    {
      var ch := text[i];
      var nxt := if i + 1 < |text| then Some(text[i + 1]) else None;
      ghost var m := ModeOf(inStr, esc, inLineComment, inBlockComment);
      if !(m.Code? && ch == '}' && depth == 1) {
        SeekOn(wanted, text, i, m, depth);
      }
      if inLineComment {
        if ch == '\n' {
          inLineComment := false;
        }
        i := i + 1;
        continue;
      }
      if inBlockComment {
        if ch == '*' {
          if nxt == Some('/') {
            SeekOn(wanted, text, i + 1, BlockComment(true), depth);
            inBlockComment := false;
            i := i + 2;
            continue;
          }
          SeekAlone(wanted, text, i + 1, BlockComment(true), depth);
        }
        i := i + 1;
        continue;
      }
      if inStr.Some? {
        if esc {
          esc := false;
        } else if ch == '\\' {
          esc := true;
        } else if ch == inStr.value {
          inStr := None;
        }
        i := i + 1;
        continue;
      }
      if ch == '/' {
        if nxt == Some('/') {
          SeekOn(wanted, text, i + 1, Code(true), depth);
          inLineComment := true;
          i := i + 2;
          continue;
        }
        if nxt == Some('*') {
          SeekOn(wanted, text, i + 1, Code(true), depth);
          inBlockComment := true;
          i := i + 2;
          continue;
        }
        SeekAlone(wanted, text, i + 1, Code(true), depth);
      }
      if IsQuote(ch) {
        inStr := Some(ch);
        i := i + 1;
        continue;
      }
      if ch == '{' {
        depth := depth + 1;
      } else if ch == '}' {
        depth := depth - 1;
        if depth == 0 {
          SeekEnds(wanted, text, i, m);
          return Some((bracePos, i + 1));
        }
      }
      i := i + 1;
    }
    SeekFails(wanted, text, ModeOf(inStr, esc, inLineComment, inBlockComment), depth);
    block := None;
  }

  lemma SeekStart(text: string, bracePos: nat) returns (wanted: Option<nat>)
    requires StartsBlock(text, bracePos)
    ensures Seeking(wanted, text, bracePos, Code(false), 0)
    ensures Block(text, bracePos) == if wanted.None? then None else Some((bracePos as int, wanted.value as int))
  {
    var length := CloseAt(Code(false), text[bracePos..], 0);
    wanted := if length.None? then None else Some(bracePos + length.value);
  }

  // ----- What the block is -----

  /** The depth of the block from `bracePos` on when the text before `at` has been read. */
  function DepthAt(text: string, bracePos: nat, at: nat): int
    requires bracePos <= at <= |text|
  {
    Depth(Code(false), text[bracePos..], at - bracePos)
  }

  /** The depth returns to zero at `end`, for the first time. */
  ghost predicate FirstReturn(text: string, bracePos: nat, end: nat) {
    && bracePos < end <= |text|
    && DepthAt(text, bracePos, end) == 0
    && forall at | bracePos < at < end :: DepthAt(text, bracePos, at) > 0
  }

  lemma {:induction false} CloseIsFirst(m: Mode, s: string, depth: int)
    requires depth > 0
    ensures match CloseAt(m, s, depth)
            case Some(k) => 0 < k <= |s| && depth + Depth(m, s, k) == 0
                            && forall n: nat | n < k :: depth + Depth(m, s, n) > 0
            case None => forall n: nat | n <= |s| :: depth + Depth(m, s, n) > 0
    decreases |s|
  {
    if s != "" && !(Weight(m, s[0]) == -1 && depth == 1) {
      var w, tail, next := Weight(m, s[0]), s[1..], Next(m, s[0]);
      CloseIsFirst(next, tail, depth + w);
      hide CloseAt, Next, Weight;
      forall n: nat | 0 < n <= |s| ensures Depth(m, s, n) == w + Depth(next, tail, n - 1) {
      }
    }
  }

  lemma DepthInside(text: string, bracePos: nat, at: nat)
    requires StartsBlock(text, bracePos) && bracePos < at <= |text|
    ensures DepthAt(text, bracePos, at) == 1 + Depth(Code(false), text[bracePos + 1..], at - bracePos - 1)
  {
    assert text[bracePos..][1..] == text[bracePos + 1..];
  }

  lemma BlockLength(text: string, bracePos: nat)
    requires StartsBlock(text, bracePos)
    ensures var rest := CloseAt(Code(false), text[bracePos + 1..], 1);
            Block(text, bracePos) ==
            if rest.None? then None else Some((bracePos as int, bracePos + 1 + rest.value))
  {
    assert text[bracePos..][0] == '{' && text[bracePos..][1..] == text[bracePos + 1..];
  }

  /** A block is found exactly when the depth returns to zero, and it ends where it first does. */
  lemma BlockIsFirstReturn(text: string, bracePos: nat, end: nat)
    requires StartsBlock(text, bracePos)
    ensures Block(text, bracePos) == Some((bracePos as int, end as int)) <==> FirstReturn(text, bracePos, end)
    ensures Block(text, bracePos).None? <==> !exists at: nat :: FirstReturn(text, bracePos, at)
  {
    var s := text[bracePos + 1..];
    CloseIsFirst(Code(false), s, 1);
    BlockLength(text, bracePos);
    forall at: nat | bracePos < at <= |text|
      ensures DepthAt(text, bracePos, at) == 1 + Depth(Code(false), s, at - bracePos - 1)
    {
      DepthInside(text, bracePos, at);
    }
    var length := CloseAt(Code(false), s, 1);
    hide Depth, CloseAt, DepthAt;
    if length.Some? {
      assert FirstReturn(text, bracePos, bracePos + 1 + length.value);
    }
    forall at: nat | FirstReturn(text, bracePos, at) ensures length == Some((at - bracePos - 1) as nat) {
      if length.Some? {
        OneFirstReturn(text, bracePos, at, bracePos + 1 + length.value);
      }
    }
  }

  lemma OneFirstReturn(text: string, bracePos: nat, a: nat, b: nat)
    requires FirstReturn(text, bracePos, a) && FirstReturn(text, bracePos, b)
    ensures a == b
  {
  }

  // ----- Text past the block, and text put in before its end -----

  lemma {:induction false} DepthAdds(m: Mode, a: string, b: string, n: nat)
    requires n <= |a| + |b|
    ensures After(m, a + b) == After(After(m, a), b)
    ensures n <= |a| ==> Depth(m, a + b, n) == Depth(m, a, n)
    ensures n >= |a| ==> Depth(m, a + b, n) == Depth(m, a, |a|) + Depth(After(m, a), b, n - |a|)
    decreases |a|
  {
    if a == "" {
      assert a + b == b;
    } else {
      assert (a + b)[0] == a[0] && (a + b)[1..] == a[1..] + b;
      DepthAdds(Next(m, a[0]), a[1..], b, if n == 0 then 0 else n - 1);
    }
  }

  /** What follows a block has no part in finding it. */
  lemma RestNeverMatters(text: string, bracePos: nat, end: nat, other: string)
    requires Block(text, bracePos) == Some((bracePos as int, end as int))
    ensures end <= |text| && Block(text[..end] + other, bracePos) == Some((bracePos as int, end as int))
  {
    BlockIsFirstReturn(text, bracePos, end);
    var inside, after, changed := text[bracePos..end], text[end..], text[..end] + other;
    assert text[bracePos..] == inside + after;
    assert changed[bracePos..] == inside + other;
    forall at: nat | bracePos <= at <= end ensures DepthAt(changed, bracePos, at) == DepthAt(text, bracePos, at) {
      DepthAdds(Code(false), inside, after, at - bracePos);
      DepthAdds(Code(false), inside, other, at - bracePos);
    }
    hide Depth, DepthAt, Block;
    assert FirstReturn(changed, bracePos, end);
    BlockIsFirstReturn(changed, bracePos, end);
  }

  /** Read from mode `m`, the text ends in code, and closes the braces it opens and no other. */
  ghost predicate Neutral(m: Mode, ins: string) {
    && After(m, ins).Code?
    && Depth(m, ins, |ins|) == 0
    && forall n: nat | n <= |ins| :: Depth(m, ins, n) >= 0
  }

  /** The character before the insertion is a slash that the insertion would make open a comment. */
  predicate OpensComment(before: char, ins: string) {
    before == '/' && ins != "" && (ins[0] == '/' || ins[0] == '*')
  }

  lemma SlashBefore(m: Mode, ins: string, n: nat)
    requires m.Code? && n <= |ins| && (m.slash ==> ins == "" || (ins[0] != '/' && ins[0] != '*'))
    ensures Depth(m, ins, n) == Depth(Code(false), ins, n)
    ensures ins != "" ==> After(m, ins) == After(Code(false), ins)
  {
    if ins != "" {
      assert Next(m, ins[0]) == Next(Code(false), ins[0]);
    }
  }

  lemma {:induction false} SlashIsLast(m: Mode, s: string)
    requires m != Code(true) && After(m, s) == Code(true)
    ensures s != "" && s[|s| - 1] == '/'
    decreases |s|
  {
    if |s| > 1 && Next(m, s[0]) != Code(true) {
      SlashIsLast(Next(m, s[0]), s[1..]);
    } else if |s| > 1 {
      SlashIsLastAfterSlash(s[1..]);
    }
  }

  lemma {:induction false} SlashIsLastAfterSlash(s: string)
    requires s != "" && After(Code(true), s) == Code(true)
    ensures s[|s| - 1] == '/'
    decreases |s|
  {
    if |s| > 1 {
      if Next(Code(true), s[0]) == Code(true) {
        SlashIsLastAfterSlash(s[1..]);
      } else {
        SlashIsLast(Next(Code(true), s[0]), s[1..]);
      }
    }
  }

  /** The mode in which the closing brace of a block is read. */
  function ModeAtClose(text: string, bracePos: nat, end: nat): Mode
    requires bracePos < end <= |text|
  {
    After(Code(false), text[bracePos..end - 1])
  }

  lemma DepthOne(m: Mode, b: string)
    requires b != ""
    ensures Depth(m, b, 1) == Weight(m, b[0])
  {
    assert Depth(Next(m, b[0]), b[1..], 0) == 0;
  }

  lemma ClosingBrace(text: string, bracePos: nat, end: nat)
    requires StartsBlock(text, bracePos) && FirstReturn(text, bracePos, end)
    ensures bracePos + 1 < end && text[end - 1] == '}' && ModeAtClose(text, bracePos, end).Code?
    ensures Depth(Code(false), text[bracePos..end - 1], end - 1 - bracePos) == 1
  {
    DepthInside(text, bracePos, end);
    var a, b := text[bracePos..end - 1], text[end - 1..];
    assert text[bracePos..] == a + b;
    DepthAdds(Code(false), a, b, |a|);
    DepthAdds(Code(false), a, b, |a| + 1);
    DepthOne(After(Code(false), a), b);
    if end == bracePos + 1 {
      assert false;
    }
    assert DepthAt(text, bracePos, end - 1) > 0;
  }

  lemma InsertedDepth(text: string, bracePos: nat, end: nat, ins: string, at: nat)
    requires StartsBlock(text, bracePos) && FirstReturn(text, bracePos, end)
    requires bracePos <= at <= end + |ins|
    ensures var m, changed := ModeAtClose(text, bracePos, end), text[..end - 1] + ins + text[end - 1..];
            DepthAt(changed, bracePos, at) ==
            if at < end then DepthAt(text, bracePos, at)
            else if at < end + |ins| then 1 + Depth(m, ins, at - (end - 1))
            else 1 + Depth(m, ins, |ins|) + Weight(After(m, ins), '}')
  {
    ClosingBrace(text, bracePos, end);
    InsertedText(text, bracePos, end, ins);
    hide Weight, Next, Depth, After;
    InsertedInside(text[bracePos..end - 1], ins, text[end - 1..], at - bracePos);
  }

  lemma InsertedInside(a: string, ins: string, b: string, n: nat)
    requires b != "" && b[0] == '}' && Depth(Code(false), a, |a|) == 1 && n <= |a| + |ins| + 1
    ensures var m := After(Code(false), a);
            Depth(Code(false), a + (ins + b), n) ==
            if n <= |a| then Depth(Code(false), a + b, n)
            else if n <= |a| + |ins| then 1 + Depth(m, ins, n - |a|)
            else 1 + Depth(m, ins, |ins|) + Weight(After(m, ins), '}')
  {
    hide Weight, Next, Depth, After;
    var m := After(Code(false), a);
    DepthAdds(Code(false), a, ins + b, n);
    if n <= |a| {
      DepthAdds(Code(false), a, b, n);
    } else {
      DepthAdds(m, ins, b, n - |a|);
      DepthOne(After(m, ins), b);
    }
  }

  lemma InsertedText(text: string, bracePos: nat, end: nat, ins: string)
    requires bracePos < end <= |text|
    ensures (text[..end - 1] + ins + text[end - 1..])[bracePos..] == text[bracePos..end - 1] + (ins + text[end - 1..])
    ensures text[bracePos..] == text[bracePos..end - 1] + text[end - 1..]
  {
  }

  /**
   * Text put in before the closing brace moves the end of the block by its length exactly when, read
   * on from there, it ends in code and closes the braces it opens and no other.
   */
  lemma InsertMovesEndIff(text: string, bracePos: nat, end: nat, ins: string)
    requires StartsBlock(text, bracePos) && Block(text, bracePos) == Some((bracePos as int, end as int))
    ensures bracePos + 1 < end <= |text|
    ensures Block(text[..end - 1] + ins + text[end - 1..], bracePos) == Some((bracePos as int, end + |ins|)) <==>
            Neutral(ModeAtClose(text, bracePos, end), ins)
  {
    BlockIsFirstReturn(text, bracePos, end);
    ClosingBrace(text, bracePos, end);
    var m, changed := ModeAtClose(text, bracePos, end), text[..end - 1] + ins + text[end - 1..];
    BlockIsFirstReturn(changed, bracePos, end + |ins|);
    forall at: nat | bracePos <= at <= end + |ins|
      ensures DepthAt(changed, bracePos, at) ==
              if at < end then DepthAt(text, bracePos, at)
              else if at < end + |ins| then 1 + Depth(m, ins, at - (end - 1))
              else 1 + Depth(m, ins, |ins|) + Weight(After(m, ins), '}')
    {
      InsertedDepth(text, bracePos, end, ins, at);
    }
    assert Depth(m, ins, 0) == 0;
    hide Depth, DepthAt, Block, ModeAtClose;
    if FirstReturn(changed, bracePos, end + |ins|) {
      forall n: nat | n <= |ins| ensures Depth(m, ins, n) >= 0 {
        if n > 0 {
          assert DepthAt(changed, bracePos, end - 1 + n) > 0;
        }
      }
    }
  }

  /** What the editors rely on: neutral text that opens no comment with the character before it. */
  lemma InsertMovesEnd(text: string, bracePos: nat, end: nat, ins: string)
    requires StartsBlock(text, bracePos) && Block(text, bracePos) == Some((bracePos as int, end as int))
    requires Neutral(Code(false), ins) && end >= 2 && end <= |text| && !OpensComment(text[end - 2], ins)
    ensures Block(text[..end - 1] + ins + text[end - 1..], bracePos) == Some((bracePos as int, end + |ins|))
  {
    BlockIsFirstReturn(text, bracePos, end);
    ClosingBrace(text, bracePos, end);
    InsertMovesEndIff(text, bracePos, end, ins);
    var a, m := text[bracePos..end - 1], ModeAtClose(text, bracePos, end);
    if m.slash {
      SlashIsLast(Code(false), a);
    }
    forall n: nat | n <= |ins| ensures Depth(m, ins, n) == Depth(Code(false), ins, n) {
      SlashBefore(m, ins, n);
    }
    SlashBefore(m, ins, 0);
  }

  // ----- Code with its strings and comments -----

  /** Code in which every brace has its match, and every string and comment its end. */
  datatype Text =
    | Done
    | Plain(c: char, rest: Text)
    | Divide(c: char, rest: Text)
    | Quoted(mark: char, body: string, rest: Text)
    | Line(body: string, rest: Text)
    | Remark(body: string, rest: Text)
    | Braces(inner: Text, rest: Text)

  function Written(t: Text): string {
    match t
    case Done => ""
    case Plain(c, rest) => [c] + Written(rest)
    case Divide(c, rest) => ['/', c] + Written(rest)
    case Quoted(mark, body, rest) => [mark] + (body + ([mark] + Written(rest)))
    case Line(body, rest) => "//" + (body + ("\n" + Written(rest)))
    case Remark(body, rest) => "/*" + (body + ("*/" + Written(rest)))
    case Braces(inner, rest) => "{" + (Written(inner) + ("}" + Written(rest)))
  }

  predicate IsPlain(c: char) {
    !IsMark(c) && c != '/' && c != '{' && c != '}'
  }

  predicate IsRemark(body: string) {
    forall i | 0 <= i < |body| - 1 :: !(body[i] == '*' && body[i + 1] == '/')
  }

  predicate IsText(t: Text) {
    match t
    case Done => true
    case Plain(c, rest) => IsPlain(c) && IsText(rest)
    case Divide(c, rest) => IsPlain(c) && c != '*' && IsText(rest)
    case Quoted(mark, body, rest) => IsMark(mark) && IsBody(mark, body) && IsText(rest)
    case Line(body, rest) => '\n' !in body && IsText(rest)
    case Remark(body, rest) => IsRemark(body) && IsText(rest)
    case Braces(inner, rest) => IsText(inner) && IsText(rest)
  }

  function Later(at: Option<nat>, k: nat): Option<nat> {
    if at.None? then None else Some(at.value + k)
  }

  /** Reading `s` from mode `m` is reading `rest` from mode `n`, `k` characters later. */
  ghost predicate Passes(m: Mode, s: string, n: Mode, rest: string, depth: int, k: nat) {
    && After(m, s) == After(n, rest)
    && CloseAt(m, s, depth) == Later(CloseAt(n, rest, depth), k)
  }

  lemma PassOne(m: Mode, c: char, rest: string, depth: int)
    requires Weight(m, c) == 0
    ensures Passes(m, [c] + rest, Next(m, c), rest, depth, 1)
  {
    hide Next, Weight;
    assert ([c] + rest)[1..] == rest;
  }

  lemma PassBoth(a: Mode, s: string, b: Mode, t: string, c: Mode, u: string, depth: int, j: nat, k: nat)
    requires Passes(a, s, b, t, depth, j) && Passes(b, t, c, u, depth, k)
    ensures Passes(a, s, c, u, depth, j + k)
  {
    hide After, CloseAt;
  }

  /** A string is passed whatever it holds. */
  lemma {:induction false} BodyPasses(mark: char, body: string, rest: string, depth: int)
    requires IsMark(mark) && IsBody(mark, body)
    ensures Passes(Str(mark, false), body + rest, Str(mark, false), rest, depth, |body|)
    decreases |body|
  {
    hide Passes;
    var m := Str(mark, false);
    if body == "" {
      assert body + rest == rest;
      PassNone(m, rest, depth);
    } else if body[0] == '\\' {
      var more := body[2..] + rest;
      assert body + rest == [body[0]] + ([body[1]] + more);
      PassOne(m, body[0], [body[1]] + more, depth);
      PassOne(Str(mark, true), body[1], more, depth);
      BodyPasses(mark, body[2..], rest, depth);
      PassBoth(m, body + rest, Str(mark, true), [body[1]] + more, m, more, depth, 1, 1);
      PassBoth(m, body + rest, m, more, m, rest, depth, 2, |body| - 2);
    } else {
      var more := body[1..] + rest;
      assert body + rest == [body[0]] + more;
      PassOne(m, body[0], more, depth);
      BodyPasses(mark, body[1..], rest, depth);
      PassBoth(m, body + rest, m, more, m, rest, depth, 1, |body| - 1);
    }
  }

  lemma PassNone(m: Mode, rest: string, depth: int)
    ensures Passes(m, rest, m, rest, depth, 0)
  {
  }

  lemma QuotedPasses(mark: char, body: string, rest: string, depth: int)
    requires IsMark(mark) && IsBody(mark, body)
    ensures Passes(Code(false), [mark] + (body + ([mark] + rest)), Code(false), rest, depth, |body| + 2)
  {
    hide Passes, IsBody;
    var code, m, tail := Code(false), Str(mark, false), [mark] + rest;
    PassOne(code, mark, body + tail, depth);
    BodyPasses(mark, body, tail, depth);
    PassOne(m, mark, rest, depth);
    PassBoth(code, [mark] + (body + tail), m, body + tail, m, tail, depth, 1, |body|);
    PassBoth(code, [mark] + (body + tail), m, tail, code, rest, depth, 1 + |body|, 1);
  }

  lemma {:induction false} LineBodyPasses(body: string, rest: string, depth: int)
    requires '\n' !in body
    ensures Passes(LineComment, body + ("\n" + rest), Code(false), rest, depth, |body| + 1)
    decreases |body|
  {
    hide Passes;
    var tail := "\n" + rest;
    if body == "" {
      assert body + tail == ['\n'] + rest;
      PassOne(LineComment, '\n', rest, depth);
    } else {
      assert body + tail == [body[0]] + (body[1..] + tail) && body[0] in body;
      PassOne(LineComment, body[0], body[1..] + tail, depth);
      LineBodyPasses(body[1..], rest, depth);
      PassBoth(LineComment, body + tail, LineComment, body[1..] + tail, Code(false), rest, depth, 1, |body|);
    }
  }

  lemma {:induction false} RemarkBodyPasses(star: bool, body: string, rest: string, depth: int)
    requires IsRemark(body) && (star && body != "" ==> body[0] != '/')
    ensures Passes(BlockComment(star), body + ("*/" + rest), Code(false), rest, depth, |body| + 2)
    decreases |body|
  {
    hide Passes;
    var m, tail := BlockComment(star), "*/" + rest;
    if body == "" {
      assert body + tail == ['*'] + (['/'] + rest);
      PassOne(m, '*', ['/'] + rest, depth);
      PassOne(BlockComment(true), '/', rest, depth);
      PassBoth(m, body + tail, BlockComment(true), ['/'] + rest, Code(false), rest, depth, 1, 1);
    } else {
      var n := BlockComment(body[0] == '*');
      assert body + tail == [body[0]] + (body[1..] + tail);
      PassOne(m, body[0], body[1..] + tail, depth);
      if |body| > 1 {
        assert !(body[0] == '*' && body[0 + 1] == '/');
      }
      RemarkBodyPasses(body[0] == '*', body[1..], rest, depth);
      PassBoth(m, body + tail, n, body[1..] + tail, Code(false), rest, depth, 1, |body| + 1);
    }
  }

  /** A slash and the character after it, which together open a comment or do nothing. */
  lemma PassSlash(c: char, rest: string, depth: int)
    requires !IsMark(c) && c != '{' && c != '}'
    ensures Passes(Code(false), ['/', c] + rest, Next(Code(true), c), rest, depth, 2)
  {
    hide Passes;
    assert ['/', c] + rest == ['/'] + ([c] + rest);
    PassOne(Code(false), '/', [c] + rest, depth);
    PassOne(Code(true), c, rest, depth);
    PassBoth(Code(false), ['/', c] + rest, Code(true), [c] + rest, Next(Code(true), c), rest, depth, 1, 1);
  }

  lemma CommentPasses(body: string, rest: string, depth: int)
    ensures '\n' !in body ==>
              Passes(Code(false), "//" + (body + ("\n" + rest)), Code(false), rest, depth, |body| + 3)
    ensures IsRemark(body) ==>
              Passes(Code(false), "/*" + (body + ("*/" + rest)), Code(false), rest, depth, |body| + 4)
  {
    hide Passes, IsRemark;
    var code, line, remark := Code(false), body + ("\n" + rest), body + ("*/" + rest);
    PassSlash('/', line, depth);
    PassSlash('*', remark, depth);
    if '\n' !in body {
      LineBodyPasses(body, rest, depth);
      PassBoth(code, "//" + line, LineComment, line, code, rest, depth, 2, |body| + 1);
    }
    if IsRemark(body) {
      RemarkBodyPasses(false, body, rest, depth);
      PassBoth(code, "/*" + remark, BlockComment(false), remark, code, rest, depth, 2, |body| + 2);
    }
  }

  lemma BracesPass(inner: string, rest: string, depth: int)
    requires depth > 0 && Passes(Code(false), inner + ("}" + rest), Code(false), "}" + rest, depth + 1, |inner|)
    ensures Passes(Code(false), "{" + (inner + ("}" + rest)), Code(false), rest, depth, |inner| + 2)
  {
    var s := "{" + (inner + ("}" + rest));
    assert s[1..] == inner + ("}" + rest) && ("}" + rest)[1..] == rest;
    assert CloseAt(Code(false), s, depth) == Later(CloseAt(Code(false), s[1..], depth + 1), 1);
    assert CloseAt(Code(false), "}" + rest, depth + 1) == Later(CloseAt(Code(false), rest, depth), 1);
  }

  lemma WrittenThen(t: Text, tail: string)
    ensures match t
            case Done => Written(t) + tail == tail
            case Plain(c, rest) => Written(t) + tail == [c] + (Written(rest) + tail)
            case Divide(c, rest) => Written(t) + tail == ['/', c] + (Written(rest) + tail)
            case Quoted(mark, body, rest) => Written(t) + tail == [mark] + (body + ([mark] + (Written(rest) + tail)))
            case Line(body, rest) => Written(t) + tail == "//" + (body + ("\n" + (Written(rest) + tail)))
            case Remark(body, rest) => Written(t) + tail == "/*" + (body + ("*/" + (Written(rest) + tail)))
            case Braces(inner, rest) => Written(t) + tail == "{" + (Written(inner) + ("}" + (Written(rest) + tail)))
  {
    match t
    case Done =>
    case Plain(c, rest) => Reassociate([c], "", "", Written(rest), tail);
    case Divide(c, rest) => Reassociate(['/', c], "", "", Written(rest), tail);
    case Quoted(mark, body, rest) => Reassociate([mark], body, [mark], Written(rest), tail);
    case Line(body, rest) => Reassociate("//", body, "\n", Written(rest), tail);
    case Remark(body, rest) => Reassociate("/*", body, "*/", Written(rest), tail);
    case Braces(inner, rest) => Reassociate("{", Written(inner), "}", Written(rest), tail);
  }

  lemma Reassociate<T>(a: seq<T>, b: seq<T>, c: seq<T>, d: seq<T>, e: seq<T>)
    ensures a + (b + (c + d)) + e == a + (b + (c + (d + e)))
    ensures a + d + e == a + (d + e)
  {
  }

  /** Such code is passed as one, at any depth. */
  lemma {:induction false} TextPasses(t: Text, tail: string, depth: int)
    requires IsText(t) && depth > 0
    ensures Passes(Code(false), Written(t) + tail, Code(false), tail, depth, |Written(t)|)
    decreases t
  {
    hide Passes, IsRemark, IsMark, IsBody;
    WrittenThen(t, tail);
    WrittenThen(t, "");
    var code := Code(false);
    match t
    case Done =>
      PassNone(code, tail, depth);
    case Plain(c, rest) =>
      PlainPasses(c, Written(rest) + tail, depth);
      TextPasses(rest, tail, depth);
      PassBoth(code, Written(t) + tail, code, Written(rest) + tail, code, tail, depth, 1, |Written(rest)|);
    case Divide(c, rest) =>
      DividePasses(c, Written(rest) + tail, depth);
      TextPasses(rest, tail, depth);
      PassBoth(code, Written(t) + tail, code, Written(rest) + tail, code, tail, depth, 2, |Written(rest)|);
    case Quoted(mark, body, rest) =>
      QuotedPasses(mark, body, Written(rest) + tail, depth);
      TextPasses(rest, tail, depth);
      PassBoth(code, Written(t) + tail, code, Written(rest) + tail, code, tail, depth, |body| + 2, |Written(rest)|);
    case Line(body, rest) =>
      CommentPasses(body, Written(rest) + tail, depth);
      TextPasses(rest, tail, depth);
      PassBoth(code, Written(t) + tail, code, Written(rest) + tail, code, tail, depth, |body| + 3, |Written(rest)|);
    case Remark(body, rest) =>
      CommentPasses(body, Written(rest) + tail, depth);
      TextPasses(rest, tail, depth);
      PassBoth(code, Written(t) + tail, code, Written(rest) + tail, code, tail, depth, |body| + 4, |Written(rest)|);
    case Braces(inner, rest) =>
      TextPasses(inner, "}" + (Written(rest) + tail), depth + 1);
      BracesPass(Written(inner), Written(rest) + tail, depth);
      TextPasses(rest, tail, depth);
      PassBoth(code, Written(t) + tail, code, Written(rest) + tail, code, tail, depth,
               |Written(inner)| + 2, |Written(rest)|);
  }

  lemma PlainPasses(c: char, rest: string, depth: int)
    requires IsPlain(c)
    ensures Passes(Code(false), [c] + rest, Code(false), rest, depth, 1)
  {
    hide Passes;
    PassOne(Code(false), c, rest, depth);
  }

  lemma DividePasses(c: char, rest: string, depth: int)
    requires IsPlain(c) && c != '*'
    ensures Passes(Code(false), ['/', c] + rest, Code(false), rest, depth, 2)
  {
    hide Passes;
    PassSlash(c, rest, depth);
  }

  /** The block around such code ends at the brace that matches, whatever its strings and comments hold. */
  lemma BlockEndsAtMatch(before: string, t: Text, rest: string)
    requires IsText(t)
    ensures Block(before + "{" + Written(t) + "}" + rest, |before|)
            == Some((|before| as int, |before| + |Written(t)| + 2 as int))
  {
    hide Written, IsText;
    var text, inner := before + "{" + Written(t) + "}" + rest, Written(t) + ("}" + rest);
    assert text[|before|] == '{' && text[|before| + 1..] == inner;
    BlockLength(text, |before|);
    TextPasses(t, "}" + rest, 1);
    assert CloseAt(Code(false), "}" + rest, 1) == Some(1);
    hide CloseAt, After;
  }

  lemma TextIsNeutral(t: Text)
    requires IsText(t)
    ensures Neutral(Code(false), Written(t))
  {
    hide Written, IsText;
    var code, ins := Code(false), Written(t);
    TextPasses(t, "}", 1);
    TextPasses(t, "", 1);
    assert ins + "" == ins && CloseAt(code, "}", 1) == Some(1);
    CloseIsFirst(code, ins + "}", 1);
    forall n: nat | n <= |ins| ensures Depth(code, ins, n) == Depth(code, ins + "}", n) {
      DepthAdds(code, ins, "}", n);
    }
    DepthAdds(code, ins, "}", |ins| + 1);
    DepthOne(code, "}");
    hide Depth, CloseAt;
  }

  /** Put in before the closing brace of any block, such code moves its end by its length. */
  lemma TextMovesEnd(text: string, bracePos: nat, end: nat, t: Text)
    requires StartsBlock(text, bracePos) && Block(text, bracePos) == Some((bracePos as int, end as int)) && IsText(t)
    requires 2 <= end <= |text| && !OpensComment(text[end - 2], Written(t))
    ensures Block(text[..end - 1] + Written(t) + text[end - 1..], bracePos) == Some((bracePos as int, end + |Written(t)|))
  {
    hide Block, Neutral, StartsBlock;
    TextIsNeutral(t);
    InsertMovesEnd(text, bracePos, end, Written(t));
  }
}
