/** Applying the hunks of a unified diff to one file: `backend/app/patches.py`. */
module Patches {
  import opened Basics

  /** One line of a file, with its line ending. */
  datatype Text = Text(chars: string)

  datatype Line = Context(value: Text) | Removed(value: Text) | Added(value: Text) | Unknown(value: Text)

  /** A hunk with its two start lines; 0 also stands for a start the parser left out. */
  datatype Hunk = Hunk(sourceStart: nat, targetStart: nat, lines: seq<Line>)

  // ----- The two sides of a hunk -----

  function SourceSide(lines: seq<Line>): seq<Text> {
    if lines == [] then []
    else if lines[0].Context? || lines[0].Removed? then [lines[0].value] + SourceSide(lines[1..])
    else SourceSide(lines[1..])
  }

  function TargetSide(lines: seq<Line>): seq<Text> {
    if lines == [] then []
    else if lines[0].Context? || lines[0].Added? then [lines[0].value] + TargetSide(lines[1..])
    else TargetSide(lines[1..])
  }

  predicate Known(lines: seq<Line>) {
    lines == [] || (!lines[0].Unknown? && Known(lines[1..]))
  }

  // ----- The applier as functions of the lines left to read -----

  /** How many lines are copied before a hunk when `left` lines of `total` are still to read. */
  function GapLength(sourceStart: nat, left: nat, total: nat): (n: nat)
    requires left <= total
    ensures n <= left
  {
    var start := if sourceStart == 0 then 0 else sourceStart - 1;
    var idx := total - left;
    if start <= idx then 0 else if start <= total then start - idx else left
  }

  /** The lines a hunk writes and the lines it leaves unread; none when the patch error is raised. */
  function ApplyLines(rest: seq<Text>, lines: seq<Line>): (r: Option<(seq<Text>, seq<Text>)>)
    ensures r.Some? ==> |r.value.1| <= |rest|
  {
    if lines == [] then Some(([], rest))
    else if lines[0].Unknown? then None
    else if lines[0].Added? then
      var r := ApplyLines(rest, lines[1..]);
      if r.None? then None else Some(([lines[0].value] + r.value.0, r.value.1))
    else if rest == [] || rest[0] != lines[0].value then None
    else
      var r := ApplyLines(rest[1..], lines[1..]);
      if r.None? || lines[0].Removed? then r else Some(([rest[0]] + r.value.0, r.value.1))
  }

  function ApplyHunks(rest: seq<Text>, hunks: seq<Hunk>, total: nat): Option<seq<Text>>
    requires |rest| <= total
    decreases |hunks|
  {
    if hunks == [] then Some(rest)
    else
      var n := GapLength(hunks[0].sourceStart, |rest|, total);
      var body := ApplyLines(rest[n..], hunks[0].lines);
      if body.None? then None
      else
        var r := ApplyHunks(body.value.1, hunks[1..], total);
        if r.None? then None else Some(rest[..n] + (body.value.0 + r.value))
  }

  function Apply(original: seq<Text>, hunks: seq<Hunk>): Option<seq<Text>> {
    ApplyHunks(original, hunks, |original|)
  }

  // ----- The applier as the source writes it -----

  /** What is still to come, put behind what is already written. */
  function Behind(out: seq<Text>, r: Option<(seq<Text>, seq<Text>)>): Option<(seq<Text>, seq<Text>)> {
    if r.None? then None else Some((out + r.value.0, r.value.1))
  }

  lemma BehindTwice(a: seq<Text>, b: seq<Text>, r: Option<(seq<Text>, seq<Text>)>)
    ensures Behind(a, Behind(b, r)) == Behind(a + b, r)
    ensures Behind([], r) == r
  {
    if r.Some? {
      Assoc(a, b, r.value.0);
      Nil(r.value.0);
    }
  }

  lemma Assoc(a: seq<Text>, b: seq<Text>, c: seq<Text>)
    ensures a + (b + c) == (a + b) + c
  {
  }

  lemma Nil(a: seq<Text>)
    ensures [] + a == a && a + [] == a
  {
  }

  /** The inner loop over the lines of one hunk. */
  method RunHunk(original: seq<Text>, lines: seq<Line>, start: nat)
    returns (ok: bool, out: seq<Text>, idx: nat)
    requires start <= |original|
    ensures ok ==> idx <= |original|
    ensures ApplyLines(original[start..], lines) == if ok then Some((out, original[idx..])) else None
  {
    out, idx := [], start;
    ghost var whole := ApplyLines(original[start..], lines);
    assert lines[0..] == lines;
    BehindTwice([], [], whole);
    for k := 0 to |lines|
      invariant idx <= |original|
      invariant whole == Behind(out, ApplyLines(original[idx..], lines[k..]))
    {
      var line := lines[k];
      assert lines[k..][0] == line && lines[k..][1..] == lines[k + 1..];
      if line.Context? || line.Removed? {
        if idx >= |original| || original[idx] != line.value {
          return false, [], 0;
        }
        assert original[idx..][0] == original[idx] && original[idx..][1..] == original[idx + 1..];
        BehindTwice(out, [line.value], ApplyLines(original[idx + 1..], lines[k + 1..]));
        if line.Context? {
          out := out + [original[idx]];
        }
        idx := idx + 1;
      } else if line.Added? {
        BehindTwice(out, [line.value], ApplyLines(original[idx..], lines[k + 1..]));
        out := out + [line.value];
      } else {
        return false, [], 0;
      }
    }
    assert lines[|lines|..] == [] && out + [] == out;
    return true, out, idx;
  }

  /** The loop that copies lines up to the start of a hunk. */
  method CopyGap(original: seq<Text>, sourceStart: nat, start: nat) returns (out: seq<Text>, idx: nat)
    requires start <= |original|
    ensures idx == start + GapLength(sourceStart, |original| - start, |original|)
    ensures out == original[start..idx]
  {
    out, idx := [], start;
    var targetStart := if sourceStart == 0 then 0 else sourceStart - 1;
    while idx < targetStart && idx < |original|
      invariant start <= idx <= |original| && (idx == start || idx <= targetStart)
      invariant out == original[start..idx]
    {
      out := out + [original[idx]];
      idx := idx + 1;
    }
  }

  lemma Unroll(rest: seq<Text>, hunks: seq<Hunk>, total: nat, n: nat)
    requires |rest| <= total && hunks != [] && n == GapLength(hunks[0].sourceStart, |rest|, total)
    ensures var body := ApplyLines(rest[n..], hunks[0].lines);
            ApplyHunks(rest, hunks, total) ==
            if body.None? then None
            else
              var r := ApplyHunks(body.value.1, hunks[1..], total);
              if r.None? then None else Some(rest[..n] + (body.value.0 + r.value))
  {
  }

  /** One turn of the outer loop, in terms of what is left to do. */
  lemma HunkTurn(original: seq<Text>, hunks: seq<Hunk>, h: nat, idx: nat, stop: nat)
    requires h < |hunks| && idx <= |original|
    requires stop == idx + GapLength(hunks[h].sourceStart, |original| - idx, |original|)
    ensures var body := ApplyLines(original[stop..], hunks[h].lines);
            ApplyHunks(original[idx..], hunks[h..], |original|) ==
            if body.None? then None
            else
              var r := ApplyHunks(body.value.1, hunks[h + 1..], |original|);
              if r.None? then None else Some(original[idx..stop] + (body.value.0 + r.value))
  {
    hide ApplyHunks, ApplyLines;
    Unroll(original[idx..], hunks[h..], |original|, stop - idx);
    DropThenCut(hunks, h, h + 1);
    DropThenCut(original, idx, stop);
  }

  lemma DropThenCut<T>(s: seq<T>, i: nat, j: nat)
    requires i <= j <= |s|
    ensures s[i..][..j - i] == s[i..j] && s[i..][j - i..] == s[j..]
    ensures i < |s| ==> s[i..][0] == s[i]
  {
  }

  method ApplyFilePatch(original: seq<Text>, hunks: seq<Hunk>) returns (r: Option<seq<Text>>)
    ensures r == Apply(original, hunks)
    ensures r.Some? ==> IsEdit(original, hunks, r.value)
  {
    var out: seq<Text> := [];
    var idx: nat := 0;
    assert hunks[0..] == hunks && original[0..] == original;
    assert Apply(original, hunks).Some? ==> [] + Apply(original, hunks).value == Apply(original, hunks).value;
    for h := 0 to |hunks|
      invariant idx <= |original|
      invariant var rest := ApplyHunks(original[idx..], hunks[h..], |original|);
                Apply(original, hunks) == if rest.None? then None else Some(out + rest.value)
    {
      var hunk := hunks[h];
      var gap, stop := CopyGap(original, hunk.sourceStart, idx);
      HunkTurn(original, hunks, h, idx, stop);
      var ok, body, next := RunHunk(original, hunk.lines, stop);
      if !ok {
        return None;
      }
      ghost var rest := ApplyHunks(original[next..], hunks[h + 1..], |original|);
      if rest.Some? {
        Assoc(out, gap, body + rest.value);
        Assoc(out + gap, body, rest.value);
      }
      out := out + gap + body;
      idx := next;
    }
    assert hunks[|hunks|..] == [];
    out := out + original[idx..];
    r := Some(out);
    AppliesIffEdit(original, hunks, out);
  }

  // ----- Edit scripts -----

  /** A whole file edit: kept lines and the hunk that follows them, again and again, then a kept tail. */
  datatype Script = End(tail: seq<Text>) | Step(gap: seq<Text>, lines: seq<Line>, rest: Script)

  function Source(script: Script): seq<Text> {
    match script
    case End(tail) => tail
    case Step(gap, lines, rest) => gap + (SourceSide(lines) + Source(rest))
  }

  function Target(script: Script): seq<Text> {
    match script
    case End(tail) => tail
    case Step(gap, lines, rest) => gap + (TargetSide(lines) + Target(rest))
  }

  /**
   * The script is the hunks in order, each after as many kept lines as its start asks for;
   * `left` of the `total` source lines are still to read.
   */
  predicate Placed(script: Script, hunks: seq<Hunk>, left: nat, total: nat) {
    match script
    case End(_) => hunks == []
    case Step(gap, lines, rest) =>
      && hunks != [] && left <= total
      && lines == hunks[0].lines && Known(lines)
      && |gap| == GapLength(hunks[0].sourceStart, left, total)
      && |gap| + |SourceSide(lines)| <= left
      && Placed(rest, hunks[1..], left - |gap| - |SourceSide(lines)|, total)
  }

  /** `target` is `original` with only the hunks changed: the rest is kept, in order. */
  ghost predicate IsEdit(original: seq<Text>, hunks: seq<Hunk>, target: seq<Text>) {
    exists script ::
      Placed(script, hunks, |original|, |original|) && Source(script) == original && Target(script) == target
  }

  lemma {:induction false} LinesApply(lines: seq<Line>, left: seq<Text>)
    requires Known(lines)
    ensures ApplyLines(SourceSide(lines) + left, lines) == Some((TargetSide(lines), left))
    decreases |lines|
  {
    if lines == [] {
      Nil(left);
    } else {
      var first, more := lines[0], lines[1..];
      LinesApply(more, left);
      if !first.Added? {
        Assoc([first.value], SourceSide(more), left);
        CutFront([first.value], SourceSide(more) + left);
      }
    }
  }

  lemma {:induction false} LinesApplied(rest: seq<Text>, lines: seq<Line>)
    requires ApplyLines(rest, lines).Some?
    ensures var r := ApplyLines(rest, lines).value;
            Known(lines) && rest == SourceSide(lines) + r.1 && r.0 == TargetSide(lines)
    decreases |lines|
  {
    if lines == [] {
      Nil(rest);
    } else {
      var first, more := lines[0], lines[1..];
      if first.Added? {
        LinesApplied(rest, more);
      } else {
        LinesApplied(rest[1..], more);
        SplitAt(rest, 1);
        Assoc([first.value], SourceSide(more), ApplyLines(rest, lines).value.1);
      }
    }
  }

  lemma CutFront(a: seq<Text>, b: seq<Text>)
    ensures (a + b)[..|a|] == a && (a + b)[|a|..] == b
  {
  }

  /** One hunk after the lines `copied`, and the run of the rest after it. */
  lemma HunkApplies(copied: seq<Text>, left: seq<Text>, hunks: seq<Hunk>, total: nat)
    requires hunks != [] && Known(hunks[0].lines)
    requires var size := |copied| + |SourceSide(hunks[0].lines)| + |left|;
             size <= total && |copied| == GapLength(hunks[0].sourceStart, size, total)
    ensures var r := ApplyHunks(left, hunks[1..], total);
            ApplyHunks(copied + (SourceSide(hunks[0].lines) + left), hunks, total) ==
            if r.None? then None else Some(copied + (TargetSide(hunks[0].lines) + r.value))
  {
    CutFront(copied, SourceSide(hunks[0].lines) + left);
    LinesApply(hunks[0].lines, left);
  }

  lemma {:induction false} BuildEdit(rest: seq<Text>, hunks: seq<Hunk>, total: nat) returns (script: Script)
    requires |rest| <= total && ApplyHunks(rest, hunks, total).Some?
    ensures Placed(script, hunks, |rest|, total)
    ensures Source(script) == rest
    ensures Target(script) == ApplyHunks(rest, hunks, total).value
    decreases |hunks|
  {
    if hunks == [] {
      script := End(rest);
    } else {
      var n := GapLength(hunks[0].sourceStart, |rest|, total);
      LinesApplied(rest[n..], hunks[0].lines);
      var more := BuildEdit(ApplyLines(rest[n..], hunks[0].lines).value.1, hunks[1..], total);
      script := Step(rest[..n], hunks[0].lines, more);
      SplitAt(rest, n);
    }
  }

  lemma SplitAt(s: seq<Text>, n: nat)
    requires n <= |s|
    ensures s[..n] + s[n..] == s
  {
  }

  lemma {:induction false} EditApplies(hunks: seq<Hunk>, script: Script, total: nat)
    requires |Source(script)| <= total && Placed(script, hunks, |Source(script)|, total)
    ensures ApplyHunks(Source(script), hunks, total) == Some(Target(script))
    decreases |hunks|
  {
    if script.Step? {
      HunkApplies(script.gap, Source(script.rest), hunks, total);
      EditApplies(hunks[1..], script.rest, total);
    }
  }

  /** The applier succeeds exactly on edits of the whole original, and gives that edit. */
  lemma AppliesIffEdit(original: seq<Text>, hunks: seq<Hunk>, target: seq<Text>)
    ensures Apply(original, hunks) == Some(target) <==> IsEdit(original, hunks, target)
  {
    if Apply(original, hunks) == Some(target) {
      var script := BuildEdit(original, hunks, |original|);
    }
    if IsEdit(original, hunks, target) {
      var script :|
        Placed(script, hunks, |original|, |original|) && Source(script) == original && Target(script) == target;
      EditApplies(hunks, script, |original|);
    }
  }

  // ----- Diffs as a diff program numbers them -----

  /** POSIX numbering: the first line of a side, or the line before it when the side is empty. */
  function StartOf(before: nat, side: seq<Text>): nat {
    if side == [] then before else before + 1
  }

  /** The hunks of a script when `src` source lines and `tgt` target lines precede it. */
  function Diff(script: Script, src: nat, tgt: nat): seq<Hunk> {
    match script
    case End(_) => []
    case Step(gap, lines, rest) =>
      var s, t := src + |gap|, tgt + |gap|;
      [Hunk(StartOf(s, SourceSide(lines)), StartOf(t, TargetSide(lines)), lines)]
      + Diff(rest, s + |SourceSide(lines)|, t + |TargetSide(lines)|)
  }

  predicate KnownScript(script: Script) {
    script.Step? ==> Known(script.lines) && KnownScript(script.rest)
  }

  function LastOr(gap: seq<Text>, pending: Option<Text>): Option<Text> {
    if gap == [] then pending else Some(gap[|gap| - 1])
  }

  /**
   * Every hunk that removes and keeps nothing adds only copies of the kept line it should follow.
   * `pending` is the kept line just before the script that the applier has not copied yet.
   */
  predicate Harmless(script: Script, pending: Option<Text>) {
    match script
    case End(_) => true
    case Step(gap, lines, rest) =>
      if SourceSide(lines) != [] then Harmless(rest, None)
      else
        var line := LastOr(gap, pending);
        && (line.Some? ==> CopiesOf(line.value, TargetSide(lines)))
        && Harmless(rest, line)
  }

  predicate CopiesOf(line: Text, added: seq<Text>) {
    added == [] || (added[0] == line && CopiesOf(line, added[1..]))
  }

  function Pending(pending: Option<Text>): seq<Text> {
    if pending.None? then [] else [pending.value]
  }

  /** Inserting before a line instead of after it goes unnoticed only with copies of that line. */
  lemma {:induction false} InsertedEarly(line: Text, added: seq<Text>, rest: seq<Text>, want: seq<Text>)
    requires |rest| == 1 + |want|
    ensures added + rest == [line] + (added + want) <==> CopiesOf(line, added) && rest == [line] + want
    decreases |added|
  {
    if added == [] {
      Nil(rest);
      Nil(want);
    } else {
      var first, more := added[0], added[1..];
      InsertedEarly(line, more, rest, want);
      HeadTail(added, rest);
      HeadTail(added, want);
      SameHead(first, more + rest, line, added + want);
      SameHead(line, more + want, first, more + want);
    }
  }

  lemma HeadTail(s: seq<Text>, t: seq<Text>)
    requires s != []
    ensures s + t == [s[0]] + (s[1..] + t)
  {
  }

  lemma SameHead(x: Text, s: seq<Text>, y: Text, t: seq<Text>)
    ensures [x] + s == [y] + t <==> x == y && s == t
  {
    CutFront([x], s);
    CutFront([y], t);
    assert ([x] + s)[0] == x && ([y] + t)[0] == y;
  }

  lemma SameEnds(a: seq<Text>, b: seq<Text>, c: seq<Text>)
    ensures a + b == a + c <==> b == c
  {
    CutFront(a, b);
    CutFront(a, c);
  }

  lemma DiffUnfolds(script: Script, src: nat, tgt: nat)
    requires script.Step?
    ensures var gap, lines := script.gap, script.lines;
            var hunks := Diff(script, src, tgt);
            && hunks != [] && hunks[0].lines == lines
            && hunks[0].sourceStart == StartOf(src + |gap|, SourceSide(lines))
            && hunks[1..] == Diff(script.rest, src + |gap| + |SourceSide(lines)|, tgt + |gap| + |TargetSide(lines)|)
  {
  }

  lemma SizeOf(a: seq<Text>, b: seq<Text>, c: seq<Text>)
    ensures |a + (b + c)| == |a| + |b| + |c|
  {
  }

  /** The line still to copy and the rest of the source. */
  function Waiting(script: Script, pending: Option<Text>): seq<Text> {
    Pending(pending) + Source(script)
  }

  /** What a run over the rest of a numbered diff must give when `pending` is one line behind it. */
  ghost predicate Expected(out: seq<Text>, script: Script, pending: Option<Text>) {
    var want := Pending(pending) + Target(script);
    |out| == |want| && (out == want <==> Harmless(script, pending))
  }

  /** The run over the hunks of the rest of a script gives `out`. */
  ghost predicate RunsTo(script: Script, src: nat, tgt: nat, pending: Option<Text>, total: nat, out: seq<Text>) {
    && |Pending(pending)| <= src && src + |Source(script)| == total
    && ApplyHunks(Waiting(script, pending), Diff(script, src, tgt), total) == Some(out)
  }

  lemma {:induction false} DiffRuns(script: Script, src: nat, tgt: nat, pending: Option<Text>, total: nat)
    returns (out: seq<Text>)
    requires KnownScript(script)
    requires |Pending(pending)| <= src && src + |Source(script)| == total
    ensures RunsTo(script, src, tgt, pending, total, out)
    ensures Expected(out, script, pending)
    decreases script
  {
    hide ApplyHunks, Diff, Harmless, Target, RunsTo, Expected;
    if script.End? {
      out := EndRuns(script, src, tgt, pending, total);
    } else {
      var lines := script.lines;
      var next, nextTgt := src + |script.gap|, tgt + |script.gap| + |TargetSide(lines)|;
      if SourceSide(lines) == [] {
        var line := LastOr(script.gap, pending);
        var rest := DiffRuns(script.rest, next, nextTgt, line, total);
        out := InsertingRuns(script, src, tgt, pending, total, rest);
      } else {
        var rest := DiffRuns(script.rest, next + |SourceSide(lines)|, nextTgt, None, total);
        out := KeepingRuns(script, src, tgt, pending, total, rest);
      }
    }
  }

  lemma EndRuns(script: Script, src: nat, tgt: nat, pending: Option<Text>, total: nat) returns (out: seq<Text>)
    requires script.End? && |Pending(pending)| <= src && src + |Source(script)| == total
    ensures RunsTo(script, src, tgt, pending, total, out)
    ensures Expected(out, script, pending)
  {
    out := Pending(pending) + script.tail;
  }

  /** A hunk that keeps or removes a line is placed where it belongs. */
  lemma KeepingRuns(script: Script, src: nat, tgt: nat, pending: Option<Text>, total: nat, rest: seq<Text>)
    returns (out: seq<Text>)
    requires script.Step? && Known(script.lines) && SourceSide(script.lines) != []
    requires |Pending(pending)| <= src && src + |Source(script)| == total
    requires RunsTo(script.rest, src + |script.gap| + |SourceSide(script.lines)|,
                    tgt + |script.gap| + |TargetSide(script.lines)|, None, total, rest)
    requires Expected(rest, script.rest, None)
    ensures RunsTo(script, src, tgt, pending, total, out)
    ensures Expected(out, script, pending)
  {
    hide ApplyHunks, Diff, CopiesOf, SourceSide, TargetSide;
    var p, gap, src', tgt' := Pending(pending), script.gap, SourceSide(script.lines), TargetSide(script.lines);
    var left, want := Source(script.rest), Target(script.rest);
    Nil(left);
    Nil(want);
    Assoc(p, gap, src' + left);
    DiffUnfolds(script, src, tgt);
    SizeOf(gap, src', left);
    HunkApplies(p + gap, left, Diff(script, src, tgt), total);
    out := (p + gap) + (tgt' + rest);
    Assoc(p, gap, tgt' + want);
    SameEnds(p + gap, tgt' + rest, tgt' + want);
    SameEnds(tgt', rest, want);
  }

  lemma EarlyGap(p: nat, gap: nat, line: nat, src: nat, left: nat, total: nat)
    requires p <= 1 && p <= src && src + gap + left == total && line == if gap > 0 then 1 else p
    ensures GapLength(src + gap, p + gap + left, total) == p + gap - line
  {
  }

  /** The waiting line and the gap, cut before the line that waits next. */
  lemma WaitingLine(gap: seq<Text>, pending: Option<Text>) returns (copied: seq<Text>)
    ensures Pending(pending) + gap == copied + Pending(LastOr(gap, pending))
    ensures |copied| == |Pending(pending)| + |gap| - |Pending(LastOr(gap, pending))|
  {
    var front := Pending(pending) + gap;
    copied := front[..|front| - |Pending(LastOr(gap, pending))|];
  }

  lemma EarlyOrNot(line: Option<Text>, added: seq<Text>, rest: seq<Text>, want: seq<Text>)
    requires |rest| == |Pending(line) + want|
    ensures added + rest == Pending(line) + (added + want) <==>
            (line.Some? ==> CopiesOf(line.value, added)) && rest == Pending(line) + want
  {
    if line.Some? {
      InsertedEarly(line.value, added, rest, want);
    } else {
      SameEnds(added, rest, want);
      Nil(want);
      Nil(added + want);
    }
  }

  /** A hunk with an empty source side is placed before the line it should follow. */
  lemma InsertingRuns(script: Script, src: nat, tgt: nat, pending: Option<Text>, total: nat, rest: seq<Text>)
    returns (out: seq<Text>)
    requires script.Step? && Known(script.lines) && SourceSide(script.lines) == []
    requires |Pending(pending)| <= src && src + |Source(script)| == total
    requires RunsTo(script.rest, src + |script.gap|, tgt + |script.gap| + |TargetSide(script.lines)|,
                    LastOr(script.gap, pending), total, rest)
    requires Expected(rest, script.rest, LastOr(script.gap, pending))
    ensures RunsTo(script, src, tgt, pending, total, out)
    ensures Expected(out, script, pending)
  {
    hide ApplyHunks, Diff, CopiesOf, SourceSide, TargetSide;
    var p, gap, line, added := Pending(pending), script.gap, LastOr(script.gap, pending), TargetSide(script.lines);
    var left, want := Source(script.rest), Target(script.rest);
    var copied := WaitingLine(gap, pending);
    Nil(left);
    Nil(Pending(line) + left);
    Assoc(p, gap, left);
    Assoc(copied, Pending(line), left);
    DiffUnfolds(script, src, tgt);
    EarlyGap(|p|, |gap|, |Pending(line)|, src, |left|, total);
    HunkApplies(copied, Pending(line) + left, Diff(script, src, tgt), total);
    out := copied + (added + rest);
    Assoc(p, gap, added + want);
    Assoc(copied, Pending(line), added + want);
    SameEnds(copied, added + rest, Pending(line) + (added + want));
    EarlyOrNot(line, added, rest, want);
  }

  /** Exactly which numbered diffs turn their source into their target. */
  lemma DiffAppliesIffHarmless(script: Script)
    requires KnownScript(script)
    ensures Apply(Source(script), Diff(script, 0, 0)) == Some(Target(script)) <==> Harmless(script, None)
  {
    Nil(Source(script));
    Nil(Target(script));
    var out := DiffRuns(script, 0, 0, None, |Source(script)|);
  }

  // ----- Round trips -----

  function InvertLine(l: Line): Line {
    match l
    case Removed(v) => Added(v)
    case Added(v) => Removed(v)
    case _ => l
  }

  function InvertLines(lines: seq<Line>): (r: seq<Line>)
    ensures |r| == |lines| && forall k | 0 <= k < |lines| :: r[k] == InvertLine(lines[k])
  {
    seq(|lines|, k requires 0 <= k < |lines| => InvertLine(lines[k]))
  }

  function InvertHunks(hunks: seq<Hunk>): seq<Hunk> {
    if hunks == [] then []
    else [Hunk(hunks[0].targetStart, hunks[0].sourceStart, InvertLines(hunks[0].lines))] + InvertHunks(hunks[1..])
  }

  function InvertScript(script: Script): Script {
    match script
    case End(_) => script
    case Step(gap, lines, rest) => Step(gap, InvertLines(lines), InvertScript(rest))
  }

  lemma {:induction false} InvertedSides(lines: seq<Line>)
    ensures SourceSide(InvertLines(lines)) == TargetSide(lines)
    ensures TargetSide(InvertLines(lines)) == SourceSide(lines)
    decreases |lines|
  {
    if lines != [] {
      InvertedSides(lines[1..]);
      assert InvertLines(lines)[1..] == InvertLines(lines[1..]);
    }
  }

  lemma InvertedHunks(script: Script, src: nat, tgt: nat)
    requires script.Step?
    ensures var lines := script.lines;
            var s, t := src + |script.gap|, tgt + |script.gap|;
            InvertHunks(Diff(script, src, tgt)) ==
            [Hunk(StartOf(t, TargetSide(lines)), StartOf(s, SourceSide(lines)), InvertLines(lines))]
            + InvertHunks(Diff(script.rest, s + |SourceSide(lines)|, t + |TargetSide(lines)|))
  {
    DiffUnfolds(script, src, tgt);
  }

  lemma {:induction false} InvertedScript(script: Script, src: nat, tgt: nat)
    ensures Source(InvertScript(script)) == Target(script)
    ensures Target(InvertScript(script)) == Source(script)
    ensures InvertHunks(Diff(script, src, tgt)) == Diff(InvertScript(script), tgt, src)
    decreases script
  {
    hide InvertHunks, SourceSide, TargetSide, InvertLines;
    if script.Step? {
      InvertedSides(script.lines);
      InvertedHunks(script, src, tgt);
      InvertedScript(script.rest, src + |script.gap| + |SourceSide(script.lines)|,
                     tgt + |script.gap| + |TargetSide(script.lines)|);
    } else {
      NoHunksInverted();
    }
  }

  lemma NoHunksInverted()
    ensures InvertHunks([]) == []
  {
  }

  /** Each hunk holds a context line. */
  predicate HasContext(script: Script) {
    script.Step? ==>
      && Known(script.lines) && (exists k | 0 <= k < |script.lines| :: script.lines[k].Context?)
      && HasContext(script.rest)
  }

  lemma {:induction false} ContextOnSourceSide(lines: seq<Line>, k: nat)
    requires k < |lines| && lines[k].Context?
    ensures SourceSide(lines) != []
    decreases |lines|
  {
    if k > 0 {
      ContextOnSourceSide(lines[1..], k - 1);
    }
  }

  lemma {:induction false} ContextIsHarmless(script: Script, pending: Option<Text>)
    requires HasContext(script)
    ensures KnownScript(script) && Harmless(script, pending)
    decreases script
  {
    if script.Step? {
      var k :| 0 <= k < |script.lines| && script.lines[k].Context?;
      ContextOnSourceSide(script.lines, k);
      ContextIsHarmless(script.rest, None);
    }
  }

  lemma {:induction false} InvertedKnown(lines: seq<Line>)
    requires Known(lines)
    ensures Known(InvertLines(lines))
    decreases |lines|
  {
    if lines != [] {
      InvertedKnown(lines[1..]);
      assert InvertLines(lines)[1..] == InvertLines(lines[1..]);
    }
  }

  lemma {:induction false} InvertedKeepsContext(script: Script)
    requires HasContext(script)
    ensures HasContext(InvertScript(script))
    decreases script
  {
    if script.Step? {
      var k :| 0 <= k < |script.lines| && script.lines[k].Context?;
      assert InvertLines(script.lines)[k].Context?;
      InvertedKnown(script.lines);
      InvertedKeepsContext(script.rest);
    }
  }

  /** A diff whose hunks hold context lines leads to the target, and its inverse leads back. */
  lemma DiffRoundTrip(script: Script)
    requires HasContext(script)
    ensures var hunks := Diff(script, 0, 0);
            && Apply(Source(script), hunks) == Some(Target(script))
            && Apply(Target(script), InvertHunks(hunks)) == Some(Source(script))
  {
    ContextIsHarmless(script, None);
    DiffAppliesIffHarmless(script);
    InvertedScript(script, 0, 0);
    InvertedKeepsContext(script);
    ContextIsHarmless(InvertScript(script), None);
    DiffAppliesIffHarmless(InvertScript(script));
  }

  /** `@@ -1,0 +2 @@` on two lines: the added line lands before the line it should follow. */
  lemma ZeroContextInsertionMisplaced(a: Text, b: Text, x: Text)
    ensures var script := Step([a], [Added(x)], End([b]));
            && Source(script) == [a, b] && Target(script) == [a, x, b]
            && Apply([a, b], Diff(script, 0, 0)) == Some([x, a, b])
  {
    var script := Step([a], [Added(x)], End([b]));
    assert SourceSide(script.lines) == [] && TargetSide(script.lines) == [x];
    DiffUnfolds(script, 0, 0);
    HunkApplies([], [a, b], Diff(script, 0, 0), 2);
    Nil([a, b]);
    Nil([x] + [a, b]);
    assert Diff(script, 0, 0)[1..] == [];
    assert Apply([a, b], Diff(script, 0, 0)) == Some([x] + [a, b]);
    assert [x] + [a, b] == [x, a, b];
  }
}
