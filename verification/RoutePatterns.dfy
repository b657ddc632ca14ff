/** Route patterns and their intersection: `backend/app/api_map.py`. */
module RoutePatterns {
  import opened PyText

  type Token = string
  type Segment = string

  const ANY_ONE: Token := "{}"
  const ANY_MANY: Token := "{*}"

  predicate IsStatic(tok: Token) {
    tok != ANY_ONE && tok != ANY_MANY
  }

  // ----- The language of a pattern -----

  /** A one-segment token against one concrete segment. */
  predicate Fits(tok: Token, seg: Segment) {
    tok == ANY_ONE || tok == seg
  }

  /** The words of a pattern: `{}` stands for any one segment, `{*}` for zero or more. */
  predicate Accepts(p: seq<Token>, w: seq<Segment>)
    decreases |p| + |w|
  {
    if p == [] then w == []
    else if p[0] == ANY_MANY then Accepts(p[1..], w) || (w != [] && Accepts(p, w[1..]))
    else w != [] && Fits(p[0], w[0]) && Accepts(p[1..], w[1..])
  }

  /** Two patterns meet when one concrete path is a word of both. */
  ghost predicate Meet(a: seq<Token>, b: seq<Token>) {
    exists w: seq<Segment> :: Accepts(a, w) && Accepts(b, w)
  }

  /** The words of two patterns put together are the words of each put together. */
  lemma AcceptsConcat(p: seq<Token>, q: seq<Token>, w: seq<Segment>)
    ensures Accepts(p + q, w) <==> exists i: nat :: i <= |w| && Accepts(p, w[..i]) && Accepts(q, w[i..])
  {
    if Accepts(p + q, w) {
      var i := WordSplits(p, q, w);
    }
    if i: nat :| i <= |w| && Accepts(p, w[..i]) && Accepts(q, w[i..]) {
      WordsJoin(p, q, w[..i], w[i..]);
      assert w == w[..i] + w[i..];
    }
  }

  lemma {:induction false} WordSplits(p: seq<Token>, q: seq<Token>, w: seq<Segment>) returns (i: nat)
    requires Accepts(p + q, w)
    ensures i <= |w| && Accepts(p, w[..i]) && Accepts(q, w[i..])
    decreases |p| + |w|
  {
    if p == [] {
      i := 0;
      assert p + q == q;
    } else {
      assert (p + q)[1..] == p[1..] + q;
      if p[0] == ANY_MANY && Accepts(p[1..] + q, w) {
        i := WordSplits(p[1..], q, w);
      } else {
        var k := WordSplits(if p[0] == ANY_MANY then p else p[1..], q, w[1..]);
        i := k + 1;
        assert w[..i][1..] == w[1..][..k] && w[i..] == w[1..][k..];
      }
    }
  }

  lemma {:induction false} WordsJoin(p: seq<Token>, q: seq<Token>, u: seq<Segment>, v: seq<Segment>)
    requires Accepts(p, u) && Accepts(q, v)
    ensures Accepts(p + q, u + v)
    decreases |p| + |u|
  {
    if p == [] {
      assert p + q == q && u + v == v;
    } else {
      assert (p + q)[1..] == p[1..] + q;
      if p[0] == ANY_MANY && Accepts(p[1..], u) {
        WordsJoin(p[1..], q, u, v);
      } else {
        assert (u + v)[1..] == u[1..] + v;
        WordsJoin(if p[0] == ANY_MANY then p else p[1..], q, u[1..], v);
      }
    }
  }

  /** The words of one token. */
  lemma {:induction false} AcceptsOne(tok: Token, w: seq<Segment>)
    ensures Accepts([], w) <==> w == []
    ensures Accepts(["{*}"], w)
    ensures Accepts(["{}"], w) <==> |w| == 1
    ensures tok != "{}" && tok != "{*}" ==> (Accepts([tok], w) <==> w == [tok])
    decreases |w|
  {
    if w != [] {
      AcceptsOne(tok, w[1..]);
    }
  }

  // ----- The decision procedure, without its memo -----

  predicate AllMany(p: seq<Token>) {
    forall t | t in p :: t == ANY_MANY
  }

  predicate Compatible(a: seq<Token>, b: seq<Token>)
    decreases |a| + |b|
  {
    if a == [] then AllMany(b)
    else if b == [] then AllMany(a)
    else if a[0] == ANY_MANY then Compatible(a[1..], b) || Compatible(a, b[1..])
    else if b[0] == ANY_MANY then Compatible(a, b[1..]) || Compatible(a[1..], b)
    else if IsStatic(a[0]) && IsStatic(b[0]) then a[0] == b[0] && Compatible(a[1..], b[1..])
    else Compatible(a[1..], b[1..])
  }

  // ----- Soundness: a shared path is built -----

  /** What splitting a skeleton at `/` can produce. */
  predicate SegmentLike(s: string) {
    s != "" && '/' !in s
  }

  /** A segment of a real path: not empty, no slash, not a wildcard token. */
  predicate Concrete(s: Segment) {
    SegmentLike(s) && IsStatic(s)
  }

  lemma {:induction false} AllManyAcceptsEmpty(p: seq<Token>)
    ensures Accepts(p, []) <==> AllMany(p)
  {
    if p != [] {
      AllManyAcceptsEmpty(p[1..]);
      assert p[0] in p;
      assert forall t :: t in p <==> t == p[0] || t in p[1..];
      assert Accepts(p, []) <==> p[0] == ANY_MANY && Accepts(p[1..], []);
    }
  }

  /** A path both patterns accept; it is a real path when the tokens came from a skeleton. */
  lemma {:induction false} Witness(a: seq<Token>, b: seq<Token>) returns (w: seq<Segment>)
    requires Compatible(a, b)
    ensures Accepts(a, w) && Accepts(b, w)
    ensures (forall t | t in a + b :: SegmentLike(t)) ==> forall s | s in w :: Concrete(s)
    ensures (forall t | t in a + b :: !SpaceLast(t)) ==> forall s | s in w :: !SpaceLast(s)
    decreases |a| + |b|
  {
    if a == [] || b == [] {
      w := [];
      AllManyAcceptsEmpty(a);
      AllManyAcceptsEmpty(b);
    } else if a[0] == ANY_MANY || b[0] == ANY_MANY {
      if Compatible(a[1..], b) && a[0] == ANY_MANY {
        w := Witness(a[1..], b);
      } else if Compatible(a, b[1..]) && b[0] == ANY_MANY {
        w := Witness(a, b[1..]);
      } else if a[0] == ANY_MANY {
        var v := Witness(a, b[1..]);
        w := [Sample(b[0])] + v;
        assert w[1..] == v;
      } else {
        var v := Witness(a[1..], b);
        w := [Sample(a[0])] + v;
        assert w[1..] == v;
      }
    } else {
      var v := Witness(a[1..], b[1..]);
      w := [Sample(if IsStatic(a[0]) then a[0] else b[0])] + v;
      assert w[1..] == v;
    }
  }

  /** Some segment that fits a one-segment token. */
  function Sample(tok: Token): (s: Segment)
    requires tok != ANY_MANY
    ensures Fits(tok, s)
    ensures SegmentLike(tok) ==> Concrete(s)
    ensures !SpaceLast(tok) ==> !SpaceLast(s)
  {
    if tok == ANY_ONE then "x" else tok
  }

  // ----- Completeness -----

  lemma {:induction false} SharedWordImpliesCompatible(a: seq<Token>, b: seq<Token>, w: seq<Segment>)
    requires Accepts(a, w) && Accepts(b, w)
    ensures Compatible(a, b)
    decreases |a| + |b|, |w|
  {
    if a == [] || b == [] {
      AllManyAcceptsEmpty(a);
      AllManyAcceptsEmpty(b);
    } else if a[0] == ANY_MANY && Accepts(a[1..], w) {
      SharedWordImpliesCompatible(a[1..], b, w);
    } else if b[0] == ANY_MANY && Accepts(b[1..], w) {
      SharedWordImpliesCompatible(a, b[1..], w);
    } else if a[0] == ANY_MANY && b[0] == ANY_MANY {
      // Both wildcards swallow the first segment.
      SharedWordImpliesCompatible(a, b, w[1..]);
    } else if a[0] == ANY_MANY {
      SharedWordImpliesCompatible(a, b[1..], w[1..]);
    } else if b[0] == ANY_MANY {
      SharedWordImpliesCompatible(a[1..], b, w[1..]);
    } else {
      SharedWordImpliesCompatible(a[1..], b[1..], w[1..]);
    }
  }

  /** The recursion decides whether the two pattern languages intersect. */
  lemma CompatibleIffMeet(a: seq<Token>, b: seq<Token>)
    ensures Compatible(a, b) <==> Meet(a, b)
  {
    if Compatible(a, b) {
      var w := Witness(a, b);
    }
    if Meet(a, b) {
      var w :| Accepts(a, w) && Accepts(b, w);
      SharedWordImpliesCompatible(a, b, w);
    }
  }

  lemma CompatibleIsSymmetric(a: seq<Token>, b: seq<Token>)
    ensures Compatible(a, b) == Compatible(b, a)
  {
    CompatibleIffMeet(a, b);
    CompatibleIffMeet(b, a);
  }

  // ----- The memoised recursion of the source -----

  /** One call of the source function: the token lists and the memo table its inner recursion fills. */
  class Matcher {
    const a: seq<Token>
    const b: seq<Token>
    var memo: map<(nat, nat), bool>

    constructor (a: seq<Token>, b: seq<Token>)
      ensures this.a == a && this.b == b && memo == map[]
    {
      this.a, this.b, memo := a, b, map[];
    }

    /** Every entry is the answer for the suffixes its key names. */
    ghost predicate MemoSound()
      reads this
    {
      forall k | k in memo :: Answers(k, memo[k])
    }

    ghost predicate Answers(key: (nat, nat), ok: bool) {
      key.0 <= |a| && key.1 <= |b| && ok == Compatible(a[key.0..], b[key.1..])
    }

    /** One unfolding of the recursion at a pair of suffixes. */
    lemma Unfold(i: nat, j: nat)
      requires i <= |a| && j <= |b|
      ensures i == |a| ==> Compatible(a[i..], b[j..]) == AllMany(b[j..])
      ensures j == |b| ==> Compatible(a[i..], b[j..]) == AllMany(a[i..])
      ensures i < |a| && j < |b| ==>
                Compatible(a[i..], b[j..]) ==
                if a[i] == ANY_MANY || b[j] == ANY_MANY then
                  Compatible(a[i + 1..], b[j..]) || Compatible(a[i..], b[j + 1..])
                else
                  (IsStatic(a[i]) && IsStatic(b[j]) ==> a[i] == b[j]) && Compatible(a[i + 1..], b[j + 1..])
    {
      if i < |a| && j < |b| {
        assert a[i..][1..] == a[i + 1..] && b[j..][1..] == b[j + 1..];
        assert a[i..][0] == a[i] && b[j..][0] == b[j];
      }
    }

    method Rec(i: nat, j: nat) returns (ok: bool)
      requires i <= |a| && j <= |b| && MemoSound()
      modifies this`memo
      ensures MemoSound()
      ensures old(memo.Keys) + {(i, j)} <= memo.Keys
      ensures Answers((i, j), ok) && memo[(i, j)] == ok
      decreases |a| - i + |b| - j
    {
      var key := (i, j);
      if key in memo {
        return memo[key];
      }
      Unfold(i, j);
      hide Compatible;
      if i == |a| && j == |b| {
        ok := true;
      } else if i == |a| {
        ok := AllMany(b[j..]);
      } else if j == |b| {
        ok := AllMany(a[i..]);
      } else {
        if a[i] == ANY_MANY {
          ok := Rec(i + 1, j);
          if !ok {
            ok := Rec(i, j + 1);
          }
        } else if b[j] == ANY_MANY {
          ok := Rec(i, j + 1);
          if !ok {
            ok := Rec(i + 1, j);
          }
        } else if IsStatic(a[i]) && IsStatic(b[j]) {
          ok := a[i] == b[j];
          if ok {
            ok := Rec(i + 1, j + 1);
          }
        } else {
          ok := Rec(i + 1, j + 1);
        }
      }
      memo := memo[key := ok];
    }
  }

  method PatternsCompatible(aTokens: seq<Token>, bTokens: seq<Token>) returns (ok: bool)
    ensures ok <==> Meet(aTokens, bTokens)
  {
    var m := new Matcher(aTokens, bTokens);
    ok := m.Rec(0, 0);
    assert m.a[0..] == aTokens && m.b[0..] == bTokens;
    assert ok == Compatible(aTokens, bTokens);
    CompatibleIffMeet(aTokens, bTokens);
  }

  // ----- From skeleton strings to URLs -----

  /** `[p for p in raw.split("/") if p]` */
  function SplitSlash(s: string): (r: seq<Segment>) {
    var k := FirstSlash(s);
    var head := if k == 0 then [] else [s[..k]];
    if k == |s| then head else head + SplitSlash(s[k + 1..])
  }

  function FirstSlash(s: string): (k: nat)
    ensures k <= |s|
    ensures '/' !in s[..k]
    ensures k < |s| ==> s[k] == '/'
  {
    if s == "" || s[0] == '/' then 0
    else
      var k := 1 + FirstSlash(s[1..]);
      assert s[..k] == [s[0]] + s[1..][..k - 1];
      k
  }

  function SkeletonBody(s: string): string {
    var raw := Strip(s);
    if raw != "" && raw[0] == '/' then raw[1..] else raw
  }

  function SplitSkeleton(s: string): seq<Segment> {
    SplitSlash(SkeletonBody(s))
  }

  lemma {:induction false} SplitSlashYieldsSegments(s: string)
    ensures forall t | t in SplitSlash(s) :: SegmentLike(t)
    decreases |s|
  {
    var k := FirstSlash(s);
    if k < |s| {
      SplitSlashYieldsSegments(s[k + 1..]);
    }
  }

  // ----- Splitting undoes joining -----

  /** A text without a slash is its own single segment, unless it is empty. */
  lemma SplitWithoutSlash(s: string)
    requires '/' !in s
    ensures SplitSlash(s) == if s == "" then [] else [s]
  {
    var k := FirstSlash(s);
    assert k == |s| && s[..k] == s;
  }

  lemma FirstSlashBefore(a: string, b: string)
    ensures FirstSlash(a + "/" + b) == FirstSlash(a)
  {
    var s, k := a + "/" + b, FirstSlash(a);
    var n := FirstSlash(s);
    assert s[k] == '/' && s[..k] == a[..k];
    assert forall i | 0 <= i < k :: s[i] == a[..k][i];
    assert forall i | 0 <= i < n :: s[..n][i] == s[i];
  }

  /** Splitting at a slash between two texts is splitting them one by one. */
  lemma {:induction false} SplitAtSlash(a: string, b: string)
    ensures SplitSlash(a + "/" + b) == SplitSlash(a) + SplitSlash(b)
    decreases |a|
  {
    hide FirstSlash;
    var s, k := a + "/" + b, FirstSlash(a);
    FirstSlashBefore(a, b);
    assert s[..k] == a[..k];
    if k < |a| {
      assert s[k + 1..] == a[k + 1..] + "/" + b;
      SplitAtSlash(a[k + 1..], b);
    } else {
      assert s[k + 1..] == b;
    }
  }

  /** `"/".join(w)` */
  function Join(w: seq<Segment>): string {
    if w == [] then "" else if |w| == 1 then w[0] else w[0] + "/" + Join(w[1..])
  }

  lemma {:induction false} SplitOfJoin(w: seq<Segment>)
    requires forall seg | seg in w :: SegmentLike(seg)
    ensures SplitSlash(Join(w)) == w
    decreases |w|
  {
    hide SplitSlash;
    if w == [] {
      SplitWithoutSlash("");
    } else {
      assert SegmentLike(w[0]);
      SplitWithoutSlash(w[0]);
      if |w| > 1 {
        SplitOfJoin(w[1..]);
        SplitAtSlash(w[0], Join(w[1..]));
      }
      assert w == [w[0]] + w[1..];
    }
  }

  lemma SplitBetweenSlashes(s: string)
    ensures SplitSlash("/" + s) == SplitSlash(s) == SplitSlash(s + "/")
  {
    hide SplitSlash;
    SplitAtSlash("", s);
    SplitAtSlash(s, "");
    SplitWithoutSlash("");
    assert "" + "/" + s == "/" + s && s + "/" + "" == s + "/";
  }

  /** The one slash taken off before splitting makes no difference. */
  lemma SplitOfSkeleton(s: string)
    ensures SplitSkeleton(s) == SplitSlash(Strip(s))
  {
    hide SplitSlash, Strip;
    var raw := Strip(s);
    if raw != "" && raw[0] == '/' {
      assert raw == "/" + raw[1..];
      SplitBetweenSlashes(raw[1..]);
    }
  }

  // ----- What stripping costs -----

  /** The characters other than slashes. */
  function Letters(s: string): nat {
    if s == "" then 0 else (if s[0] == '/' then 0 else 1) + Letters(s[1..])
  }

  function Size(w: seq<Segment>): nat {
    if w == [] then 0 else |w[0]| + Size(w[1..])
  }

  lemma {:induction false} LettersConcat(a: string, b: string)
    ensures Letters(a + b) == Letters(a) + Letters(b)
    decreases |a|
  {
    if a == "" {
      assert a + b == b;
    } else {
      assert (a + b)[1..] == a[1..] + b;
      LettersConcat(a[1..], b);
    }
  }

  lemma {:induction false} LettersWithoutSlash(s: string)
    requires '/' !in s
    ensures Letters(s) == |s|
    decreases |s|
  {
    if s != "" {
      LettersWithoutSlash(s[1..]);
    }
  }

  /** Splitting keeps every character but the slashes. */
  lemma {:induction false} LettersOfSplit(s: string)
    ensures Size(SplitSlash(s)) == Letters(s)
    decreases |s|
  {
    hide FirstSlash, Letters;
    var k := FirstSlash(s);
    LettersWithoutSlash(s[..k]);
    LettersConcat(s[..k], s[k..]);
    assert s == s[..k] + s[k..];
    LettersPast(s[k..]);
    if k < |s| {
      LettersOfSplit(s[k + 1..]);
      assert s[k..][1..] == s[k + 1..];
      var rest := SplitSlash(s[k + 1..]);
      assert ([s[..k]] + rest)[1..] == rest && [] + rest == rest;
    } else {
      assert s[..k] == s;
    }
  }

  lemma LettersPast(s: string)
    requires s == "" || s[0] == '/'
    ensures Letters(s) == if s == "" then 0 else Letters(s[1..])
  {
  }

  lemma StripLosesLetters(s: string)
    ensures Trimmed(s) <==> Letters(Strip(s)) == Letters(s)
  {
    hide Letters, Strip;
    var left, right := StripCuts(s);
    assert !IsSpace('/');
    LettersConcat(left, Strip(s));
    LettersConcat(left + Strip(s), right);
    LettersWithoutSlash(left);
    LettersWithoutSlash(right);
    assert left == "" && right == "" ==> s == Strip(s);
    if Trimmed(s) {
      StripOfTrimmed(s);
    }
  }

  // ----- URLs -----

  /**
   * Segments joined by single slashes, with or without a slash before and after, split back into
   * themselves; as a skeleton they do so exactly when there is no whitespace to strip.
   */
  lemma SplitOfUrl(w: seq<Segment>, leading: bool, trailing: bool)
    requires forall seg | seg in w :: SegmentLike(seg)
    ensures var url := (if leading then "/" else "") + Join(w) + (if trailing then "/" else "");
            SplitSlash(url) == w && (SplitSkeleton(url) == w <==> Trimmed(url))
  {
    hide SplitSlash, Join, Strip, Trimmed, SplitSkeleton;
    var lead := (if leading then "/" else "") + Join(w);
    var url := lead + if trailing then "/" else "";
    SplitOfJoin(w);
    SplitBetweenSlashes(Join(w));
    SplitBetweenSlashes(lead);
    assert "" + Join(w) == Join(w) && lead + "" == lead;
    SplitOfSkeleton(url);
    LettersOfSplit(url);
    LettersOfSplit(Strip(url));
    StripLosesLetters(url);
    if Trimmed(url) {
      StripOfTrimmed(url);
    }
  }

  /** The URL of some segments; a slash is put at the end only to keep whitespace there from being stripped. */
  function UrlOf(w: seq<Segment>): string {
    "/" + Join(w) + if w != [] && SpaceLast(w[|w| - 1]) then "/" else ""
  }

  predicate SpaceLast(seg: Segment) {
    seg != "" && IsSpace(seg[|seg| - 1])
  }

  lemma {:induction false} JoinEnds(w: seq<Segment>)
    requires w != [] && w[|w| - 1] != ""
    ensures Join(w) != "" && Join(w)[|Join(w)| - 1] == w[|w| - 1][|w[|w| - 1]| - 1]
    decreases |w|
  {
    if |w| > 1 {
      JoinEnds(w[1..]);
    }
  }

  /** The URL ends in a slash only if it is `/` or the slash follows whitespace. */
  predicate NeatUrl(url: string) {
    url != "" && url[0] == '/' && (url == "/" || url[|url| - 1] != '/' || IsSpace(url[|url| - 2]))
  }

  lemma UrlIsNeat(w: seq<Segment>)
    requires forall seg | seg in w :: SegmentLike(seg)
    ensures NeatUrl(UrlOf(w)) && SplitSkeleton(UrlOf(w)) == w
    ensures (forall seg | seg in w :: !SpaceLast(seg)) ==> UrlOf(w) == "/" || UrlOf(w)[|UrlOf(w)| - 1] != '/'
  {
    hide SplitSlash, Join, SplitSkeleton;
    var url := UrlOf(w);
    if w == [] {
      SplitOfUrl(w, true, false);
      assert Join(w) == "" by {
        EmptyJoin();
      }
    } else {
      var last := w[|w| - 1];
      assert SegmentLike(last);
      JoinEnds(w);
      SplitOfUrl(w, true, SpaceLast(last));
    }
  }

  lemma EmptyJoin()
    ensures Join([]) == ""
  {
  }

  /** The URL has no wildcards and its segments match both skeletons. */
  predicate SharedUrl(s: string, t: string, url: string) {
    && (forall seg | seg in SplitSkeleton(url) :: Concrete(seg))
    && Accepts(SplitSkeleton(s), SplitSkeleton(url))
    && Accepts(SplitSkeleton(t), SplitSkeleton(url))
  }

  /**
   * Two skeletons are compatible exactly when one URL without wildcards matches both. Unless a segment
   * of theirs ends in whitespace, it is `/` or ends in no slash.
   */
  lemma SkeletonsShareUrl(s: string, t: string)
    ensures Compatible(SplitSkeleton(s), SplitSkeleton(t)) <==> exists url :: NeatUrl(url) && SharedUrl(s, t, url)
    ensures (forall seg | seg in SplitSkeleton(s) + SplitSkeleton(t) :: !SpaceLast(seg)) ==>
              (Compatible(SplitSkeleton(s), SplitSkeleton(t)) <==>
               exists url :: url != "" && (url == "/" || url[|url| - 1] != '/') && SharedUrl(s, t, url))
  {
    hide Accepts, Compatible, SplitSkeleton, SpaceLast, UrlOf;
    var a, b := SplitSkeleton(s), SplitSkeleton(t);
    if Compatible(a, b) {
      var w := Witness(a, b);
      SkeletonYieldsSegments(s);
      SkeletonYieldsSegments(t);
      assert forall seg | seg in w :: Concrete(seg);
      UrlIsNeat(w);
      assert NeatUrl(UrlOf(w)) && SharedUrl(s, t, UrlOf(w));
    }
    if url :| SharedUrl(s, t, url) {
      SharedWordImpliesCompatible(a, b, SplitSkeleton(url));
    }
  }

  lemma SkeletonYieldsSegments(s: string)
    ensures forall seg | seg in SplitSkeleton(s) :: SegmentLike(seg)
  {
    SplitSlashYieldsSegments(SkeletonBody(s));
  }
}
