/** What several modules share: options and results, bounds, and counts over sequences and sets. */
module Basics {

  datatype Option<T> = None | Some(value: T)

  datatype Result<R, E> = Ok(value: R) | Err(error: E)

  function Min(a: int, b: int): int {
    if a < b then a else b
  }

  function Max(a: int, b: int): int {
    if a < b then b else a
  }

  lemma SubsetSize<T>(a: set<T>, b: set<T>)
    requires a <= b
    ensures |a| <= |b|
  {
    var rest := b - a;
    assert b == a + rest && a !! rest;
  }

  /** The sum of the weights of the elements. */
  function Tally<T>(s: seq<T>, weight: T -> nat): nat {
    if s == [] then 0 else Tally(s[..|s| - 1], weight) + weight(s[|s| - 1])
  }

  lemma {:induction false} TallyUpdate<T>(s: seq<T>, i: nat, x: T, weight: T -> nat)
    requires i < |s|
    ensures Tally(s[i := x], weight) + weight(s[i]) == Tally(s, weight) + weight(x)
    decreases |s|
  {
    var last := |s| - 1;
    if i < last {
      assert s[i := x][..last] == s[..last][i := x];
      TallyUpdate(s[..last], i, x, weight);
    } else {
      assert s[i := x][..last] == s[..last];
    }
  }

  /** With weights of at most one, the tally counts the elements that weigh one. */
  lemma {:induction false} TallyBounds<T>(s: seq<T>, weight: T -> nat)
    requires forall i | 0 <= i < |s| :: weight(s[i]) <= 1
    ensures Tally(s, weight) <= |s|
    ensures Tally(s, weight) == |s| <==> forall i | 0 <= i < |s| :: weight(s[i]) == 1
    ensures Tally(s, weight) == 0 <==> forall i | 0 <= i < |s| :: weight(s[i]) == 0
    decreases |s|
  {
    if s != [] {
      TallyBounds(s[..|s| - 1], weight);
    }
  }

  // ----- String literals -----

  /** A character that begins and ends a string. */
  predicate IsMark(c: char) {
    c == '"' || c == '`' || c == '\''
  }

  /** Within a string the mark that ends it only comes after a backslash. */
  predicate IsBody(mark: char, body: string) {
    body == ""
    || (if body[0] == '\\' then |body| > 1 && IsBody(mark, body[2..]) else body[0] != mark && IsBody(mark, body[1..]))
  }
}
