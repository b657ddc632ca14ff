/** The parts of Python's string type that the modelled code relies on: whitespace and `strip`. */
module PyText {

  /** `str.isspace` for one character. */
  predicate IsSpace(c: char) {
    || '\t' <= c <= '\r'
    || '\U{1c}' <= c <= ' '
    || c == '\U{85}' || c == '\U{a0}' || c == '\U{1680}'
    || '\U{2000}' <= c <= '\U{200a}'
    || c == '\U{2028}' || c == '\U{2029}' || c == '\U{202f}' || c == '\U{205f}' || c == '\U{3000}'
  }

  /** The 29 characters that Python takes for whitespace. */
  const WHITESPACE: string :=
    "\U{9}\U{a}\U{b}\U{c}\U{d}\U{1c}\U{1d}\U{1e}\U{1f}\U{20}\U{85}\U{a0}\U{1680}"
    + "\U{2000}\U{2001}\U{2002}\U{2003}\U{2004}\U{2005}\U{2006}\U{2007}\U{2008}\U{2009}\U{200a}"
    + "\U{2028}\U{2029}\U{202f}\U{205f}\U{3000}"

  lemma SpacesAre(c: char)
    ensures IsSpace(c) <==> c in WHITESPACE
  {
  }

  function StripLeft(s: string): (r: string)
    ensures |r| <= |s|
  {
    if s != "" && IsSpace(s[0]) then StripLeft(s[1..]) else s
  }

  function StripRight(s: string): (r: string)
    ensures |r| <= |s|
  {
    if s != "" && IsSpace(s[|s| - 1]) then StripRight(s[..|s| - 1]) else s
  }

  /** `str.strip()`. */
  function Strip(s: string): string {
    StripRight(StripLeft(s))
  }

  /** A string with no whitespace at either end is its own strip. */
  predicate Trimmed(s: string) {
    s == "" || (!IsSpace(s[0]) && !IsSpace(s[|s| - 1]))
  }

  predicate Blank(s: string) {
    forall c | c in s :: IsSpace(c)
  }

  lemma {:induction false} StripLeftCuts(s: string) returns (pad: string)
    ensures s == pad + StripLeft(s)
    ensures Blank(pad)
    ensures StripLeft(s) != "" ==> !IsSpace(StripLeft(s)[0])
  {
    if s != "" && IsSpace(s[0]) {
      var rest := StripLeftCuts(s[1..]);
      pad := [s[0]] + rest;
      assert s == [s[0]] + s[1..];
    } else {
      pad := "";
    }
  }

  lemma {:induction false} StripRightCuts(s: string) returns (pad: string)
    ensures s == StripRight(s) + pad
    ensures Blank(pad)
    ensures StripRight(s) != "" ==> !IsSpace(StripRight(s)[|StripRight(s)| - 1])
  {
    if s != "" && IsSpace(s[|s| - 1]) {
      var rest := StripRightCuts(s[..|s| - 1]);
      pad := rest + [s[|s| - 1]];
      assert s == s[..|s| - 1] + [s[|s| - 1]];
    } else {
      pad := "";
    }
  }

  /** `strip` cuts blank text off both ends and leaves a trimmed string. */
  lemma StripCuts(s: string) returns (left: string, right: string)
    ensures s == left + Strip(s) + right
    ensures Blank(left) && Blank(right)
    ensures Trimmed(Strip(s))
  {
    left := StripLeftCuts(s);
    right := StripRightCuts(StripLeft(s));
    assert s == left + Strip(s) + right;
    var m := StripLeft(s);
    assert m == Strip(s) + right;
    if Strip(s) != "" {
      assert m[0] == Strip(s)[0];
    }
  }

  lemma {:induction false} StripLeftOfPadded(pad: string, s: string)
    requires Blank(pad) && (s == "" || !IsSpace(s[0]))
    ensures StripLeft(pad + s) == s
    decreases |pad|
  {
    if pad == "" {
      assert pad + s == s;
    } else {
      assert (pad + s)[1..] == pad[1..] + s && (pad + s)[0] == pad[0] && pad[0] in pad;
      StripLeftOfPadded(pad[1..], s);
    }
  }

  lemma {:induction false} StripRightOfPadded(s: string, pad: string)
    requires Blank(pad) && (s == "" || !IsSpace(s[|s| - 1]))
    ensures StripRight(s + pad) == s
    decreases |pad|
  {
    if pad == "" {
      assert s + pad == s;
    } else {
      var last := |pad| - 1;
      assert (s + pad)[..|s + pad| - 1] == s + pad[..last] && (s + pad)[|s + pad| - 1] == pad[last] && pad[last] in pad;
      StripRightOfPadded(s, pad[..last]);
    }
  }

  /** `strip` takes off just the blank text around a trimmed one. */
  lemma StripOfPadded(left: string, s: string, right: string)
    requires Blank(left) && Blank(right) && Trimmed(s)
    ensures Strip(left + s + right) == s
  {
    if s == "" {
      var blank := left + s + right;
      assert forall c | c in blank :: c in left || c in right;
      assert blank + "" == blank;
      StripLeftOfPadded(blank, "");
    } else {
      assert left + s + right == left + (s + right) && (s + right)[0] == s[0];
      StripLeftOfPadded(left, s + right);
      StripRightOfPadded(s, right);
    }
  }

  lemma StripOfTrimmed(s: string)
    requires Trimmed(s)
    ensures Strip(s) == s
  {
  }
}
