/** Strings as the program trims and cleans them. */
module Text {
  import opened Wrappers

  /** The characters `str.strip` removes. */
  predicate IsSpace(c: char) {
    var n := c as int;
    || 0x09 <= n <= 0x0D || 0x1C <= n <= 0x20 || n == 0x85 || n == 0xA0 || n == 0x1680
    || 0x2000 <= n <= 0x200A || n == 0x2028 || n == 0x2029 || n == 0x202F || n == 0x205F || n == 0x3000
  }

  predicate Blank(s: string) {
    forall c :: c in s ==> IsSpace(c)
  }

  function StripLeft(s: string): string {
    if s != "" && IsSpace(s[0]) then StripLeft(s[1..]) else s
  }

  function StripRight(s: string): string {
    if s != "" && IsSpace(s[|s| - 1]) then StripRight(s[..|s| - 1]) else s
  }

  function Strip(s: string): string {
    StripRight(StripLeft(s))
  }

  lemma {:induction false} StripLeftBlank(s: string)
    ensures Blank(StripLeft(s)) <==> Blank(s)
    ensures StripLeft(s) == "" || !IsSpace(StripLeft(s)[0])
  {
    if s != "" && IsSpace(s[0]) {
      StripLeftBlank(s[1..]);
      assert s == [s[0]] + s[1..];
    }
  }

  lemma {:induction false} StripRightBlank(s: string)
    ensures Blank(StripRight(s)) <==> Blank(s)
    ensures StripRight(s) == "" || !IsSpace(StripRight(s)[|StripRight(s)| - 1])
  {
    if s != "" && IsSpace(s[|s| - 1]) {
      StripRightBlank(s[..|s| - 1]);
      assert s == s[..|s| - 1] + [s[|s| - 1]];
    }
  }

  /** Trimming leaves nothing exactly of a blank text, and never leaves a blank one. */
  lemma {:induction false} StripBlank(s: string)
    ensures Strip(s) == "" <==> Blank(s)
    ensures Blank(Strip(s)) ==> Strip(s) == ""
  {
    StripLeftBlank(s);
    StripRightBlank(StripLeft(s));
  }

  // What trimming means, without saying how.

  /** `body` is `s` from i to j, with blanks around it and none at its ends. */
  ghost predicate Cut(s: string, body: string, i: nat, j: nat) {
    && i <= j <= |s| && body == s[i..j] && Blank(s[..i]) && Blank(s[j..])
    && (body != "" ==> !IsSpace(body[0]) && !IsSpace(body[|body| - 1]))
  }

  ghost predicate TrimOf(body: string, s: string) {
    exists i: nat, j: nat :: Cut(s, body, i, j)
  }

  lemma {:induction false} ThreeParts(s: string, i: nat, j: nat)
    requires i <= j <= |s|
    ensures s == s[..i] + s[i..j] + s[j..]
  {
  }

  /** The blanks a trimmed text lost. */
  lemma {:induction false} TrimParts(body: string, s: string) returns (pre: string, post: string)
    requires TrimOf(body, s)
    ensures s == pre + body + post && Blank(pre) && Blank(post)
    ensures body != "" ==> !IsSpace(body[0]) && !IsSpace(body[|body| - 1])
  {
    var i: nat, j: nat :| Cut(s, body, i, j);
    pre, post := s[..i], s[j..];
    ThreeParts(s, i, j);
  }

  lemma {:induction false} LeftCut(s: string) returns (i: nat)
    ensures i <= |s| && StripLeft(s) == s[i..] && Blank(s[..i])
  {
    i := 0;
    if s != "" && IsSpace(s[0]) {
      var k := LeftCut(s[1..]);
      i := k + 1;
      assert s[..i] == [s[0]] + s[1..][..k];
    }
  }

  lemma {:induction false} RightCut(s: string) returns (j: nat)
    ensures j <= |s| && StripRight(s) == s[..j] && Blank(s[j..])
  {
    j := |s|;
    if s != "" && IsSpace(s[|s| - 1]) {
      j := RightCut(s[..|s| - 1]);
      assert s[j..] == s[..|s| - 1][j..] + [s[|s| - 1]];
    }
  }

  lemma {:induction false} StripTrims(s: string)
    ensures TrimOf(Strip(s), s)
  {
    var i := LeftCut(s);
    var k := RightCut(s[i..]);
    StripLeftBlank(s);
    StripRightBlank(s[i..]);
    assert s[i..][..k] == s[i..i + k] && s[i..][k..] == s[i + k..];
    assert Cut(s, Strip(s), i, i + k);
  }

  lemma {:induction false} BlankOutside(s: string, body: string, i: nat, j: nat)
    requires Cut(s, body, i, j)
    ensures forall k :: 0 <= k < i ==> IsSpace(s[k])
    ensures forall k :: j <= k < |s| ==> IsSpace(s[k])
    ensures body != "" ==> !IsSpace(s[i]) && !IsSpace(s[j - 1])
  {
    forall k | 0 <= k < i
      ensures IsSpace(s[k])
    {
      assert s[k] == s[..i][k];
    }
    forall k | j <= k < |s|
      ensures IsSpace(s[k])
    {
      assert s[k] == s[j..][k - j];
    }
  }

  lemma {:induction false} CutEmpty(s: string, i: nat, j: nat, body: string, k: nat, l: nat)
    requires Cut(s, "", i, j) && Cut(s, body, k, l)
    ensures body == ""
  {
    BlankOutside(s, "", i, j);
    BlankOutside(s, body, k, l);
  }

  lemma {:induction false} CutsAgree(s: string, a: string, i: nat, j: nat, b: string, k: nat, l: nat)
    requires a != "" && b != "" && Cut(s, a, i, j) && Cut(s, b, k, l)
    ensures k <= i && j <= l
  {
    BlankOutside(s, a, i, j);
    BlankOutside(s, b, k, l);
  }

  /** A text has one trimmed form only. */
  lemma {:induction false} TrimUnique(s: string, a: string, b: string)
    requires TrimOf(a, s) && TrimOf(b, s)
    ensures a == b
  {
    var i: nat, j: nat :| Cut(s, a, i, j);
    var k: nat, l: nat :| Cut(s, b, k, l);
    if a == "" {
      CutEmpty(s, i, j, b, k, l);
    } else if b == "" {
      CutEmpty(s, k, l, a, i, j);
    } else {
      CutsAgree(s, a, i, j, b, k, l);
      CutsAgree(s, b, k, l, a, i, j);
    }
  }

  lemma {:induction false} SpaceIsBlank()
    ensures Blank(" ")
  {
    assert IsSpace(' ');
  }

  /** Blanks around a text do not matter. */
  lemma {:induction false} StripAround(pre: string, s: string, post: string)
    requires Blank(pre) && Blank(post)
    ensures Strip(pre + s + post) == Strip(s)
  {
    StripTrims(s);
    var i: nat, j: nat :| Cut(s, Strip(s), i, j);
    var t := pre + s + post;
    assert t[..|pre| + i] == pre + s[..i] && t[|pre| + j..] == s[j..] + post;
    assert t[|pre| + i..|pre| + j] == s[i..j];
    assert Cut(t, Strip(s), |pre| + i, |pre| + j);
    StripTrims(t);
    TrimUnique(t, Strip(t), Strip(s));
  }

  /** `replace(" ", "")`. */
  function WithoutBlanks(s: string): string {
    if s == "" then "" else (if s[0] == ' ' then "" else [s[0]]) + WithoutBlanks(s[1..])
  }

  /** Removing blanks works piece by piece: a blank goes, anything else stays. */
  lemma {:induction false} WithoutBlanksJoins(a: string, b: string)
    ensures WithoutBlanks(a + b) == WithoutBlanks(a) + WithoutBlanks(b)
  {
    if a == "" {
      assert a + b == b;
    } else {
      assert (a + b)[1..] == a[1..] + b;
      WithoutBlanksJoins(a[1..], b);
    }
  }

  lemma {:induction false} WithoutBlanksOfOne(c: char)
    ensures WithoutBlanks([c]) == if c == ' ' then "" else [c]
  {
    assert [c][1..] == "";
  }

  /** `(text or "").strip() or None`. */
  function Clean(text: Option<string>): (r: Option<string>)
    ensures r.Some? <==> text.Some? && !Blank(text.value)
    ensures r.Some? ==> !Blank(r.value) && TrimOf(r.value, text.value)
  {
    if text.None? then None
    else
      StripBlank(text.value);
      StripTrims(text.value);
      if Strip(text.value) == "" then None else Some(Strip(text.value))
  }
}
