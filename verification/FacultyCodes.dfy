/** The search for a free faculty code (`_slugify_code` and `_upsert_faculty` in
    backend/app/services/auth_service.py). `upper` stands for `str.upper`, about
    which nothing is assumed. */
module FacultyCodes {
  import opened Text
  import opened Decimals

  function Take(s: string, n: nat): (t: string)
    ensures |t| <= n && (|s| <= n ==> t == s)
  {
    if |s| <= n then s else s[..n]
  }

  /** The first character of each word of `name.split()`. */
  function Initials(name: string, inWord: bool): string {
    if name == "" then ""
    else if IsSpace(name[0]) then Initials(name[1..], false)
    else (if inWord then "" else [name[0]]) + Initials(name[1..], true)
  }

  /** `_slugify_code`. */
  function Slug(upper: string -> string, name: string, length: nat): string {
    var initials := Initials(name, false);
    var short := if initials != "" then initials else WithoutBlanks(name);
    var code := Take(upper(short), length);
    if code != "" then code else "F"
  }

  /** A word starts at i: something there that is no blank, after a blank or nothing. */
  predicate WordStarts(name: string, i: int) {
    0 <= i < |name| && !IsSpace(name[i]) && (i == 0 || IsSpace(name[i - 1]))
  }

  lemma {:induction false} InitialsOneMore(name: string, c: char, inWord: bool)
    ensures var before := if name == "" then inWord else !IsSpace(name[|name| - 1]);
      Initials(name + [c], inWord) == Initials(name, inWord) + if !IsSpace(c) && !before then [c] else ""
  {
    if name == "" {
      assert (name + [c])[1..] == "";
    } else {
      assert (name + [c])[1..] == name[1..] + [c];
      InitialsOneMore(name[1..], c, !IsSpace(name[0]));
    }
  }

  /** All places at which a word starts, in order. */
  ghost predicate AreStarts(name: string, starts: seq<int>) {
    && (forall k :: 0 <= k < |starts| ==> WordStarts(name, starts[k]))
    && (forall j, k :: 0 <= j < k < |starts| ==> starts[j] < starts[k])
    && (forall i :: WordStarts(name, i) ==> i in starts)
  }

  lemma {:induction false} StartsOneMore(name: string, c: char, starts: seq<int>)
    requires AreStarts(name, starts)
    ensures AreStarts(name + [c], starts + if WordStarts(name + [c], |name|) then [|name|] else [])
  {
    var longer := name + [c];
    forall i | 0 <= i < |name|
      ensures WordStarts(longer, i) <==> WordStarts(name, i)
    {
    }
    assert forall i :: WordStarts(longer, i) ==> i == |name| || WordStarts(name, i);
  }

  /** The letters are the characters at those places. */
  ghost predicate Spells(name: string, starts: seq<int>, letters: string) {
    && |starts| == |letters|
    && (forall k :: 0 <= k < |starts| ==> 0 <= starts[k] < |name| && letters[k] == name[starts[k]])
  }

  lemma {:induction false} SpellsMore(name: string, c: char, starts: seq<int>, letters: string)
    requires Spells(name, starts, letters)
    ensures Spells(name + [c], starts, letters) && Spells(name + [c], starts + [|name|], letters + [c])
  {
  }

  lemma {:induction false} InitialsGrow(name: string, c: char, starts: seq<int>) returns (more: seq<int>)
    requires AreStarts(name, starts) && Spells(name, starts, Initials(name, false))
    ensures AreStarts(name + [c], more) && Spells(name + [c], more, Initials(name + [c], false))
  {
    StartsOneMore(name, c, starts);
    InitialsOneMore(name, c, false);
    SpellsMore(name, c, starts, Initials(name, false));
    if WordStarts(name + [c], |name|) {
      more := starts + [|name|];
    } else {
      more := starts;
      assert starts + [] == starts && Initials(name, false) + [] == Initials(name, false);
    }
  }

  /** The initials are the characters at which the words start, in order. */
  lemma {:induction false} InitialsAreWordStarts(name: string) returns (starts: seq<int>)
    ensures AreStarts(name, starts) && Spells(name, starts, Initials(name, false))
  {
    starts := [];
    if name != "" {
      var init, last := name[..|name| - 1], name[|name| - 1];
      starts := InitialsAreWordStarts(init);
      starts := InitialsGrow(init, last, starts);
      assert name == init + [last];
    }
  }

  /** The code of a name: its initials in capitals, at most 16 of them; without a word,
      the name in capitals without its blanks; and F if nothing is left. */
  lemma {:induction false} CodeOfName(upper: string -> string, name: string, letters: string)
    requires letters == if Initials(name, false) == "" then WithoutBlanks(name) else Initials(name, false)
    ensures var capitals := upper(letters);
      BaseCode(upper, name) ==
        if capitals == "" then "F" else if |capitals| <= 16 then capitals else capitals[..16]
  {
  }

  /** The next candidates: the code's first 29 characters, a dash and the number. */
  lemma {:induction false} CandidateShape(code: string, k: nat)
    ensures Candidate(code, 0) == code
    ensures k > 0 ==>
      var start := if |code| <= 29 then code else code[..29];
      exists digits :: Candidate(code, k) == start + "-" + digits && AllDigits(digits) && Val(digits) == k
  {
    ValPad(k, 1);
    if k > 0 {
      assert Candidate(code, k) == (if |code| <= 29 then code else code[..29]) + "-" + Dec(k);
    }
  }

  const SLUG_LENGTH: nat := 16

  function BaseCode(upper: string -> string, name: string): (c: string)
    ensures c != "" && |c| <= SLUG_LENGTH
  {
    Take(Slug(upper, name, SLUG_LENGTH), 32)
  }

  /** The codes tried, in order. */
  function Candidate(code: string, k: nat): string {
    if k == 0 then code else Take(code, 29) + "-" + Dec(k)
  }

  /** No code is tried twice. */
  lemma {:induction false} CandidatesDiffer(code: string, j: nat, k: nat)
    requires |code| <= 29 && j != k
    ensures Candidate(code, j) != Candidate(code, k)
  {
    ValPad(j, 1);
    ValPad(k, 1);
    if j > 0 && k > 0 {
      var start := Take(code, 29) + "-";
      assert Candidate(code, j) == start + Dec(j) && Candidate(code, k) == start + Dec(k);
      assert (start + Dec(j))[|start|..] == Dec(j) && (start + Dec(k))[|start|..] == Dec(k);
    }
  }

  /** The first `n` codes tried. */
  function Tried(code: string, n: nat): set<string> {
    if n == 0 then {} else Tried(code, n - 1) + {Candidate(code, n - 1)}
  }

  lemma {:induction false} TriedCount(code: string, n: nat)
    requires |code| <= 29
    ensures |Tried(code, n)| == n
    ensures forall k: nat :: n <= k ==> Candidate(code, k) !in Tried(code, n)
  {
    if n > 0 {
      TriedCount(code, n - 1);
      forall k: nat | n <= k
        ensures Candidate(code, k) !in Tried(code, n)
      {
        CandidatesDiffer(code, n - 1, k);
      }
    }
  }

  /** Pigeonhole: codes that are all taken are no more than the taken codes. */
  lemma {:induction false} TriedAtMost(code: string, n: nat, taken: set<string>)
    requires |code| <= 29 && Tried(code, n) <= taken
    ensures n <= |taken|
  {
    TriedCount(code, n);
    assert taken == Tried(code, n) + (taken - Tried(code, n));
  }

  /** The search loop of `_upsert_faculty`: it ends after at most one candidate more
      than there are taken codes, on the first free one. */
  method FreeCode(upper: string -> string, name: string, taken: set<string>) returns (candidate: string, suffix: nat)
    ensures candidate == Candidate(BaseCode(upper, name), suffix) && candidate !in taken
    ensures suffix <= |taken|
    ensures forall k: nat :: k < suffix ==> Candidate(BaseCode(upper, name), k) in taken
  {
    var code := BaseCode(upper, name);
    suffix := 0;
    candidate := code;
    while candidate in taken
      invariant candidate == Candidate(code, suffix)
      invariant Tried(code, suffix) <= taken
      invariant forall k: nat :: k < suffix ==> Candidate(code, k) in taken
      decreases |taken| - suffix
    {
      TriedAtMost(code, suffix + 1, taken);
      suffix := suffix + 1;
      candidate := Take(code, 29) + "-" + Dec(suffix);
    }
    TriedAtMost(code, suffix, taken);
  }

  /** The code found fits its 32-character column while the suffix has at most 15
      digits, so while fewer than 10^15 codes are taken. */
  lemma {:induction false} CodeFits(upper: string -> string, name: string, k: nat)
    requires k < Pow10(15)
    ensures |Candidate(BaseCode(upper, name), k)| <= 32
  {
    DecWidth(k, 15);
  }
}
