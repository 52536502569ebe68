/** Time-based one-time passwords (backend/app/core/totp.py, RFC 6238) and their
    single use (`_consume_totp` in backend/app/api/v1/auth.py). The keyed hash is
    any function from a secret and a counter to 20 bytes. */
module Totp {
  import opened Wrappers
  import opened Decimals
  import Text

  const STEP: int := 30
  const DIGITS: nat := 6
  const DRIFT: int := 1
  /** How long a used step is remembered, in seconds. */
  const USED_FOR: int := 120

  type Digest = d: seq<bv8> | |d| == 20 witness seq(20, _ => 0)

  type Hash = (string, int) -> Digest

  function LowBits(b: bv8): (n: nat)
    ensures n < 16
  {
    (b & 0x0F) as nat
  }

  function WithoutSign(b: bv8): (n: nat)
    ensures n < 128
  {
    (b & 0x7F) as nat
  }

  function Byte(b: bv8): (n: nat)
    ensures n < 256
  {
    b as nat
  }

  /** Section 5.3 of RFC 4226: where the four bytes of the code start. */
  function Offset(d: Digest): (o: nat)
    ensures o + 4 <= 20
  {
    LowBits(d[19])
  }

  /** The four bytes, big-endian, without the sign bit. */
  function Truncated(d: Digest): (v: nat)
    ensures v < 0x8000_0000
  {
    var o := Offset(d);
    ((WithoutSign(d[o]) * 256 + Byte(d[o + 1])) * 256 + Byte(d[o + 2])) * 256 + Byte(d[o + 3])
  }

  /** `_code_at`. */
  function CodeAt(hash: Hash, secret: string, counter: int): string {
    Pad(Truncated(hash(secret, counter)) % 1_000_000, DIGITS)
  }

  lemma {:induction false} BitsAreRemainders(b: bv8)
    ensures LowBits(b) == b as nat % 16 && WithoutSign(b) == b as nat % 128
  {
  }

  /** Which bytes make the code: the last one says where they start, and the first of
      the four loses its top bit. */
  lemma {:induction false} TruncatedBytes(d: Digest, o: nat)
    requires o == d[19] as nat % 16
    ensures Truncated(d)
         == (d[o] as nat % 128) * 16777216 + d[o + 1] as nat * 65536 + d[o + 2] as nat * 256 + d[o + 3] as nat
  {
    BitsAreRemainders(d[19]);
    BitsAreRemainders(d[o]);
  }

  /** The code of a digest is the six decimal digits of what is left of it by a million. */
  lemma {:induction false} CodeDigits(hash: Hash, secret: string, counter: int)
    ensures var code := CodeAt(hash, secret, counter);
      |code| == 6 && AllDigits(code) && Val(code) == Truncated(hash(secret, counter)) % 1_000_000
  {
    CodeShape(hash, secret, counter);
    ValPad(Truncated(hash(secret, counter)) % 1_000_000, DIGITS);
  }

  /** The digest of section 5.4 of RFC 4226. */
  function SampleDigest(): Digest {
    [0x1f, 0x86, 0x98, 0x69, 0x0e, 0x02, 0xca, 0x16, 0x61, 0x85,
     0x50, 0xef, 0x7f, 0x19, 0xda, 0x8e, 0x94, 0x5b, 0x55, 0x5a]
  }

  lemma {:induction false} SampleValue()
    ensures Truncated(SampleDigest()) == 1357872921
  {
    TruncatedBytes(SampleDigest(), 10);
  }

  lemma {:induction false} TwoMore(s: string, a: int, b: int)
    requires 0 <= a < 10 && 0 <= b < 10
    ensures Val(s + [Digit(a)] + [Digit(b)]) == 100 * Val(s) + 10 * a + b
  {
    ValAppend(s, a);
    ValAppend(s + [Digit(a)], b);
  }

  /** Six digits in decimal. */
  lemma {:induction false} SixDigitsVal(a: int, b: int, c: int, d: int, e: int, f: int)
    requires 0 <= a < 10 && 0 <= b < 10 && 0 <= c < 10 && 0 <= d < 10 && 0 <= e < 10 && 0 <= f < 10
    ensures var two := "" + [Digit(a)] + [Digit(b)];
      Val(two + [Digit(c)] + [Digit(d)] + [Digit(e)] + [Digit(f)])
      == 10000 * (10 * a + b) + 100 * (10 * c + d) + 10 * e + f
  {
    var two := "" + [Digit(a)] + [Digit(b)];
    TwoMore("", a, b);
    TwoMore(two, c, d);
    TwoMore(two + [Digit(c)] + [Digit(d)], e, f);
  }

  /** Its code, as the RFC gives it. */
  lemma {:induction false} SampleCode(hash: Hash, secret: string, counter: int, code: string)
    requires hash(secret, counter) == SampleDigest() && code == "872921"
    ensures CodeAt(hash, secret, counter) == code
  {
    SampleValue();
    CodeDigits(hash, secret, counter);
    SixDigitsVal(8, 7, 2, 9, 2, 1);
    assert code == "" + [Digit(8)] + [Digit(7)] + [Digit(2)] + [Digit(9)] + [Digit(2)] + [Digit(1)];
    TextOrderIsNumberOrder(CodeAt(hash, secret, counter), code);
  }

  /** Codes always have six digits. */
  lemma {:induction false} CodeShape(hash: Hash, secret: string, counter: int)
    ensures |CodeAt(hash, secret, counter)| == DIGITS && AllDigits(CodeAt(hash, secret, counter))
  {
    assert Pow10(6) == 1_000_000 by {
      assert Pow10(4) == 10 * Pow10(3) && Pow10(3) == 10 * Pow10(2);
      assert Pow10(2) == 10 * Pow10(1) && Pow10(1) == 10 * Pow10(0);
    }
    PadWidth(Truncated(hash(secret, counter)) % 1_000_000, DIGITS);
  }

  function StepAt(at: int): int {
    at / STEP
  }

  /** `code.strip().replace(" ", "")`. */
  function Cleaned(code: string): string {
    Text.WithoutBlanks(Text.Strip(code))
  }

  /** `matching_step`: the first of the three steps around now that has this code. */
  function MatchingStep(hash: Hash, secret: string, code: string, at: int): (r: Option<int>)
    ensures r.Some? ==> StepAt(at) - DRIFT <= r.value <= StepAt(at) + DRIFT
    ensures r.Some? ==> CodeAt(hash, secret, r.value) == Cleaned(code)
  {
    var c := Cleaned(code);
    if |c| != DIGITS || !AllDigits(c) then None
    else FirstMatch(hash, secret, c, StepAt(at) - DRIFT, StepAt(at) + DRIFT + 1)
  }

  function FirstMatch(hash: Hash, secret: string, code: string, from: int, end: int): (r: Option<int>)
    ensures r.Some? ==> from <= r.value < end && CodeAt(hash, secret, r.value) == code
    ensures r.None? ==> forall s :: from <= s < end ==> CodeAt(hash, secret, s) != code
    ensures r.Some? ==> forall s :: from <= s < r.value ==> CodeAt(hash, secret, s) != code
    decreases end - from
  {
    if from >= end then None
    else if CodeAt(hash, secret, from) == code then Some(from)
    else FirstMatch(hash, secret, code, from + 1, end)
  }

  lemma {:induction false} DigitsHaveNoBlanks(s: string)
    requires AllDigits(s)
    ensures Text.WithoutBlanks(s) == s
  {
    if s != "" {
      DigitsHaveNoBlanks(s[1..]);
      assert s == [s[0]] + s[1..];
    }
  }

  lemma {:induction false} CodeIsClean(hash: Hash, secret: string, step: int)
    ensures Cleaned(CodeAt(hash, secret, step)) == CodeAt(hash, secret, step)
  {
    CodeShape(hash, secret, step);
    var code := CodeAt(hash, secret, step);
    DigitsHaveNoBlanks(code);
    assert Text.Strip(code) == code by {
      assert IsDigit(code[0]) && IsDigit(code[|code| - 1]);
    }
  }

  /** The code of the current step or of a neighbour always matches some step. */
  lemma {:induction false} NearbyCodesMatch(hash: Hash, secret: string, step: int, at: int)
    requires StepAt(at) - DRIFT <= step <= StepAt(at) + DRIFT
    ensures MatchingStep(hash, secret, CodeAt(hash, secret, step), at).Some?
  {
    CodeShape(hash, secret, step);
    CodeIsClean(hash, secret, step);
  }

  /** A text matches exactly if it is, cleaned, the code of one of three steps: the one
      30 seconds wide that now falls in, the one before and the one after. */
  lemma {:induction false} MatchesExactly(hash: Hash, secret: string, code: string, at: int, step: int)
    requires 30 * step <= at < 30 * (step + 1)
    ensures MatchingStep(hash, secret, code, at).Some? <==>
            || Cleaned(code) == CodeAt(hash, secret, step - 1)
            || Cleaned(code) == CodeAt(hash, secret, step)
            || Cleaned(code) == CodeAt(hash, secret, step + 1)
  {
    CodeShape(hash, secret, step - 1);
    CodeShape(hash, secret, step);
    CodeShape(hash, secret, step + 1);
    assert StepAt(at) == step;
  }

  /** Blanks around the digits and one between them do not matter. */
  lemma {:induction false} CleanedDigits(pre: string, a: string, b: string, post: string)
    requires AllDigits(a) && AllDigits(b) && Text.Blank(pre) && Text.Blank(post)
    ensures Cleaned(pre + (a + b) + post) == a + b
    ensures Cleaned(pre + (a + " " + b) + post) == a + b
  {
    Text.StripAround(pre, a + b, post);
    Text.StripAround(pre, a + " " + b, post);
    StripDigits(a + b);
    DigitsHaveNoBlanks(a + b);
    SpacedDigits(a, b);
  }

  lemma {:induction false} StripDigits(s: string)
    requires AllDigits(s)
    ensures Text.Strip(s) == s
  {
    if s != "" {
      assert IsDigit(s[0]) && IsDigit(s[|s| - 1]);
    }
  }

  lemma {:induction false} DigitsThenNothing(s: string)
    requires AllDigits(s)
    ensures Cleaned(s) == s
  {
    StripDigits(s);
    DigitsHaveNoBlanks(s);
  }

  lemma {:induction false} SpaceBetween(a: string, b: string)
    requires AllDigits(a) && AllDigits(b) && a != "" && b != ""
    ensures Text.Strip(a + " " + b) == a + " " + b
  {
    var s := a + " " + b;
    assert IsDigit(s[0]) && IsDigit(s[|s| - 1]);
  }

  lemma {:induction false} BetweenGoes(a: string, b: string)
    requires AllDigits(a) && AllDigits(b)
    ensures Text.WithoutBlanks(a + " " + b) == a + b
  {
    Text.WithoutBlanksJoins(a + " ", b);
    Text.WithoutBlanksJoins(a, " ");
    Text.WithoutBlanksOfOne(' ');
    DigitsHaveNoBlanks(a);
    DigitsHaveNoBlanks(b);
  }

  lemma {:induction false} SpacedDigits(a: string, b: string)
    requires AllDigits(a) && AllDigits(b)
    ensures Cleaned(a + " " + b) == a + b
  {
    if a != "" && b != "" {
      SpaceBetween(a, b);
      BetweenGoes(a, b);
    } else if a == "" {
      DigitsThenNothing(b);
      SpaceBefore(b);
      assert a + b == b && a + " " + b == " " + b;
    } else {
      DigitsThenNothing(a);
      SpaceAfter(a);
      assert a + b == a && a + " " + b == a + " ";
    }
  }

  lemma {:induction false} SpaceBefore(s: string)
    ensures Text.Strip(" " + s) == Text.Strip(s)
  {
    Text.SpaceIsBlank();
    Text.StripAround(" ", s, "");
    assert " " + s + "" == " " + s;
  }

  lemma {:induction false} SpaceAfter(s: string)
    ensures Text.Strip(s + " ") == Text.Strip(s)
  {
    Text.SpaceIsBlank();
    Text.StripAround("", s, " ");
    assert "" + s + " " == s + " ";
  }

  /** A step can match during 90 seconds only. */
  lemma {:induction false} MatchWindow(hash: Hash, secret: string, code: string, at: int, step: int)
    requires MatchingStep(hash, secret, code, at) == Some(step)
    ensures STEP * (step - DRIFT) <= at < STEP * (step - DRIFT) + 90
  {
  }

  // Single use.

  /** Who used which step. */
  type Used = (int, int)

  /** The expiring keys of the cache: when each one goes. */
  class UsedSteps {
    var keys: map<Used, int>

    /** `_consume_totp`: `at` is when the code is checked, `setAt` when the key is
        written. `SET NX EX` writes only where no key is alive. */
    method Consume(hash: Hash, user: int, secret: Option<string>, code: string, at: int, setAt: int) returns (ok: bool)
      modifies this
      ensures (keys, ok) == Consumed(hash, old(keys), Login(user, secret, code, at, setAt))
    {
      if secret.None? || secret.value == "" {
        return false;
      }
      var step := MatchingStep(hash, secret.value, code, at);
      if step.None? {
        return false;
      }
      var key := (user, step.value);
      if key in keys && setAt < keys[key] {
        return false;
      }
      keys := keys[key := setAt + USED_FOR];
      return true;
    }
  }

  datatype Login = Login(user: int, secret: Option<string>, code: string, at: int, setAt: int)

  function StepOf(hash: Hash, l: Login): Option<int> {
    if l.secret.None? || l.secret.value == "" then None else MatchingStep(hash, l.secret.value, l.code, l.at)
  }

  /** The keys after a login and whether it was accepted. */
  function Consumed(hash: Hash, keys: map<Used, int>, l: Login): (map<Used, int>, bool) {
    var step := StepOf(hash, l);
    if step.None? then (keys, false)
    else
      var key := (l.user, step.value);
      if key in keys && l.setAt < keys[key] then (keys, false)
      else (keys[key := l.setAt + USED_FOR], true)
  }

  /** Keys after a run of logins that starts with none. */
  function KeysAfter(hash: Hash, logins: seq<Login>): map<Used, int> {
    if logins == [] then map[] else Consumed(hash, KeysAfter(hash, logins[..|logins| - 1]), logins[|logins| - 1]).0
  }

  predicate Accepted(hash: Hash, logins: seq<Login>, k: nat)
    requires k < |logins|
  {
    Consumed(hash, KeysAfter(hash, logins[..k]), logins[k]).1
  }

  /** A key is written after its code was checked. */
  predicate Causal(logins: seq<Login>) {
    forall k :: 0 <= k < |logins| ==> logins[k].at <= logins[k].setAt
  }

  /** A key is remembered until later than any login that could match its step. */
  predicate Guarded(keys: map<Used, int>, key: Used) {
    key in keys && STEP * (key.1 - DRIFT) + USED_FOR <= keys[key]
  }

  lemma {:induction false} AcceptingGuards(hash: Hash, keys: map<Used, int>, l: Login)
    requires l.at <= l.setAt && Consumed(hash, keys, l).1
    ensures Guarded(Consumed(hash, keys, l).0, (l.user, StepOf(hash, l).value))
  {
    MatchWindow(hash, l.secret.value, l.code, l.at, StepOf(hash, l).value);
  }

  lemma {:induction false} GuardStays(hash: Hash, keys: map<Used, int>, l: Login, key: Used)
    requires l.at <= l.setAt && Guarded(keys, key)
    ensures Guarded(Consumed(hash, keys, l).0, key)
  {
    if Consumed(hash, keys, l).1 {
      AcceptingGuards(hash, keys, l);
    }
  }

  lemma {:induction false} KeysOneMore(hash: Hash, logins: seq<Login>, n: nat)
    requires 0 < n <= |logins|
    ensures KeysAfter(hash, logins[..n]) == Consumed(hash, KeysAfter(hash, logins[..n - 1]), logins[n - 1]).0
  {
    assert logins[..n][..n - 1] == logins[..n - 1];
  }

  lemma {:induction false} KeyOutlivesStep(hash: Hash, logins: seq<Login>, j: nat, n: nat, key: Used)
    requires Causal(logins) && j < n <= |logins| && Guarded(KeysAfter(hash, logins[..j + 1]), key)
    ensures Guarded(KeysAfter(hash, logins[..n]), key)
  {
    if n > j + 1 {
      KeyOutlivesStep(hash, logins, j, n - 1, key);
      KeysOneMore(hash, logins, n);
      GuardStays(hash, KeysAfter(hash, logins[..n - 1]), logins[n - 1], key);
    }
  }

  /** No user has a time step accepted twice, in any run, although the keys expire. The
      second login must write its key within 30 seconds of its check; how long others
      take does not matter. */
  lemma {:induction false} StepUsedOnce(hash: Hash, logins: seq<Login>, j: nat, k: nat)
    requires Causal(logins) && j < k < |logins| && logins[k].setAt <= logins[k].at + 30
    requires Accepted(hash, logins, j) && Accepted(hash, logins, k)
    requires logins[j].user == logins[k].user
    ensures StepOf(hash, logins[j]) != StepOf(hash, logins[k])
  {
    KeysOneMore(hash, logins, j + 1);
    AcceptingGuards(hash, KeysAfter(hash, logins[..j]), logins[j]);
    KeyOutlivesStep(hash, logins, j, k, (logins[j].user, StepOf(hash, logins[j]).value));
    MatchWindow(hash, logins[k].secret.value, logins[k].code, logins[k].at, StepOf(hash, logins[k]).value);
  }

  // Exactly which runs accept a step twice.

  /** Keys are written in order. */
  predicate WrittenInOrder(logins: seq<Login>) {
    forall j, k :: 0 <= j < k < |logins| ==> logins[j].setAt <= logins[k].setAt
  }

  /** The code belongs to this user and step. */
  predicate Uses(hash: Hash, l: Login, key: Used) {
    l.user == key.0 && StepOf(hash, l) == Some(key.1)
  }

  predicate AcceptedFor(hash: Hash, logins: seq<Login>, k: nat, key: Used)
    requires k < |logins|
  {
    Uses(hash, logins[k], key) && Accepted(hash, logins, k)
  }

  /** A key, alive or expired, was written by an accepted login. */
  lemma {:induction false} KeyIsOf(hash: Hash, logins: seq<Login>, n: nat, key: Used) returns (i: nat)
    requires n <= |logins| && key in KeysAfter(hash, logins[..n])
    ensures i < n && AcceptedFor(hash, logins, i, key)
    ensures KeysAfter(hash, logins[..n])[key] == logins[i].setAt + USED_FOR
  {
    assert n > 0;
    KeysOneMore(hash, logins, n);
    if AcceptedFor(hash, logins, n - 1, key) {
      i := n - 1;
    } else {
      i := KeyIsOf(hash, logins, n - 1, key);
    }
  }

  lemma {:induction false} KeysNeverGo(hash: Hash, keys: map<Used, int>, l: Login, key: Used)
    requires key in keys
    ensures key in Consumed(hash, keys, l).0
  {
  }

  lemma {:induction false} AcceptedWritesKey(hash: Hash, logins: seq<Login>, j: nat, key: Used)
    requires j < |logins| && AcceptedFor(hash, logins, j, key)
    ensures key in KeysAfter(hash, logins[..j + 1])
  {
    KeysOneMore(hash, logins, j + 1);
  }

  lemma {:induction false} KeyRemainsOnce(hash: Hash, logins: seq<Login>, n: nat, key: Used)
    requires 0 < n <= |logins| && key in KeysAfter(hash, logins[..n - 1])
    ensures key in KeysAfter(hash, logins[..n])
  {
    KeysOneMore(hash, logins, n);
    KeysNeverGo(hash, KeysAfter(hash, logins[..n - 1]), logins[n - 1], key);
  }

  lemma {:induction false} KeyRemains(hash: Hash, logins: seq<Login>, m: nat, n: nat, key: Used)
    requires m <= n <= |logins| && key in KeysAfter(hash, logins[..m])
    ensures key in KeysAfter(hash, logins[..n])
  {
    if m < n {
      KeyRemains(hash, logins, m, n - 1, key);
      KeyRemainsOnce(hash, logins, n, key);
    }
  }

  /** An accepted login leaves a key for ever after. */
  lemma {:induction false} KeyStays(hash: Hash, logins: seq<Login>, j: nat, n: nat, key: Used)
    requires j < n <= |logins| && AcceptedFor(hash, logins, j, key)
    ensures key in KeysAfter(hash, logins[..n])
  {
    AcceptedWritesKey(hash, logins, j, key);
    KeyRemains(hash, logins, j + 1, n, key);
  }

  /** A login that used the step was accepted, or an earlier one was. */
  lemma {:induction false} SomeoneAccepted(hash: Hash, logins: seq<Login>, j: nat, key: Used) returns (i: nat)
    requires j < |logins| && Uses(hash, logins[j], key)
    ensures i <= j && AcceptedFor(hash, logins, i, key)
  {
    if Accepted(hash, logins, j) {
      i := j;
    } else {
      i := KeyIsOf(hash, logins, j, key);
    }
  }

  lemma {:induction false} TwiceNeedsExpiry(hash: Hash, logins: seq<Login>, j: nat, k: nat, key: Used) returns (i: nat)
    requires j < k < |logins| && AcceptedFor(hash, logins, j, key) && AcceptedFor(hash, logins, k, key)
    ensures i < k && Uses(hash, logins[i], key) && logins[i].setAt + USED_FOR <= logins[k].setAt
  {
    KeyStays(hash, logins, j, k, key);
    i := KeyIsOf(hash, logins, k, key);
  }

  lemma {:induction false} ExpiryGivesTwice(hash: Hash, logins: seq<Login>, j: nat, k: nat, key: Used)
    returns (a: nat, b: nat)
    requires WrittenInOrder(logins) && j < k < |logins|
    requires Uses(hash, logins[j], key) && Uses(hash, logins[k], key)
    requires logins[j].setAt + USED_FOR <= logins[k].setAt
    ensures a < b < |logins| && AcceptedFor(hash, logins, a, key) && AcceptedFor(hash, logins, b, key)
  {
    var first := SomeoneAccepted(hash, logins, j, key);
    KeyStays(hash, logins, first, k, key);
    var i := KeyIsOf(hash, logins, k, key);
    if first < i {
      a, b := first, i;
    } else if i < first {
      a, b := i, first;
    } else {
      a, b := first, k;
    }
  }

  /** A user has a step accepted twice exactly if two of the logins that use it write
      their keys at least 120 seconds apart. */
  lemma {:induction false} TwiceExactlyWhenKeyIsGone(hash: Hash, logins: seq<Login>, key: Used)
    requires WrittenInOrder(logins)
    ensures (exists j, k :: 0 <= j < k < |logins|
                            && AcceptedFor(hash, logins, j, key) && AcceptedFor(hash, logins, k, key))
       <==> (exists j, k :: 0 <= j < k < |logins| && Uses(hash, logins[j], key) && Uses(hash, logins[k], key)
                            && logins[j].setAt + USED_FOR <= logins[k].setAt)
  {
    if j, k :| 0 <= j < k < |logins| && AcceptedFor(hash, logins, j, key) && AcceptedFor(hash, logins, k, key) {
      var i := TwiceNeedsExpiry(hash, logins, j, k, key);
    }
    if j, k :| 0 <= j < k < |logins| && Uses(hash, logins[j], key) && Uses(hash, logins[k], key)
               && logins[j].setAt + USED_FOR <= logins[k].setAt {
      var a, b := ExpiryGivesTwice(hash, logins, j, k, key);
    }
  }

  // 30 seconds is the most a key may take.

  /** A digest whose code is this small number. */
  function SmallDigest(b: bv8): (d: Digest) {
    [0, 0, 0, b, 0, 0, 0, 0, 0, 0, 0, 0, 0, 0, 0, 0, 0, 0, 0, 0]
  }

  /** A keyed hash that gives one step a code of its own. */
  function OneStep(step: int): Hash {
    (secret: string, counter: int) => OwnDigest(step, counter)
  }

  function OwnDigest(step: int, counter: int): Digest {
    if counter == step then SmallDigest(1) else SmallDigest(0)
  }

  lemma {:induction false} SmallValue(b: bv8)
    ensures Truncated(SmallDigest(b)) == b as nat
  {
    var d := SmallDigest(b);
    assert d[19] & 0x0F == 0 && d[0] & 0x7F == 0;
    assert Offset(d) == 0 && WithoutSign(d[0]) == 0 && Byte(d[1]) == 0 && Byte(d[2]) == 0;
  }

  lemma {:induction false} CodeOf(secret: string, step: int, other: int)
    ensures CodeAt(OneStep(step), secret, other) == Pad(if other == step then 1 else 0, DIGITS)
  {
    SmallValue(if other == step then 1 else 0);
  }

  lemma {:induction false} PadInjective(a: nat, b: nat, width: nat)
    requires a != b
    ensures Pad(a, width) != Pad(b, width)
  {
    ValPad(a, width);
    ValPad(b, width);
  }

  lemma {:induction false} OwnCode(secret: string, step: int, other: int)
    requires other != step
    ensures CodeAt(OneStep(step), secret, other) != CodeAt(OneStep(step), secret, step)
  {
    CodeOf(secret, step, other);
    CodeOf(secret, step, step);
    var zero, one := 0, 1;
    PadInjective(zero, one, DIGITS);
  }

  lemma {:induction false} MatchesOwnStep(secret: string, step: int, at: int)
    requires StepAt(at) - DRIFT <= step <= StepAt(at) + DRIFT
    ensures MatchingStep(OneStep(step), secret, CodeAt(OneStep(step), secret, step), at) == Some(step)
  {
    var hash, code := OneStep(step), CodeAt(OneStep(step), secret, step);
    NearbyCodesMatch(hash, secret, step, at);
    CodeIsClean(hash, secret, step);
    var found := MatchingStep(hash, secret, code, at).value;
    if found != step {
      OwnCode(secret, step, found);
    }
  }

  /** Whatever the codes: a second login to the step whose key is written when the
      first key is gone is accepted. */
  lemma {:induction false} BothAccepted(hash: Hash, first: Login, second: Login)
    requires StepOf(hash, first).Some? && StepOf(hash, second) == StepOf(hash, first)
    requires first.user == second.user && first.setAt + USED_FOR <= second.setAt
    ensures Accepted(hash, [first, second], 0) && Accepted(hash, [first, second], 1)
  {
    var logins := [first, second];
    assert logins[..0] == [] && logins[..1] == [first];
    KeysOneMore(hash, logins, 1);
  }

  /** A second login at the end of its step's 90 seconds that takes 31 to write its
      key finds the first key gone: the step is accepted twice. */
  lemma {:induction false} LateKeyLetsStepThrough(
      secret: string, step: int, user: int, code: string, first: Login, second: Login)
    requires secret != "" && code == CodeAt(OneStep(step), secret, step)
    requires first == Login(user, Some(secret), code, STEP * (step - DRIFT), STEP * (step - DRIFT))
    requires second == Login(user, Some(secret), code, first.at + 89, first.at + 89 + 31)
    ensures Causal([first, second])
    ensures Accepted(OneStep(step), [first, second], 0) && Accepted(OneStep(step), [first, second], 1)
    ensures StepOf(OneStep(step), first) == StepOf(OneStep(step), second) == Some(step)
  {
    MatchesOwnStep(secret, step, first.at);
    MatchesOwnStep(secret, step, second.at);
    BothAccepted(OneStep(step), first, second);
  }
}
