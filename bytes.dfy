/**
 * Go strings are byte strings: every index and length the checker uses is a
 * byte offset.  A `Text` is such a string, each byte held in a `char` below
 * 256 so that ASCII literals can be written as ordinary string literals.
 * This module holds the models of the few `strings` and `strconv` library
 * functions the checker calls.
 */
module Bytes {

  type Byte = c: char | c as int < 256
  type Text = seq<Byte>

  /** strings.HasPrefix */
  predicate HasPrefix(s: Text, p: Text) {
    |p| <= |s| && s[..|p|] == p
  }

  /** strings.HasSuffix */
  predicate HasSuffix(s: Text, p: Text) {
    |p| <= |s| && s[|s| - |p|..] == p
  }

  /** `p` occurs in `s` starting at byte offset `i`. */
  predicate OccursAt(s: Text, p: Text, i: int) {
    0 <= i && i + |p| <= |s| && s[i..i + |p|] == p
  }

  /** `i` is the first offset at which `p` occurs in `s`. */
  predicate FirstOccurrence(s: Text, p: Text, i: int) {
    OccursAt(s, p, i) && forall j | 0 <= j < i :: !OccursAt(s, p, j)
  }

  /** strings.Index searching from offset `k` on: the first occurrence at or after `k`, or -1. */
  function IndexFrom(s: Text, p: Text, k: nat): (r: int)
    ensures r == -1 || (k <= r && r + |p| <= |s|)
    decreases |s| + 1 - k
  {
    if k + |p| > |s| then -1
    else if s[k..k + |p|] == p then k
    else IndexFrom(s, p, k + 1)
  }

  /** strings.Index: the first offset of `p` in `s`, or -1 when `p` does not occur. */
  function Index(s: Text, p: Text): (r: int)
    ensures r == -1 || (0 <= r && r + |p| <= |s|)
  {
    IndexFrom(s, p, 0)
  }

  /** strings.Contains, which Go defines as Index(s, substr) >= 0. */
  predicate Contains(s: Text, p: Text) {
    Index(s, p) >= 0
  }

  lemma {:induction false} IndexFromFinds(s: Text, p: Text, k: nat)
    ensures var r := IndexFrom(s, p, k);
            (r == -1 || (k <= r && OccursAt(s, p, r)))
            && (r == -1 ==> forall j | k <= j :: !OccursAt(s, p, j))
            && (r != -1 ==> forall j | k <= j < r :: !OccursAt(s, p, j))
    decreases |s| + 1 - k
  {
    if k + |p| <= |s| && s[k..k + |p|] != p {
      IndexFromFinds(s, p, k + 1);
    }
  }

  /** Index returns the first occurrence, and -1 exactly when there is none. */
  lemma IndexFindsFirst(s: Text, p: Text)
    ensures Index(s, p) == -1 <==> forall i :: !OccursAt(s, p, i)
    ensures Index(s, p) != -1 ==> FirstOccurrence(s, p, Index(s, p))
  {
    IndexFromFinds(s, p, 0);
  }

  /** Contains holds exactly when `p` occurs somewhere in `s`. */
  lemma ContainsIffOccurs(s: Text, p: Text)
    ensures Contains(s, p) <==> exists i :: OccursAt(s, p, i)
  {
    IndexFindsFirst(s, p);
  }

  /** The first occurrence is unique. */
  lemma FirstOccurrenceUnique(s: Text, p: Text, i: int, j: int)
    requires FirstOccurrence(s, p, i) && FirstOccurrence(s, p, j)
    ensures i == j
  {
  }

  /** strings.Count for a one-byte separator. */
  function Count(s: Text, c: Byte): nat {
    if s == [] then 0
    else (if s[0] == c then 1 else 0) + Count(s[1..], c)
  }

  lemma {:induction false} CountIsMultiplicity(s: Text, c: Byte)
    ensures Count(s, c) == multiset(s)[c]
  {
    if s != [] {
      CountIsMultiplicity(s[1..], c);
      assert s == [s[0]] + s[1..];
    }
  }

  lemma CountZero(s: Text, c: Byte)
    ensures Count(s, c) == 0 <==> c !in s
  {
    CountIsMultiplicity(s, c);
  }

  lemma CountAppend(s: Text, t: Text, c: Byte)
    ensures Count(s + t, c) == Count(s, c) + Count(t, c)
  {
    CountIsMultiplicity(s + t, c);
    CountIsMultiplicity(s, c);
    CountIsMultiplicity(t, c);
  }

  /** No byte of `s` is in `bad`. */
  predicate Avoids(s: Text, bad: set<Byte>) {
    forall i | 0 <= i < |s| :: s[i] !in bad
  }

  /** A text whose bytes avoid the first byte of `p` does not contain `p`. */
  lemma AvoidsFirstByte(s: Text, p: Text)
    requires |p| > 0 && Avoids(s, {p[0]})
    ensures !Contains(s, p)
  {
    forall i | 0 <= i <= |s| - |p|
      ensures !OccursAt(s, p, i)
    {
      assert s[i..i + |p|][0] == s[i];
    }
    IndexFindsFirst(s, p);
  }

  predicate IsDigit(c: Byte) {
    '0' <= c <= '9'
  }

  function DigitOf(n: nat): (c: Byte)
    requires n < 10
    ensures IsDigit(c)
  {
    ('0' as int + n) as char
  }

  function ValueOf(c: Byte): (n: nat)
    requires IsDigit(c)
    ensures n < 10
  {
    c as int - '0' as int
  }

  lemma DigitValue(n: nat)
    requires n < 10
    ensures ValueOf(DigitOf(n)) == n
  {
  }

  predicate AllDigits(s: Text) {
    forall i | 0 <= i < |s| :: IsDigit(s[i])
  }

  /** strconv.Itoa for a non-negative value: its decimal digits, most significant first. */
  function Itoa(n: nat): (s: Text)
    ensures |s| > 0 && AllDigits(s)
    ensures n < 10 <==> |s| == 1
    ensures s[0] == '0' ==> n == 0
  {
    if n < 10 then [DigitOf(n)] else Itoa(n / 10) + [DigitOf(n % 10)]
  }

  /** The value of a string of decimal digits. */
  function Atoi(s: Text): nat
    requires AllDigits(s)
  {
    if s == [] then 0 else 10 * Atoi(s[..|s| - 1]) + ValueOf(s[|s| - 1])
  }

  /** Reading back the decimal digits of `n` gives `n`. */
  lemma {:induction false} AtoiItoa(n: nat)
    ensures Atoi(Itoa(n)) == n
  {
    var s := Itoa(n);
    if n < 10 {
      DigitValue(n);
    } else {
      AtoiItoa(n / 10);
      assert s[..|s| - 1] == Itoa(n / 10);
      DigitValue(n % 10);
    }
  }

  lemma ItoaInjective(m: nat, n: nat)
    requires Itoa(m) == Itoa(n)
    ensures m == n
  {
    AtoiItoa(m);
    AtoiItoa(n);
  }

  function Pow10(n: nat): (p: nat)
    ensures p >= 1
  {
    if n == 0 then 1 else 10 * Pow10(n - 1)
  }

  /** The last `width` decimal digits of `n`, with leading zeros (fmt's "%0*d"). */
  function Digits(n: nat, width: nat): (s: Text)
    ensures |s| == width && AllDigits(s)
  {
    if width == 0 then [] else Digits(n / 10, width - 1) + [DigitOf(n % 10)]
  }

  /** Reading back `width` zero-padded digits of a value that fits gives the value. */
  lemma {:induction false} AtoiDigits(n: nat, width: nat)
    requires n < Pow10(width)
    ensures Atoi(Digits(n, width)) == n
  {
    if width > 0 {
      var s := Digits(n, width);
      assert s[..|s| - 1] == Digits(n / 10, width - 1);
      AtoiDigits(n / 10, width - 1);
      DigitValue(n % 10);
    }
  }

  /** A string of digits is the zero-padded printing of its own value. */
  lemma {:induction false} DigitsAtoi(s: Text)
    requires AllDigits(s)
    ensures Atoi(s) < Pow10(|s|)
    ensures Digits(Atoi(s), |s|) == s
  {
    if s != [] {
      var init := s[..|s| - 1];
      var last := s[|s| - 1];
      DigitsAtoi(init);
      var n := Atoi(s);
      assert n / 10 == Atoi(init) && n % 10 == ValueOf(last);
      assert DigitOf(ValueOf(last)) == last;
      assert s == init + [last];
    }
  }
}
