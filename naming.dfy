/**
 * Parameter names for generated function signatures: `toB26` turns the
 * 1-based position of a parameter into a lower-case letter name.
 *
 * The source's loop takes the remainder modulo 26 as the letter and keeps
 * the quotient truncated to a 32-bit integer. A remainder of 0 looks up the
 * letter before 'a', which JavaScript reads as `undefined` and concatenates as
 * the text "undefined". `B26Text` models that loop as written, `ToB26` is the
 * loop itself, and `BijectiveB26` is the bijective base-26 naming the loop was
 * evidently meant to compute (a..z, aa, ab, ...).
 */
module Naming {

  const Alphabet := "abcdefghijklmnopqrstuvwxyz"

  const TwoTo32: int := 0x1_0000_0000
  const TwoTo31: int := 0x8000_0000

  /** JavaScript's `n | 0` on an integer: the value wrapped into a signed 32-bit integer. */
  function ToInt32(n: int): (r: int)
    ensures -TwoTo31 <= r < TwoTo31
    ensures (r - n) % TwoTo32 == 0
    ensures 0 <= n < TwoTo31 ==> r == n
  {
    var w := n % TwoTo32;
    if w >= TwoTo31 then w - TwoTo32 else w
  }

  /** The text one remainder contributes: a letter for 1..25, and for 0 the
      text of the `undefined` read before the start of the alphabet. */
  function DigitText(d: int): (r: string)
    requires 0 <= d < 26
    ensures |r| == if d == 0 then 9 else 1
  {
    if d == 0 then "undefined" else [Alphabet[d - 1]]
  }

  /** A nonzero remainder gives its letter, a zero one the nine letters of
      "undefined"; either way only lower-case letters. */
  lemma DigitTextLetters(d: int)
    requires 0 <= d < 26
    ensures AllLower(DigitText(d))
    ensures d == 0 ==> DigitText(d) == "undefined"
    ensures d != 0 ==> DigitText(d) == [Letter(d - 1)]
  {
    if d != 0 {
      AlphabetLetter(d - 1);
    }
  }

  /** The name the source's loop computes for `x`, as written. */
  function B26Text(x: int): (r: string)
    ensures |r| == 0 <==> x <= 0
    decreases if x > 0 then x else 0
  {
    if x <= 0 then ""
    else
      QuotientShrinks(x);
      B26Text(ToInt32(x / 26)) + DigitText(x % 26)
  }

  /** One round of the loop: the name of `x` is the name of its truncated
      quotient followed by the text of its remainder. */
  lemma B26TextUnfold(x: int)
    requires x > 0
    ensures ToInt32(x / 26) < x
    ensures B26Text(x) == B26Text(ToInt32(x / 26)) + DigitText(x % 26)
  {
    QuotientShrinks(x);
  }

  lemma LoopStep(x: int, r: string)
    requires x > 0
    ensures ToInt32(x / 26) < x
    ensures B26Text(x) + r == B26Text(ToInt32(x / 26)) + (DigitText(x % 26) + r)
  {
    B26TextUnfold(x);
  }

  lemma QuotientShrinks(x: int)
    requires x > 0
    ensures ToInt32(x / 26) < x
  {
    var q := x / 26;
    if q % TwoTo32 < TwoTo31 {
      assert q % TwoTo32 <= q;
    }
  }

  /** The source's loop: prepend the text of the remainder, keep the truncated quotient. */
  method ToB26(x0: int) returns (r: string)
    ensures r == B26Text(x0)
  {
    var x := x0;
    r := "";
    while x > 0
      invariant B26Text(x0) == B26Text(x) + r
      decreases if x > 0 then x else 0
    {
      var q, d := ToInt32(x / 26), x % 26;
      LoopStep(x, r);
      r := DigitText(d) + r;
      x := q;
    }
  }

  /** A base-26 digit. */
  type Digit = d: int | 0 <= d < 26

  /** The base-26 digits of `x`, most significant first. */
  function Digits(x: nat): (ds: seq<Digit>)
    ensures x > 0 ==> |ds| > 0 && ds[0] != 0
  {
    if x == 0 then [] else Digits(x / 26) + [x % 26]
  }

  /** The texts of a sequence of digits, concatenated in order. */
  function DigitsText(ds: seq<Digit>): string
  {
    if ds == [] then "" else DigitsText(ds[..|ds| - 1]) + DigitText(ds[|ds| - 1])
  }

  /** One round of the loop, for a positive `x` below 2^31: the quotient needs no wrapping. */
  lemma B26TextStep(x: int)
    requires 0 < x < TwoTo31
    ensures 0 <= x / 26 < x
    ensures B26Text(x) == B26Text(x / 26) + DigitText(x % 26)
  {
    assert ToInt32(x / 26) == x / 26;
  }

  lemma DigitsStep(x: nat)
    requires x > 0
    ensures Digits(x) == Digits(x / 26) + [x % 26]
  {
  }

  /** Below 2^31 the truncation never wraps, and the name is the text of each
      base-26 digit in turn. */
  lemma {:induction false} B26TextIsDigitsText(x: int)
    requires 0 <= x < TwoTo31
    ensures B26Text(x) == DigitsText(Digits(x))
  {
    if x > 0 {
      B26TextStep(x);
      DigitsStep(x);
      B26TextIsDigitsText(x / 26);
      var ds := Digits(x);
      assert ds[..|ds| - 1] == Digits(x / 26);
    }
  }

  lemma {:induction false} DigitsTextLength(ds: seq<Digit>)
    ensures |DigitsText(ds)| >= |ds|
    ensures |DigitsText(ds)| == |ds| <==> 0 !in ds
  {
    if ds != [] {
      var init := ds[..|ds| - 1];
      DigitsTextLength(init);
      assert ds == init + [ds[|ds| - 1]];
      assert 0 in ds <==> 0 in init || ds[|ds| - 1] == 0;
    }
  }

  /** The name has one letter per digit exactly when no digit is 0; a zero
      digit lengthens it by the eight extra characters of "undefined". */
  lemma OneLetterPerDigitOnlyWithoutZero(x: int)
    requires 0 <= x < TwoTo31
    ensures |B26Text(x)| == |Digits(x)| <==> 0 !in Digits(x)
  {
    B26TextIsDigitsText(x);
    DigitsTextLength(Digits(x));
  }

  lemma DigitTextHasNoZ(d: int)
    requires 0 <= d < 26
    ensures 'z' !in DigitText(d)
  {
    if d != 0 {
      AlphabetLetter(d - 1);
    }
  }

  /** From 26 * 2^31 on, the truncated quotient can wrap negative and end the
      loop early: 26 * 2^31 + 1 is named "a", like 1. */
  lemma QuotientWrapEndsLoop()
    ensures B26Text(26 * TwoTo31 + 1) == "a" == B26Text(1)
  {
    var x := 26 * TwoTo31 + 1;
    assert x / 26 == TwoTo31 && x % 26 == 1;
    assert ToInt32(x / 26) == -TwoTo31;
    B26TextUnfold(x);
    SingleLetter(1);
  }

  /** The letter 'z' never appears in a name the source computes. */
  lemma {:induction false} NoZInB26Text(x: int)
    ensures 'z' !in B26Text(x)
    decreases if x > 0 then x else 0
  {
    if x > 0 {
      var q, d := ToInt32(x / 26), x % 26;
      QuotientShrinks(x);
      NoZInB26Text(q);
      DigitTextHasNoZ(d);
      assert B26Text(x) == B26Text(q) + DigitText(d);
    }
  }

  /** Every name the source computes is made of lower-case letters, the
      "undefined" of a zero digit included. */
  lemma {:induction false} B26TextIsLower(x: int)
    ensures AllLower(B26Text(x))
    decreases if x > 0 then x else 0
  {
    if x > 0 {
      var q, d := ToInt32(x / 26), x % 26;
      QuotientShrinks(x);
      B26TextIsLower(q);
      DigitTextLetters(d);
      assert B26Text(x) == B26Text(q) + DigitText(d);
    }
  }

  /** The first 25 positions are named by a single letter, in alphabet order. */
  lemma SingleLetter(x: int)
    requires 1 <= x <= 25
    ensures B26Text(x) == [Alphabet[x - 1]]
  {
    assert ToInt32(x / 26) == 0;
  }

  /** The 26th parameter: the source names it "aundefined", not "z". */
  lemma TwentySixthName()
    ensures B26Text(26) == "aundefined"
    ensures BijectiveB26(26) == "z"
  {
    B26TextStep(26);
    B26TextStep(1);
    assert B26Text(26) == "a" + "undefined";
    BijectiveSingleLetter(26);
  }

  // ---------------------------------------------------------------------
  // The intended naming: bijective base 26
  // ---------------------------------------------------------------------

  predicate IsLower(c: char) {
    'a' <= c <= 'z'
  }

  predicate AllLower(w: string) {
    forall i :: 0 <= i < |w| ==> IsLower(w[i])
  }

  /** Bijective base 26: 1..26 are a..z, 27 is "aa", 28 is "ab", and so on. */
  function BijectiveB26(n: nat): (w: string)
    ensures AllLower(w)
    ensures |w| == 0 <==> n == 0
  {
    if n == 0 then ""
    else
      BijectiveB26((n - 1) / 26) + [Letter((n - 1) % 26)]
  }

  /** The number a lower-case name stands for in bijective base 26. */
  function FromB26(w: string): nat
    requires AllLower(w)
  {
    if w == [] then 0
    else FromB26(w[..|w| - 1]) * 26 + (w[|w| - 1] as int - 'a' as int + 1)
  }

  /** The letter at position `k` of the alphabet, counting from 0. */
  function Letter(k: int): (c: char)
    requires 0 <= k < 26
    ensures IsLower(c)
  {
    ('a' as int + k) as char
  }

  /** The alphabet constant lists the letters in order. */
  lemma AlphabetLetter(k: int)
    requires 0 <= k < 26
    ensures Alphabet[k] == Letter(k)
  {
    assert Alphabet == seq(26, i requires 0 <= i < 26 => Letter(i));
  }

  lemma BijectiveUnfold(n: nat)
    requires n > 0
    ensures BijectiveB26(n) == BijectiveB26((n - 1) / 26) + [Letter((n - 1) % 26)]
  {
  }

  lemma FromB26Unfold(w: string)
    requires AllLower(w) && w != []
    ensures AllLower(w[..|w| - 1])
    ensures FromB26(w) == FromB26(w[..|w| - 1]) * 26 + (w[|w| - 1] as int - 'a' as int) + 1
  {
  }

  /** Decoding a computed name gives back the position. */
  lemma {:induction false} FromB26OfBijective(n: nat)
    ensures FromB26(BijectiveB26(n)) == n
  {
    if n > 0 {
      var q, k := (n - 1) / 26, (n - 1) % 26;
      FromB26OfBijective(q);
      BijectiveUnfold(n);
      var w := BijectiveB26(n);
      assert w[..|w| - 1] == BijectiveB26(q);
      FromB26Unfold(w);
    }
  }

  /** Naming the number a lower-case name stands for gives back the name. */
  lemma {:induction false} BijectiveOfFromB26(w: string)
    requires AllLower(w)
    ensures BijectiveB26(FromB26(w)) == w
  {
    if w != [] {
      var init, c := w[..|w| - 1], w[|w| - 1];
      FromB26Unfold(w);
      BijectiveOfFromB26(init);
      var q, k := FromB26(init), c as int - 'a' as int;
      assert Letter(k) == c;
      var n := FromB26(w);
      assert n - 1 == q * 26 + k;
      DivModOf(q, k);
      BijectiveUnfold(n);
      assert w == init + [c];
    }
  }

  lemma DivModOf(q: nat, k: int)
    requires 0 <= k < 26
    ensures (q * 26 + k) / 26 == q && (q * 26 + k) % 26 == k
  {
  }

  /** The first 26 positions are named by a single letter each. */
  lemma BijectiveSingleLetter(x: int)
    requires 1 <= x <= 26
    ensures BijectiveB26(x) == [Letter(x - 1)]
  {
    assert (x - 1) / 26 == 0 && (x - 1) % 26 == x - 1;
    assert BijectiveB26(0) == "";
  }

  /** Distinct positions get distinct names, so parameter names never clash. */
  lemma BijectiveInjective(m: nat, n: nat)
    requires BijectiveB26(m) == BijectiveB26(n)
    ensures m == n
  {
    FromB26OfBijective(m);
    FromB26OfBijective(n);
  }

  /** Where no base-26 digit is 0, the source's loop computes the intended name. */
  lemma {:induction false} AsWrittenAgreesWithoutZeroDigit(x: int)
    requires 0 <= x < TwoTo31
    requires 0 !in Digits(x)
    ensures B26Text(x) == BijectiveB26(x)
  {
    if x > 0 {
      var q, d := x / 26, x % 26;
      B26TextStep(x);
      NoZeroDigitInQuotient(x);
      NoZeroDigitShift(x);
      DigitTextLetters(d);
      AsWrittenAgreesWithoutZeroDigit(q);
      BijectiveUnfold(x);
      assert B26Text(x) == BijectiveB26(q) + [Letter(d - 1)];
    }
  }

  lemma NoZeroDigitInQuotient(x: nat)
    requires x > 0 && 0 !in Digits(x)
    ensures 0 !in Digits(x / 26) && x % 26 != 0
  {
    DigitsStep(x);
    var ds := Digits(x);
    assert ds == Digits(x / 26) + [x % 26];
    assert x % 26 in ds;
    forall i | 0 <= i < |Digits(x / 26)|
      ensures Digits(x / 26)[i] != 0
    {
      assert Digits(x / 26)[i] == ds[i];
    }
  }

  lemma NoZeroDigitShift(x: int)
    requires x > 0 && x % 26 != 0
    ensures (x - 1) / 26 == x / 26
    ensures (x - 1) % 26 == x % 26 - 1
  {
  }

  lemma {:induction false} DigitsLengthMonotone(a: nat, b: nat)
    requires a <= b
    ensures |Digits(a)| <= |Digits(b)|
  {
    if a > 0 {
      DigitsLengthMonotone(a / 26, b / 26);
    }
  }

  /** The intended name is never longer than the plain base-26 digit string. */
  lemma {:induction false} BijectiveNoLongerThanDigits(n: nat)
    ensures |BijectiveB26(n)| <= |Digits(n)|
  {
    if n > 0 {
      BijectiveNoLongerThanDigits((n - 1) / 26);
      DigitsLengthMonotone((n - 1) / 26, n / 26);
    }
  }

  /** The source's loop computes the intended name exactly when no base-26
      digit is 0; a zero digit makes the name longer than intended. */
  lemma AsWrittenCorrectIffNoZeroDigit(x: int)
    requires 0 <= x < TwoTo31
    ensures B26Text(x) == BijectiveB26(x) <==> 0 !in Digits(x)
  {
    if 0 in Digits(x) {
      B26TextIsDigitsText(x);
      DigitsTextLength(Digits(x));
      BijectiveNoLongerThanDigits(x);
    } else {
      AsWrittenAgreesWithoutZeroDigit(x);
    }
  }

  // ---------------------------------------------------------------------
  // The names as written are still distinct below 2^31
  // ---------------------------------------------------------------------

  /** The digit texts read from the front: the first digit's text, then the rest. */
  lemma {:induction false} DigitsTextFront(ds: seq<Digit>)
    requires ds != []
    ensures DigitsText(ds) == DigitText(ds[0]) + DigitsText(ds[1..])
  {
    if |ds| > 1 {
      var init, rest := ds[..|ds| - 1], ds[1..];
      DigitsTextFront(init);
      assert init[1..] == rest[..|rest| - 1];
      var a, m, l := DigitText(ds[0]), DigitsText(init[1..]), DigitText(ds[|ds| - 1]);
      assert DigitsText(rest) == m + l;
      assert DigitsText(ds) == (a + m) + l;
      assert (a + m) + l == a + (m + l);
    } else {
      assert ds[..|ds| - 1] == [] && ds[1..] == [];
    }
  }

  /** The text of a nonempty digit sequence starts with 'u' for a leading 0,
      and with the digit's letter otherwise. */
  lemma FirstCharacter(ds: seq<Digit>)
    requires ds != []
    ensures DigitsText(ds) != []
    ensures DigitsText(ds)[0] == if ds[0] == 0 then 'u' else Letter(ds[0] - 1)
  {
    DigitsTextFront(ds);
    DigitTextLetters(ds[0]);
    var a := DigitText(ds[0]);
    assert a[0] == if ds[0] == 0 then 'u' else Letter(ds[0] - 1);
    assert DigitsText(ds)[0] == a[0];
  }

  lemma OnlyFirstIsU(j: int)
    requires 1 <= j < 9
    ensures "undefined"[j] != 'u'
  {
  }

  /** Text that starts with the tail of "undefined" after its first `j` letters
      needs one nonzero digit per letter of that tail: a zero digit would
      begin with 'u', which the tail does not hold. */
  lemma {:induction false} SpellsUndefinedTail(ds: seq<Digit>, j: nat)
    requires 1 <= j <= 9
    requires "undefined"[j..] <= DigitsText(ds)
    ensures |ds| >= 9 - j
    decreases 9 - j
  {
    if j < 9 {
      if ds == [] {
        assert false;
      }
      OnlyFirstIsU(j);
      FirstCharacter(ds);
      if ds[0] == 0 {
        assert false;
      }
      DigitsTextFront(ds);
      var t := DigitsText(ds);
      assert DigitsText(ds[1..]) == t[1..];
      SpellsUndefinedTail(ds[1..], j + 1);
    }
  }

  /** Two digit sequences of at most eight digits with the same text start
      with the same digit, and the texts of their remaining digits agree. */
  lemma SameFirstDigit(ds: seq<Digit>, es: seq<Digit>)
    requires ds != []
    requires es != []
    requires |ds| <= 8 && |es| <= 8
    requires DigitsText(ds) == DigitsText(es)
    ensures ds[0] == es[0]
    ensures DigitsText(ds[1..]) == DigitsText(es[1..])
  {
    var t := DigitsText(ds);
    DigitsTextFront(ds);
    DigitsTextFront(es);
    if ds[0] == 0 && es[0] == 0 {
      assert DigitsText(ds[1..]) == t[9..] == DigitsText(es[1..]);
    } else if ds[0] != 0 && es[0] != 0 {
      AlphabetLetter(ds[0] - 1);
      AlphabetLetter(es[0] - 1);
      assert t[0] == Letter(ds[0] - 1) == Letter(es[0] - 1);
      assert DigitsText(ds[1..]) == t[1..] == DigitsText(es[1..]);
    } else if ds[0] == 0 {
      assert DigitsText(es[1..]) == t[1..];
      SpellsUndefinedTail(es[1..], 1);
      assert false;
    } else {
      assert DigitsText(ds[1..]) == t[1..];
      SpellsUndefinedTail(ds[1..], 1);
      assert false;
    }
  }

  lemma SameHeadSameTail(ds: seq<Digit>, es: seq<Digit>)
    requires ds != [] && es != [] && ds[0] == es[0] && ds[1..] == es[1..]
    ensures ds == es
  {
    assert ds == [ds[0]] + ds[1..] && es == [es[0]] + es[1..];
  }

  /** Digit sequences of at most eight digits with the same text are equal. */
  lemma {:induction false} DigitsTextInjective(ds: seq<Digit>, es: seq<Digit>)
    requires |ds| <= 8 && |es| <= 8
    requires DigitsText(ds) == DigitsText(es)
    ensures ds == es
    decreases |ds|
  {
    DigitsTextLength(ds);
    DigitsTextLength(es);
    if ds != [] && es != [] {
      SameFirstDigit(ds, es);
      DigitsTextInjective(ds[1..], es[1..]);
      SameHeadSameTail(ds, es);
    }
  }

  lemma {:induction false} DigitsInjective(x: nat, y: nat)
    requires Digits(x) == Digits(y)
    ensures x == y
  {
    if x > 0 && y > 0 {
      DigitsStep(x);
      DigitsStep(y);
      var ds := Digits(x);
      assert Digits(x / 26) == ds[..|ds| - 1] == Digits(y / 26);
      DigitsInjective(x / 26, y / 26);
    }
  }

  function Pow26(n: nat): nat {
    if n == 0 then 1 else 26 * Pow26(n - 1)
  }

  lemma {:induction false} DigitsBelowPow26(x: nat, n: nat)
    requires x < Pow26(n)
    ensures |Digits(x)| <= n
  {
    if x > 0 {
      assert n > 0;
      assert x / 26 < Pow26(n - 1);
      DigitsBelowPow26(x / 26, n - 1);
    }
  }

  /** A number below 2^31 has at most seven base-26 digits. */
  lemma AtMostSevenDigits(x: nat)
    requires x < TwoTo31
    ensures |Digits(x)| <= 7
  {
    assert Pow26(7) == 8031810176;
    DigitsBelowPow26(x, 7);
  }

  /** Below 2^31 the source's loop never gives two positions the same name,
      although a zero digit writes "undefined": that word needs nine letters,
      and no such number has more than seven digits. */
  lemma B26TextInjective(x: int, y: int)
    requires 0 <= x < TwoTo31 && 0 <= y < TwoTo31
    requires B26Text(x) == B26Text(y)
    ensures x == y
  {
    B26TextIsDigitsText(x);
    B26TextIsDigitsText(y);
    AtMostSevenDigits(x);
    AtMostSevenDigits(y);
    DigitsTextInjective(Digits(x), Digits(y));
    DigitsInjective(x, y);
  }
}
