/** The few Python string builtins the core relies on: `str()` of an integer, `int()` of a
    word produced by the pattern lexer, and the code-point ordering of `str` values. */
module Text {

  predicate IsDigit(c: char) {
    '0' <= c <= '9'
  }

  predicate AllDigits(s: string) {
    forall i :: 0 <= i < |s| ==> IsDigit(s[i])
  }

  function DigitChar(d: nat): (c: char)
    requires d < 10
    ensures IsDigit(c) && (c as int) - ('0' as int) == d
  {
    (('0' as int) + d) as char
  }

  function DigitOf(c: char): (d: nat)
    requires IsDigit(c)
    ensures d < 10 && DigitChar(d) == c
  {
    (c as int) - ('0' as int)
  }

  /** Python's `str(n)` for a non-negative integer: its decimal digits, no leading zeros. */
  function NatToString(n: nat): (s: string)
    decreases n
    ensures |s| > 0 && AllDigits(s)
    ensures n < 10 <==> |s| == 1
  {
    if n < 10 then [DigitChar(n)] else NatToString(n / 10) + [DigitChar(n % 10)]
  }

  /** Python's `str(i)` for any integer. */
  function IntToString(i: int): string {
    if i < 0 then "-" + NatToString(-i) else NatToString(i)
  }

  // ---------------------------------------------------------------------------
  // int() of a lexer word

  /** The lexer's WORD class: letters, digits, `_`, `#` and `*`. */
  predicate IsWordChar(c: char) {
    ('a' <= c <= 'z') || ('A' <= c <= 'Z') || IsDigit(c) || c == '_' || c == '#' || c == '*'
  }

  predicate IsWord(w: string) {
    |w| > 0 && forall i :: 0 <= i < |w| ==> IsWordChar(w[i])
  }

  /** Python's `int(w)` succeeds on a word exactly when the word is a run of decimal digit groups
      separated by single underscores (leading zeros are accepted). */
  predicate IsIntWord(w: string) {
    && |w| > 0
    && IsDigit(w[0])
    && IsDigit(w[|w| - 1])
    && (forall i :: 0 <= i < |w| ==> IsDigit(w[i]) || w[i] == '_')
    && (forall i :: 0 <= i < |w| - 1 ==> !(w[i] == '_' && w[i + 1] == '_'))
  }

  /** The value `int(w)` computes: the digits read in base ten, underscores skipped. */
  function WordValue(w: string): nat
    requires forall i :: 0 <= i < |w| ==> IsDigit(w[i]) || w[i] == '_'
  {
    if |w| == 0 then 0
    else if w[|w| - 1] == '_' then WordValue(w[..|w| - 1])
    else WordValue(w[..|w| - 1]) * 10 + DigitOf(w[|w| - 1])
  }

  function IntWordValue(w: string): nat
    requires IsIntWord(w)
  {
    WordValue(w)
  }

  /** Reading back what `str` printed gives the number again. */
  lemma {:induction false} WordValueOfNatToString(n: nat)
    ensures WordValue(NatToString(n)) == n
    decreases n
  {
    var s := NatToString(n);
    if n < 10 {
      assert s[..0] == [];
    } else {
      WordValueOfNatToString(n / 10);
      assert s[..|s| - 1] == NatToString(n / 10);
    }
  }

  /** `int(str(n)) == n` for every non-negative `n`. */
  lemma NatToStringIsIntWord(n: nat)
    ensures IsIntWord(NatToString(n))
    ensures IntWordValue(NatToString(n)) == n
  {
    WordValueOfNatToString(n);
  }

  lemma NatToStringInjective(m: nat, n: nat)
    ensures NatToString(m) == NatToString(n) ==> m == n
  {
    WordValueOfNatToString(m);
    WordValueOfNatToString(n);
  }

  // ---------------------------------------------------------------------------
  // Ordering of str values

  /** Python's `a < b` on strings: lexicographic by code point, a proper prefix first. */
  predicate StrLt(a: string, b: string)
    decreases |a|
  {
    if |a| == 0 then |b| > 0
    else if |b| == 0 then false
    else if a[0] == b[0] then StrLt(a[1..], b[1..])
    else a[0] < b[0]
  }

  lemma {:induction false} StrLtIrreflexive(a: string)
    ensures !StrLt(a, a)
    decreases |a|
  {
    if |a| > 0 {
      StrLtIrreflexive(a[1..]);
    }
  }

  lemma {:induction false} StrLtTransitive(a: string, b: string, c: string)
    requires StrLt(a, b) && StrLt(b, c)
    ensures StrLt(a, c)
    decreases |a|
  {
    if |a| > 0 && a[0] == b[0] && b[0] == c[0] {
      StrLtTransitive(a[1..], b[1..], c[1..]);
    }
  }

  lemma {:induction false} StrLtTotal(a: string, b: string)
    requires a != b
    ensures StrLt(a, b) || StrLt(b, a)
    decreases |a|
  {
    if |a| > 0 && |b| > 0 && a[0] == b[0] {
      assert a == [a[0]] + a[1..] && b == [b[0]] + b[1..];
      StrLtTotal(a[1..], b[1..]);
    }
  }

  lemma StrLtAsymmetric(a: string, b: string)
    requires StrLt(a, b)
    ensures !StrLt(b, a)
  {
    if StrLt(b, a) {
      StrLtTransitive(a, b, a);
      StrLtIrreflexive(a);
    }
  }
}
