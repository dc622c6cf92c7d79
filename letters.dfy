/** Query variable names: the bijective base-26 numeral of a positive count,
    written with the digits 'a' (one) to 'z' (twenty-six) and no zero digit,
    so that 1, 26, 27 and 703 become "a", "z", "aa" and "aaa". Both Go files
    define this encoder as `convertToAlphabetic`; this module is its
    specification, which each file's own version is proved to meet. */
module Letters {

  /** The letter standing for the digit value `d` (0 stands for 'a'). */
  function Digit(d: int): (c: char)
    requires 0 <= d < 26
    ensures 'a' <= c <= 'z'
  {
    (('a' as int) + d) as char
  }

  /** The value of a letter: 'a' is 1, 'z' is 26. */
  function Value(c: char): int
  {
    (c as int) - ('a' as int) + 1
  }

  predicate IsLetter(c: char)
  {
    'a' <= c <= 'z'
  }

  /** The encoding of `n`; empty when `n <= 0`. */
  function Enc(n: int): string
    decreases n
  {
    if n <= 0 then "" else Enc((n - 1) / 26) + [Digit((n - 1) % 26)]
  }

  /** The number a string of letters stands for: its inverse. */
  function Dec(s: string): int
  {
    if |s| == 0 then 0 else 26 * Dec(s[..|s| - 1]) + Value(s[|s| - 1])
  }

  /** The encoding is empty exactly for non-positive counts and otherwise a
      word over 'a'..'z'. */
  lemma {:induction false} EncShape(n: int)
    ensures (Enc(n) == "") <==> n <= 0
    ensures forall i | 0 <= i < |Enc(n)| :: IsLetter(Enc(n)[i])
    decreases n
  {
    if n > 0 {
      EncShape((n - 1) / 26);
    }
  }

  /** Decoding the encoding gives the count back. */
  lemma {:induction false} DecEnc(n: nat)
    ensures Dec(Enc(n)) == n
    decreases n
  {
    if n > 0 {
      var q, d := (n - 1) / 26, (n - 1) % 26;
      DecEnc(q);
      var e := Enc(q) + [Digit(d)];
      assert e[..|e| - 1] == Enc(q);
      assert Value(e[|e| - 1]) == d + 1;
    }
  }

  /** Every word over 'a'..'z' is the encoding of its value: the encoder is
      onto the words, and with DecEnc a bijection onto them. */
  lemma {:induction false} EncDec(s: string)
    requires forall i | 0 <= i < |s| :: IsLetter(s[i])
    ensures Dec(s) >= 0
    ensures Enc(Dec(s)) == s
    decreases |s|
  {
    if |s| > 0 {
      var p := s[..|s| - 1];
      EncDec(p);
      var d := Value(s[|s| - 1]) - 1;
      assert 0 <= d < 26;
      var n := 26 * Dec(p) + d + 1;
      assert (n - 1) / 26 == Dec(p) && (n - 1) % 26 == d;
      assert Digit(d) == s[|s| - 1];
      assert s == p + [s[|s| - 1]];
    }
  }

  /** Different positive counts get different names. */
  lemma EncInjective(m: int, n: int)
    requires m > 0 && n > 0 && m != n
    ensures Enc(m) != Enc(n)
  {
    DecEnc(m);
    DecEnc(n);
  }

  /** The examples `enc(1) = "a"`, `enc(26) = "z"`, `enc(27) = "aa"`. */
  lemma EncExamples()
    ensures Enc(1) == "a" && Enc(2) == "b" && Enc(26) == "z" && Enc(27) == "aa"
  {
    assert Enc(0) == "";
    assert Enc(1) == Enc(0) + [Digit(0)];
    assert Enc(27) == Enc(1) + [Digit(0)];
  }
}
