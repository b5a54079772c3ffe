/** Decimal numbers: what `ostream << size_t` prints and `boost::lexical_cast<int>` reads. */
module Decimal {
  import opened Bytes

  const ZERO: byte := 48
  const MINUS: byte := 45
  const PLUS: byte := 43

  predicate IsDigit(c: byte) { ZERO <= c <= 57 }

  predicate AllDigits(s: bytes) { forall k :: 0 <= k < |s| ==> IsDigit(s[k]) }

  /** The shortest decimal form of `n`. */
  function Print(n: nat): (s: bytes)
    ensures s != [] && AllDigits(s)
    ensures 10 <= n ==> s[0] != ZERO
    ensures n != 0 ==> s[0] != ZERO
  {
    if n < 10 then [ZERO + n as byte] else Print(n / 10) + [ZERO + (n % 10) as byte]
  }

  function PrintInt(v: int): bytes
  {
    if v < 0 then [MINUS] + Print(-v) else Print(v)
  }

  function Digits(s: bytes): nat
    requires AllDigits(s)
  {
    if s == [] then 0
    else
      assert IsDigit(s[|s| - 1]);
      10 * Digits(s[..|s| - 1]) + (s[|s| - 1] - ZERO) as nat
  }

  function IntOption(v: int): Option<int> { if IsInt(v) then Some(v) else None }

  /** `boost::lexical_cast<int>`: an optional sign, at least one digit, nothing else, within `int`. */
  function LexicalInt(s: bytes): (r: Option<int>)
    ensures r.Some? ==> IsInt(r.value)
  {
    var negative := s != [] && s[0] == MINUS;
    var signed := negative || (s != [] && s[0] == PLUS);
    var digits := if signed then s[1..] else s;
    if digits == [] || !AllDigits(digits) then None
    else
      IntOption(if negative then -(Digits(digits) as int) else Digits(digits))
  }

  lemma {:induction false} DigitsPrint(n: nat)
    ensures Digits(Print(n)) == n
  {
    if 10 <= n {
      var s := Print(n);
      assert s[..|s| - 1] == Print(n / 10);
      DigitsPrint(n / 10);
    } else {
      assert Print(n)[..0] == [];
    }
  }

  lemma LexicalDigits(s: bytes)
    requires s != [] && AllDigits(s)
    ensures LexicalInt(s) == IntOption(Digits(s))
    ensures LexicalInt([PLUS] + s) == IntOption(Digits(s))
    ensures LexicalInt([MINUS] + s) == IntOption(-(Digits(s) as int))
  {
  }

  /** Printed integers read back exactly when they fit an `int`. */
  lemma LexicalPrint(v: int)
    ensures LexicalInt(PrintInt(v)) == IntOption(v)
  {
    var n := if v < 0 then -v else v;
    DigitsPrint(n);
    LexicalDigits(Print(n));
  }

  // ---------------------------------------------------------------- the notation itself

  function Pow10(k: nat): nat { if k == 0 then 1 else 10 * Pow10(k - 1) }

  /** Characters '0' to '9', at least one. */
  predicate Decimals(s: bytes) { s != [] && forall k :: 0 <= k < |s| ==> 48 <= s[k] <= 57 }

  /** Positional notation: every digit times the power of ten of its place. */
  function Positional(s: bytes): int
  {
    if s == [] then 0 else (s[0] as int - 48) * Pow10(|s| - 1) + Positional(s[1..])
  }

  lemma {:induction false} PositionalSnoc(s: bytes, c: byte)
    ensures Positional(s + [c]) == 10 * Positional(s) + (c as int - 48)
  {
    if s == [] {
      assert ([] + [c])[1..] == [];
    } else {
      assert (s + [c])[1..] == s[1..] + [c];
      PositionalSnoc(s[1..], c);
      OnePlaceUp(s[0] as int - 48, Pow10(|s| - 1));
    }
  }

  lemma OnePlaceUp(d: int, p: nat)
    ensures d * (10 * p) == 10 * (d * p)
  {
  }

  /** Reading digits from the left, each time ten times as much, is positional notation. */
  lemma {:induction false} DigitsPositional(s: bytes)
    requires AllDigits(s)
    ensures Digits(s) == Positional(s)
  {
    if s != [] {
      var w := s[..|s| - 1];
      assert s == w + [s[|s| - 1]];
      DigitsPositional(w);
      PositionalSnoc(w, s[|s| - 1]);
    }
  }

  predicate NumeralOf(s: bytes, v: int) { Decimals(s) && Positional(s) == v }

  /** The numeral without leading zeros. */
  predicate Shortest(s: bytes, v: int) { NumeralOf(s, v) && (s[0] == 48 ==> |s| == 1) }

  /** What is printed is the one shortest decimal numeral of the number, behind a '-' when it is negative. */
  lemma PrintExactly(v: int, s: bytes)
    ensures s == PrintInt(v) <==> if v < 0 then s != [] && s[0] == 45 && Shortest(s[1..], -v) else Shortest(s, v)
  {
    var n, t := if v < 0 then -v else v, if v < 0 && s != [] then s[1..] else s;
    DigitsPrint(n);
    DigitsPositional(Print(n));
    PrintDigit(n);
    if Shortest(t, n) {
      NumeralIsPrinted(n, t);
      assert v < 0 && s != [] ==> s == [s[0]] + t;
    }
  }

  lemma PrintDigit(n: nat)
    ensures n < 10 ==> |Print(n)| == 1
  {
  }

  lemma {:induction false} NumeralIsPrinted(n: nat, s: bytes)
    requires Shortest(s, n)
    ensures s == Print(n)
    decreases |s|
  {
    var w, c := s[..|s| - 1], s[|s| - 1];
    assert s == w + [c];
    PositionalSnoc(w, c);
    DigitsPositional(w);
    if w != [] {
      LeadingDigit(w);
      NumeralIsPrinted(Positional(w), w);
    }
  }

  /** A numeral that does not begin with a zero is positive. */
  lemma LeadingDigit(s: bytes)
    requires Decimals(s) && s[0] != 48
    ensures 0 < Positional(s)
  {
    FewerDigits(s, |s|);
    DigitsPositional(s);
  }

  /**
   What `lexical_cast<int>` accepts, in characters: a decimal numeral, alone or behind one '+' or '-', of a number
   from -2147483648 to 2147483647. It reads that number, and nothing else is read.
   */
  lemma LexicalExactly(s: bytes, v: int)
    ensures LexicalInt(s) == Some(v) <==>
      && -2147483648 <= v <= 2147483647
      && (NumeralOf(s, v)
          || (s != [] && s[0] == 43 && NumeralOf(s[1..], v))
          || (s != [] && s[0] == 45 && NumeralOf(s[1..], -v)))
  {
    if AllDigits(s) {
      DigitsPositional(s);
    }
    if s != [] && AllDigits(s[1..]) {
      DigitsPositional(s[1..]);
    }
  }

  // ---------------------------------------------------------------- numbers that have lost bytes

  /** Digits that have lost the first ones stand for a smaller number. */
  lemma {:induction false} FewerDigits(s: bytes, j: nat)
    requires AllDigits(s) && s != [] && s[0] != ZERO && 1 <= j <= |s|
    ensures Digits(s[j..]) < Digits(s)
  {
    if |s| > 1 {
      var w := s[..|s| - 1];
      if j < |s| {
        assert s[j..][..|s| - j - 1] == w[j..];
        FewerDigits(w, j);
      } else {
        FewerDigits(w, |w|);
      }
    }
  }

  /** A printed number that has lost its first bytes is another number, or none. */
  lemma LateNumber(v: int, j: nat)
    requires -1 <= v && 1 <= j <= |PrintInt(v)|
    ensures LexicalInt(PrintInt(v)[j..]) != Some(v)
  {
    var s := PrintInt(v);
    if 1 <= v {
      FewerDigits(s, j);
      DigitsPrint(v);
      if j < |s| {
        LexicalDigits(s[j..]);
      }
    }
  }

  /** A printed number holds no line terminator byte. */
  lemma PrintIsLineFree(v: int)
    ensures CR !in PrintInt(v) && LF !in PrintInt(v)
  {
  }
}
