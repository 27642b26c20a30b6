/**
 * Bit strings as the source keeps them: Python strings of the characters
 * '0' and '1', most significant digit first, and the three numeral
 * conversions the source uses on them.
 */
module Bits {

  /** A string made only of binary digits. */
  predicate IsBits(s: string) {
    forall i :: 0 <= i < |s| ==> s[i] == '0' || s[i] == '1'
  }

  /** A byte value, as held in the list that `bytes(...)` accepts. */
  type Byte = b: int | 0 <= b < 256

  function Pow2(n: nat): (p: nat)
    ensures p >= 1
  {
    if n == 0 then 1 else 2 * Pow2(n - 1)
  }

  lemma Pow2Eight()
    ensures Pow2(8) == 256
  {
    assert Pow2(2) == 4;
    assert Pow2(4) == 16;
    assert Pow2(6) == 64;
  }

  lemma {:induction false} Pow2Monotone(a: nat, b: nat)
    requires a <= b
    ensures Pow2(a) <= Pow2(b)
    decreases b
  {
    if a < b {
      Pow2Monotone(a, b - 1);
    }
  }

  /** `n` zero characters. */
  function Zeros(n: nat): string {
    seq(n, i => '0')
  }

  /** One more zero goes at the end. */
  lemma ZerosSnoc(n: nat)
    ensures Zeros(n + 1) == Zeros(n) + "0"
  {
  }

  /** Joining bit strings gives a bit string. */
  lemma BitsConcat(a: string, b: string)
    requires IsBits(a) && IsBits(b)
    ensures IsBits(a + b)
  {
    forall i | 0 <= i < |a + b| ensures (a + b)[i] == '0' || (a + b)[i] == '1' {
      if i < |a| {
        assert (a + b)[i] == a[i];
      } else {
        assert (a + b)[i] == b[i - |a|];
      }
    }
  }

  /** The digit for a bit value 0 or 1. */
  function Digit(b: nat): char {
    if b == 1 then '1' else '0'
  }

  /** The value of one binary digit. */
  function DigitValue(c: char): nat {
    if c == '1' then 1 else 0
  }

  /**
   * The number a binary numeral `s` denotes, most significant digit first; `int(s, 2)` for a
   * non-empty `s`. It is also defined on `""` (value 0), where `int('', 2)` raises: the callers
   * that model a call of `int` (`RemovePadding`, `Pack`) handle the empty case before calling it.
   */
  function BitsValue(s: string): (v: nat)
    requires IsBits(s)
    ensures v < Pow2(|s|)
  {
    if s == [] then 0 else 2 * BitsValue(s[..|s| - 1]) + DigitValue(s[|s| - 1])
  }

  /** The `w` lowest binary digits of `n`, most significant first. */
  function ToBits(n: nat, w: nat): (s: string)
    ensures |s| == w && IsBits(s)
  {
    if w == 0 then "" else ToBits(n / 2, w - 1) + [Digit(n % 2)]
  }

  /** Reading back `w` digits written for a number below 2^w gives that number. */
  lemma {:induction false} ValueOfToBits(n: nat, w: nat)
    requires n < Pow2(w)
    ensures BitsValue(ToBits(n, w)) == n
  {
    if w > 0 {
      var s := ToBits(n, w);
      assert s[..|s| - 1] == ToBits(n / 2, w - 1);
      ValueOfToBits(n / 2, w - 1);
    }
  }

  /** Writing the value of a binary numeral in its own width gives the numeral back. */
  lemma {:induction false} ToBitsOfValue(s: string)
    requires IsBits(s)
    ensures ToBits(BitsValue(s), |s|) == s
  {
    if s != [] {
      var p := s[..|s| - 1];
      ToBitsOfValue(p);
      var v := BitsValue(s);
      assert v / 2 == BitsValue(p) && v % 2 == DigitValue(s[|s| - 1]);
      assert s == p + [s[|s| - 1]];
    }
  }

  /** `bin(n)[2:]`: the shortest binary numeral for `n` ("0" for zero). */
  function PyBin(n: nat): (s: string)
    ensures IsBits(s) && |s| >= 1
  {
    if n < 2 then [Digit(n)] else PyBin(n / 2) + [Digit(n % 2)]
  }

  /** `s.rjust(width, fill)`: `s` left-filled to `width` characters. */
  function RJust(s: string, width: nat, fill: char): (r: string)
    ensures |r| == if |s| >= width then |s| else width
    ensures r[|r| - |s|..] == s
    ensures forall i :: 0 <= i < |r| - |s| ==> r[i] == fill
  {
    if |s| >= width then s else seq(width - |s|, i => fill) + s
  }

  /** `"{0:08b}".format(n)`, which is also `bin(n)[2:].rjust(8, '0')`. */
  function Format08b(n: nat): string {
    RJust(PyBin(n), 8, '0')
  }

  /** The shortest numeral is the numeral of its own width, and wide enough for `n`. */
  lemma {:induction false} PyBinIsToBits(n: nat)
    ensures PyBin(n) == ToBits(n, |PyBin(n)|)
    ensures n < Pow2(|PyBin(n)|)
    decreases n
  {
    if n >= 2 {
      PyBinIsToBits(n / 2);
    }
  }

  /** The shortest numeral of a number below 2^k has at most k digits. */
  lemma {:induction false} PyBinLength(n: nat, k: nat)
    requires 1 <= k && n < Pow2(k)
    ensures |PyBin(n)| <= k
    decreases n
  {
    if n >= 2 {
      assert k >= 2;
      PyBinLength(n / 2, k - 1);
    }
  }

  /** Zeros on the left do not change a number: its numeral in a wider field is zero-filled. */
  lemma {:induction false} ToBitsWiden(n: nat, w: nat, k: nat)
    requires n < Pow2(w)
    ensures ToBits(n, w + k) == Zeros(k) + ToBits(n, w)
    decreases w + k
  {
    if w == 0 {
      assert n == 0;
      if k > 0 {
        ToBitsWiden(0, 0, k - 1);
        assert ToBits(0, k) == ToBits(0, k - 1) + "0";
      }
    } else {
      ToBitsWiden(n / 2, w - 1, k);
      assert ToBits(n, w + k) == ToBits(n / 2, w - 1 + k) + [Digit(n % 2)];
    }
  }

  /** For a byte value, both `"{0:08b}".format(n)` and `bin(n)[2:].rjust(8, '0')` are its eight-digit numeral. */
  lemma Format08bIsToBits(n: nat)
    requires n < 256
    ensures Format08b(n) == ToBits(n, 8)
  {
    Pow2Eight();
    PyBinIsToBits(n);
    PyBinLength(n, 8);
    var l := |PyBin(n)|;
    ToBitsWiden(n, l, 8 - l);
    assert Format08b(n) == Zeros(8 - l) + PyBin(n);
  }
}
