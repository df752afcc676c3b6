/** Safe integers and decimal text, shared by every format the program writes. */
module Decimals {

  /** A byte and a UTF-16 code unit alike. */
  type Ascii = x: int | 0 <= x < 128 witness 0

  const MAX_SAFE := 9007199254740991

  function Max(a: int, b: int): int { if a < b then b else a }

  function Digits(n: nat): seq<Ascii> {
    if n < 10 then [48 + n] else Digits(n / 10) + [48 + n % 10]
  }

  function Decimal(n: int): seq<Ascii> {
    if n < 0 then [45] + Digits(-n) else Digits(n)
  }

  predicate AllDigits(s: seq<int>) { forall i :: 0 <= i < |s| ==> 48 <= s[i] <= 57 }

  function DigitsValue(s: seq<int>): (n: int)
    requires AllDigits(s)
    ensures n >= 0
  {
    if s == [] then 0 else DigitsValue(s[..|s| - 1]) * 10 + (s[|s| - 1] - 48)
  }

  lemma {:induction false} DigitsParse(n: nat)
    ensures Digits(n) != [] && AllDigits(Digits(n)) && DigitsValue(Digits(n)) == n
  {
    if n >= 10 {
      DigitsParse(n / 10);
      assert Digits(n)[..|Digits(n)| - 1] == Digits(n / 10);
    } else {
      assert Digits(n)[..0] == [];
      assert DigitsValue(Digits(n)) == DigitsValue([]) * 10 + n;
    }
  }
}
