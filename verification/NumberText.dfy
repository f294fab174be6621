/** Numbers printed in decimal, and read back. */
module NumberText {
  predicate IsDigit(c: char) {
    '0' <= c <= '9'
  }

  predicate AllDigits(s: string) {
    forall i :: 0 <= i < |s| ==> IsDigit(s[i])
  }

  function DigitChar(n: int): (c: char)
    requires 0 <= n < 10
    ensures IsDigit(c) && DigitValue(c) == n
  {
    '0' + n as char
  }

  function DigitValue(c: char): (n: int)
    requires IsDigit(c)
    ensures 0 <= n < 10
  {
    c as int - '0' as int
  }

  function Digits(n: nat): (s: string)
    ensures s != [] && AllDigits(s)
  {
    if n < 10 then [DigitChar(n)] else Digits(n / 10) + [DigitChar(n % 10)]
  }

  function Value(s: string): nat
    requires AllDigits(s)
  {
    if s == [] then 0 else 10 * Value(s[..|s| - 1]) + DigitValue(s[|s| - 1])
  }

  lemma {:induction false} ValueOfDigits(n: nat)
    ensures Value(Digits(n)) == n
  {
    if n < 10 {
      assert Digits(n)[..0] == [];
    } else {
      assert Digits(n)[..|Digits(n)| - 1] == Digits(n / 10);
      ValueOfDigits(n / 10);
    }
  }

  lemma Longer(n: nat)
    requires n >= 10
    ensures |Digits(n)| == |Digits(n / 10)| + 1
  {
  }

  lemma DigitsLength(n: nat)
    ensures |Digits(n)| == 4 <==> 1000 <= n < 10000
    ensures |Digits(n)| == 2 <==> 10 <= n < 100
    ensures |Digits(n)| == 1 <==> n < 10
  {
    hide Digits;
    if n < 10 {
      OneDigit(n);
    } else {
      Longer(n);
      var a := n / 10;
      if a < 10 {
        OneDigit(a);
      } else {
        Longer(a);
        var b := a / 10;
        if b < 10 {
          OneDigit(b);
        } else {
          Longer(b);
          var c := b / 10;
          if c < 10 {
            OneDigit(c);
          } else {
            Longer(c);
          }
        }
      }
    }
  }

  lemma OneDigit(n: nat)
    requires n < 10
    ensures |Digits(n)| == 1
  {
  }

  lemma SplitNumber(n: int, last: int)
    requires 0 <= last < 10
    ensures (10 * n + last) / 10 == n && (10 * n + last) % 10 == last
  {
  }

  /** A text of digits without a leading zero is what its value prints. */
  lemma {:induction false} DigitsOfValue(s: string)
    requires AllDigits(s) && s != [] && (s[0] != '0' || |s| == 1)
    ensures Digits(Value(s)) == s
  {
    var front, last := s[..|s| - 1], s[|s| - 1];
    SplitNumber(Value(front), DigitValue(last));
    if |s| == 1 {
      assert Value(front) == 0;
    } else {
      DigitsOfValue(front);
      PositiveValue(front);
      assert s == front + [last];
    }
  }

  lemma PositiveValue(s: string)
    requires AllDigits(s) && s != [] && s[0] != '0'
    ensures Value(s) > 0
  {
  }
}
