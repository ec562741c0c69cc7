/** strconv.Itoa and strconv.Atoi, over Go's 64-bit int. */
module Decimal {
  import opened Wrappers

  const MAX_INT: int := 0x7fff_ffff_ffff_ffff
  const MIN_INT: int := -0x8000_0000_0000_0000

  predicate IsDigit(c: char) {
    '0' <= c <= '9'
  }

  predicate Digits(text: string) {
    forall i :: 0 <= i < |text| ==> IsDigit(text[i])
  }

  function Digit(n: nat): (c: char)
    requires n < 10
    ensures IsDigit(c)
  {
    ('0' as int + n) as char
  }

  /** The number a text of digits spells, leading zeros allowed. */
  function Value(text: string): nat
    requires Digits(text)
  {
    if text == [] then 0
    else 10 * Value(text[..|text| - 1]) + (text[|text| - 1] as int - '0' as int)
  }

  function Itoa(n: nat): (text: string)
    ensures text != [] && Digits(text)
  {
    if n < 10 then [Digit(n)] else Itoa(n / 10) + [Digit(n % 10)]
  }

  /** A sign is accepted, and so are leading zeros; anything past 64 bits is a range error. */
  function Atoi(text: string): Option<int> {
    var signed := text != [] && (text[0] == '+' || text[0] == '-');
    var digits := if signed then text[1..] else text;
    if digits == [] || !Digits(digits) then None
    else
      var n: int := if signed && text[0] == '-' then 0 - Value(digits) else Value(digits);
      if n < MIN_INT || n > MAX_INT then None else Some(n)
  }

  lemma {:induction false} ItoaReadsBack(n: nat)
    ensures Value(Itoa(n)) == n
  {
    if n >= 10 {
      ItoaReadsBack(n / 10);
      assert Itoa(n)[..|Itoa(n)| - 1] == Itoa(n / 10);
    } else {
      assert Value([]) == 0 && [Digit(n)][..0] == [];
    }
  }

  lemma AtoiReadsItoa(n: nat)
    requires n <= MAX_INT
    ensures Atoi(Itoa(n)) == Some(n)
  {
    ItoaReadsBack(n);
    assert IsDigit(Itoa(n)[0]);
  }

  /** A greater number has no fewer digits. */
  lemma {:induction false} WidthIsMonotone(m: nat, n: nat)
    requires m <= n
    ensures |Itoa(m)| <= |Itoa(n)|
  {
    if m >= 10 {
      WidthIsMonotone(m / 10, n / 10);
    }
  }

  // ---------------------------------------------------------------- the texts that spell a number

  function Zeros(k: nat): (text: string)
    ensures |text| == k
  {
    if k == 0 then "" else "0" + Zeros(k - 1)
  }

  /** A number after an optional plus and any number of zeros. */
  function Loose(plus: bool, k: nat, n: nat): string {
    (if plus then "+" else "") + (Zeros(k) + Itoa(n))
  }

  lemma {:induction false} ZeroBefore(text: string)
    requires Digits(text)
    ensures Digits("0" + text) && Value("0" + text) == Value(text)
  {
    if text == "" {
      assert "0" + text == "0" && "0"[..0] == "";
    } else {
      ZeroBefore(text[..|text| - 1]);
      assert ("0" + text)[..|text|] == "0" + text[..|text| - 1];
    }
  }

  lemma {:induction false} ZerosAreNothing(k: nat, n: nat)
    ensures Digits(Zeros(k) + Itoa(n)) && Value(Zeros(k) + Itoa(n)) == n
  {
    hide Itoa, Value;
    if k == 0 {
      ItoaReadsBack(n);
      assert Zeros(0) + Itoa(n) == Itoa(n);
    } else {
      ZerosAreNothing(k - 1, n);
      var fewer := Zeros(k - 1) + Itoa(n);
      ZeroBefore(fewer);
      assert Zeros(k) + Itoa(n) == "0" + fewer;
    }
  }

  lemma {:induction false} ZerosEnd(k: nat)
    ensures Zeros(k) + "0" == Zeros(k + 1)
  {
    if k > 0 {
      ZerosEnd(k - 1);
      assert Zeros(k) + "0" == "0" + (Zeros(k - 1) + "0");
    }
  }

  /** Digits spelling zero are zeros. */
  lemma {:induction false} OnlyZeros(text: string)
    requires Digits(text) && Value(text) == 0
    ensures text == Zeros(|text|)
  {
    if text != "" {
      var n := |text| - 1;
      OnlyZeros(text[..n]);
      ZerosEnd(n);
      assert text == text[..n] + [text[n]] && text[n] == '0';
    }
  }

  /** Digits spelling a number are zeros and then its decimal. */
  lemma {:induction false} DigitsSpell(text: string) returns (k: nat)
    requires Digits(text) && Value(text) >= 1
    ensures text == Zeros(k) + Itoa(Value(text))
  {
    var n := |text| - 1;
    var rest, d := text[..n], text[n];
    assert text == rest + [d] && IsDigit(d);
    if Value(rest) == 0 {
      OnlyZeros(rest);
      k := n;
      assert Itoa(Value(text)) == [d];
    } else {
      k := DigitsSpell(rest);
      assert Value(text) / 10 == Value(rest) && Itoa(Value(text)) == Itoa(Value(rest)) + [d];
      assert text == (Zeros(k) + Itoa(Value(rest))) + [d];
    }
  }

  /** Atoi reads a positive number off exactly its decimal, after an optional plus and zeros. */
  lemma AtoiIff(text: string, n: nat)
    requires 1 <= n <= MAX_INT
    ensures Atoi(text) == Some(n) <==> exists plus, k: nat :: text == Loose(plus, k, n)
  {
    hide Itoa, Value, Zeros;
    if Atoi(text) == Some(n) {
      var plus := text[0] == '+';
      var digits := if plus || text[0] == '-' then text[1..] else text;
      var k := DigitsSpell(digits);
      assert text == if plus then "+" + digits else digits;
      assert "" + digits == digits;
      assert text == Loose(plus, k, n);
    }
    forall plus, k: nat | text == Loose(plus, k, n)
      ensures Atoi(text) == Some(n)
    {
      LooseIsRead(plus, k, n);
    }
  }

  lemma LooseIsRead(plus: bool, k: nat, n: nat)
    requires n <= MAX_INT
    ensures Atoi(Loose(plus, k, n)) == Some(n)
  {
    hide Itoa, Zeros, Value;
    var d := Zeros(k) + Itoa(n);
    ZerosAreNothing(k, n);
    assert |d| > 0 && IsDigit(d[0]);
    if plus {
      assert ("+" + d)[1..] == d;
    } else {
      assert "" + d == d;
    }
  }

  lemma LooseWidth(plus: bool, k: nat, n: nat)
    ensures Loose(plus, k, n) == Itoa(n) <==> !plus && k == 0
  {
    assert |Loose(plus, k, n)| == (if plus then 1 else 0) + k + |Itoa(n)|;
  }

  const DIGITS: string := "0123456789"

  /** n without its k last digits. */
  function Shifted(n: nat, k: nat): nat {
    if k == 0 then n else Shifted(n / 10, k - 1)
  }

  /** The text of a number, digit by digit from its last, and no zero before the first. */
  lemma {:induction false} ItoaSpells(n: nat, k: nat)
    ensures k < |Itoa(n)| <==> k == 0 || Shifted(n, k) > 0
    ensures k < |Itoa(n)| ==> Itoa(n)[|Itoa(n)| - 1 - k] == DIGITS[Shifted(n, k) % 10]
  {
    DigitIs(n % 10);
    if n < 10 {
      if k > 0 {
        ShiftedZero(k - 1);
      }
    } else if k > 0 {
      ItoaSpells(n / 10, k - 1);
    }
  }

  lemma {:induction false} ShiftedZero(k: nat)
    ensures Shifted(0, k) == 0
  {
    if k > 0 {
      ShiftedZero(k - 1);
    }
  }

  lemma DigitIs(n: nat)
    requires n < 10
    ensures Digit(n) == DIGITS[n]
  {
  }
}
