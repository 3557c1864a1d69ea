/** String comparison (lib/strops.c).  A C string is modelled by the characters before its terminator. */
module Strops {

  /** Three-way comparison, character by character, a proper prefix first. */
  function Compare(a: string, b: string): int {
    if a == [] then (if b == [] then 0 else -1)
    else if b == [] then 1
    else if a[0] < b[0] then -1
    else if a[0] > b[0] then 1
    else Compare(a[1..], b[1..])
  }

  /** strops_cmp is zero on equal strings and on no others. */
  lemma {:induction false} CompareZero(a: string, b: string)
    ensures Compare(a, b) == 0 <==> a == b
  {
    if a != [] && b != [] {
      CompareZero(a[1..], b[1..]);
      assert a == [a[0]] + a[1..] && b == [b[0]] + b[1..];
    }
  }

  method Cmp(a: string, b: string) returns (r: int)
    ensures r == Compare(a, b)
    ensures r == 0 <==> a == b
  {
    CompareZero(a, b);
    var i := 0;
    while i < |a| && i < |b|
      invariant i <= |a| && i <= |b|
      invariant Compare(a, b) == Compare(a[i..], b[i..])
    {
      if a[i] < b[i] {
        return -1;
      }
      if a[i] > b[i] {
        return 1;
      }
      assert a[i..][1..] == a[i + 1..] && b[i..][1..] == b[i + 1..];
      i := i + 1;
    }
    if i == |a| && i < |b| {
      return -1;
    }
    if i < |a| && i == |b| {
      return 1;
    }
    return 0;
  }

  lemma {:induction false} CompareAntisymmetric(a: string, b: string)
    ensures Compare(b, a) == -Compare(a, b)
  {
    if a != [] && b != [] {
      CompareAntisymmetric(a[1..], b[1..]);
    }
  }

  lemma {:induction false} CompareTransitive(a: string, b: string, c: string)
    requires Compare(a, b) <= 0 && Compare(b, c) <= 0
    ensures Compare(a, c) <= 0
  {
    if a != [] && b != [] && c != [] && a[0] == b[0] == c[0] {
      CompareTransitive(a[1..], b[1..], c[1..]);
    }
  }

  /** The strings agree up to `k`, and there the first one ends or has the smaller character. */
  ghost predicate LessAt(a: string, b: string, k: nat) {
    k <= |a| && k < |b| && a[..k] == b[..k] && (k == |a| || a[k] < b[k])
  }

  lemma LessAtTail(a: string, b: string, k: nat)
    requires a != [] && b != []
    ensures LessAt(a, b, k + 1) <==> a[0] == b[0] && LessAt(a[1..], b[1..], k)
  {
    if k + 1 <= |a| && k + 1 <= |b| {
      assert a[..k + 1] == [a[0]] + a[1..][..k] && b[..k + 1] == [b[0]] + b[1..][..k];
      assert a[..k + 1] == b[..k + 1] ==> a[..k + 1][0] == b[..k + 1][0] && a[..k + 1][1..] == b[..k + 1][1..];
    }
  }

  /** strops_cmp is -1 exactly if the first string comes first, and 1 exactly if the second one does. */
  lemma {:induction false} CompareSign(a: string, b: string)
    ensures Compare(a, b) == -1 <==> exists k: nat :: LessAt(a, b, k)
    ensures Compare(a, b) == 1 <==> exists k: nat :: LessAt(b, a, k)
    ensures Compare(a, b) in {-1, 0, 1}
  {
    if a == [] || b == [] || a[0] != b[0] {
      assert LessAt(a, b, 0) <==> Compare(a, b) == -1;
      assert LessAt(b, a, 0) <==> Compare(a, b) == 1;
      forall k: nat | k > 0 ensures !LessAt(a, b, k) && !LessAt(b, a, k) {
        if a != [] && b != [] {
          LessAtTail(a, b, k - 1);
          LessAtTail(b, a, k - 1);
        }
      }
    } else {
      CompareSign(a[1..], b[1..]);
      forall k: nat
        ensures LessAt(a, b, k + 1) <==> LessAt(a[1..], b[1..], k)
        ensures LessAt(b, a, k + 1) <==> LessAt(b[1..], a[1..], k)
      {
        LessAtTail(a, b, k);
        LessAtTail(b, a, k);
      }
      assert !LessAt(a, b, 0) && !LessAt(b, a, 0);
      assert forall k: nat :: LessAt(a, b, k) ==> LessAt(a[1..], b[1..], k - 1);
      assert forall k: nat :: LessAt(b, a, k) ==> LessAt(b[1..], a[1..], k - 1);
    }
  }

  // ---- Numbers -----------------------------------------------------------------------------------

  predicate IsDigit(c: char) {
    '0' <= c <= '9'
  }

  function DigitValue(c: char): (v: nat)
    requires IsDigit(c)
    ensures v < 10 && '0' as int + v == c as int
  {
    c as int - '0' as int
  }

  /** The number written in the leading digits of a word, continuing from `n`. */
  function Digits(word: string, n: nat): nat {
    if word == [] || !IsDigit(word[0]) then n else Digits(word[1..], 10 * n + DigitValue(word[0]))
  }

  function WordToInt(word: string): int {
    if word != [] && word[0] == '-' then 0 - Digits(word[1..], 0) else Digits(word, 0)
  }

  const INT32_LIMIT: int := 0x8000_0000

  /** strops_word_to_int.  Every value it goes through fits an int32_t exactly if the number that it reads does. */
  method ReadInt(word: string) returns (r: int, ghost fits: bool)
    ensures r == WordToInt(word)
    ensures fits <==> -INT32_LIMIT < r < INT32_LIMIT
  {
    fits := true;
    var neg, i := false, 0;
    var res: nat := 0;
    if word != [] && word[0] == '-' {
      neg, i := true, 1;
    }
    ghost var start := i;
    assert start == 0 ==> word[0..] == word;
    while i < |word| && IsDigit(word[i])
      invariant start <= i <= |word| && Digits(word[i..], res) == Digits(word[start..], 0)
      invariant fits <==> res < INT32_LIMIT
    {
      assert word[i..][1..] == word[i + 1..];
      res := 10 * res + DigitValue(word[i]);
      fits := fits && res < INT32_LIMIT;
      i := i + 1;
    }
    r := if neg then 0 - res else res;
  }

  function Decimal(n: nat): string {
    (if n < 10 then [] else Decimal(n / 10)) + [('0' as int + n % 10) as char]
  }

  lemma {:induction false} DigitsOfDecimal(n: nat, rest: string)
    ensures Digits(Decimal(n) + rest, 0) == Digits(rest, n)
    ensures IsDigit(Decimal(n)[0])
  {
    var c := ('0' as int + n % 10) as char;
    assert ([c] + rest)[1..] == rest;
    if n < 10 {
      assert Decimal(n) + rest == [c] + rest;
    } else {
      DigitsOfDecimal(n / 10, [c] + rest);
      assert Decimal(n) + rest == Decimal(n / 10) + ([c] + rest);
    }
  }

  /** A printed number is read back, whatever follows it, as long as that is not another digit. */
  lemma {:induction false} DecimalRoundTrip(n: nat, rest: string)
    requires rest == [] || !IsDigit(rest[0])
    ensures WordToInt(Decimal(n) + rest) == n
    ensures WordToInt("-" + Decimal(n) + rest) == 0 - n
  {
    DigitsOfDecimal(n, rest);
    assert ("-" + Decimal(n) + rest)[1..] == Decimal(n) + rest;
  }

  /** A word that starts with neither a digit nor a minus sign is read as 0, and so is a minus sign in front of one. */
  lemma {:induction false} NotANumber(word: string)
    requires word == [] || !('0' <= word[0] <= '9')
    ensures word == [] || word[0] != '-' ==> WordToInt(word) == 0
    ensures WordToInt("-" + word) == 0
  {
    assert ("-" + word)[1..] == word;
  }

  lemma {:induction false} DecimalDigits(n: nat)
    ensures forall i :: 0 <= i < |Decimal(n)| ==> IsDigit(Decimal(n)[i])
  {
    if n >= 10 {
      DecimalDigits(n / 10);
    }
  }
}
