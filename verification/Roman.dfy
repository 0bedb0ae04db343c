/** Roman numerals (citeproc/model.py:1822-1843). */
module Roman {
  import opened Arithmetic
  import opened Seqs

  const NUMERALS: seq<(string, nat)> := [
    ("M", 1000), ("CM", 900), ("D", 500), ("CD", 400), ("C", 100), ("XC", 90), ("L", 50),
    ("XL", 40), ("X", 10), ("IX", 9), ("V", 5), ("IV", 4), ("I", 1)]

  // `s * k` on strings: nothing for a k that is not positive.
  function Repeat(s: string, k: int): string {
    if k <= 0 then "" else s + Repeat(s, k - 1)
  }

  lemma RepeatOnce(s: string)
    ensures Repeat(s, 1) == s && Repeat(s, 2) == s + s && Repeat(s, 3) == s + s + s
  {
    assert Repeat(s, 0) == "" && Repeat(s, 1) == s + "" && Repeat(s, 2) == s + Repeat(s, 1);
  }

  // The numerals from index `i` on.
  function RomanFrom(i: nat, n: int): string
    requires i <= |NUMERALS|
    decreases |NUMERALS| - i
  {
    if i == |NUMERALS| then ""
    else Repeat(NUMERALS[i].0, n / NUMERALS[i].1) + RomanFrom(i + 1, n % NUMERALS[i].1)
  }

  // Dafny's division agrees with Python's `divmod`, the divisors being positive.
  method Romanize(number: int) returns (roman: string)
    ensures roman == RomanFrom(0, number)
    ensures Read(roman) == number <==> number >= 0
  {
    roman := "";
    var n := number;
    for i := 0 to |NUMERALS|
      invariant RomanFrom(0, number) == roman + RomanFrom(i, n)
    {
      var letters, amount := NUMERALS[i].0, NUMERALS[i].1;
      OneStep(i, n, letters, amount);
      var k := n / amount;
      Associative(roman, Repeat(letters, k), RomanFrom(i + 1, n % amount));
      n := n % amount;
      roman := roman + Repeat(letters, k);
    }
    ReadsBack(number);
  }

  // ----- Reading

  function LetterValue(c: char): nat {
    match c
    case 'M' => 1000
    case 'D' => 500
    case 'C' => 100
    case 'L' => 50
    case 'X' => 10
    case 'V' => 5
    case 'I' => 1
    case _ => 0
  }

  function FirstValue(s: string): nat {
    if s == "" then 0 else LetterValue(s[0])
  }

  // The usual rule: a letter before a greater one counts negatively.
  function Read(s: string): int {
    if s == "" then 0
    else
      var v: int := LetterValue(s[0]);
      (if v < FirstValue(s[1..]) then -v else v) + Read(s[1..])
  }

  // ----- Decimal places

  // One decimal digit, written with the letters for one, five and ten of its place.
  function Digit(d: nat, one: char, five: char, ten: char): string
    requires d < 10
  {
    match d
    case 0 => ""
    case 1 => [one]
    case 2 => [one, one]
    case 3 => [one, one, one]
    case 4 => [one, five]
    case 5 => [five]
    case 6 => [five, one]
    case 7 => [five, one, one]
    case 8 => [five, one, one, one]
    case 9 => [one, ten]
  }

  function Hundreds(n: nat): string { Digit(n / 100 % 10, 'C', 'D', 'M') }

  function Tens(n: nat): string { Digit(n / 10 % 10, 'X', 'L', 'C') }

  function Units(n: nat): string { Digit(n % 10, 'I', 'V', 'X') }

  function Places(thousands: int, n: nat): string {
    Repeat("M", thousands) + (Hundreds(n) + (Tens(n) + Units(n)))
  }

  lemma {:induction false} OneStep(i: nat, n: int, letters: string, amount: nat)
    requires i < |NUMERALS| && NUMERALS[i] == (letters, amount) && amount > 0
    ensures RomanFrom(i, n) == Repeat(letters, n / amount) + RomanFrom(i + 1, n % amount)
  {
  }

  lemma {:induction false} DigitPieces(d: nat, one: char, five: char, ten: char)
    requires d < 10
    ensures Repeat([one, ten], if d == 9 then 1 else 0) + Repeat([five], if 5 <= d < 9 then 1 else 0)
          + Repeat([one, five], if d == 4 then 1 else 0)
          + Repeat([one], if d == 9 || d == 4 then 0 else if d >= 5 then d - 5 else d)
         == Digit(d, one, five, ten)
  {
    RepeatOnce([one]);
    RepeatOnce([five]);
    RepeatOnce([one, five]);
    RepeatOnce([one, ten]);
  }

  // The numerals from `i` on are those of one decimal place.
  predicate PlaceAt(i: nat, one: char, five: char, ten: char, unit: nat) {
    && unit > 0 && i + 4 <= |NUMERALS|
    && NUMERALS[i] == ([one, ten], 9 * unit) && NUMERALS[i + 1] == ([five], 5 * unit)
    && NUMERALS[i + 2] == ([one, five], 4 * unit) && NUMERALS[i + 3] == ([one], unit)
  }

  lemma {:induction false} FourUnfoldings(i: nat, n: nat, one: char, five: char, ten: char, unit: nat)
    requires PlaceAt(i, one, five, ten, unit)
    ensures var n1 := n % (9 * unit); var n2 := n1 % (5 * unit); var n3 := n2 % (4 * unit);
      RomanFrom(i, n) ==
        Repeat([one, ten], n / (9 * unit)) + (Repeat([five], n1 / (5 * unit)) +
        (Repeat([one, five], n2 / (4 * unit)) + (Repeat([one], n3 / unit) + RomanFrom(i + 4, n3 % unit))))
  {
    var n1 := n % (9 * unit);
    var n2 := n1 % (5 * unit);
    OneStep(i, n, [one, ten], 9 * unit);
    OneStep(i + 1, n1, [five], 5 * unit);
    OneStep(i + 2, n2, [one, five], 4 * unit);
    OneStep(i + 3, n2 % (4 * unit), [one], unit);
  }

  lemma {:induction false} FourRepeats(i: nat, n: nat, d: nat, r: nat, one: char, five: char, ten: char, unit: nat)
    requires PlaceAt(i, one, five, ten, unit) && d < 10 && r < unit && n == d * unit + r
    ensures RomanFrom(i, n) ==
            Repeat([one, ten], if d == 9 then 1 else 0) + (Repeat([five], if 5 <= d < 9 then 1 else 0) +
            (Repeat([one, five], if d == 4 then 1 else 0) +
            (Repeat([one], if d == 9 || d == 4 then 0 else if d >= 5 then d - 5 else d) + RomanFrom(i + 4, r))))
  {
    FourDivisions(d, r, unit);
    FourUnfoldings(i, n, one, five, ten, unit);
  }

  // One decimal place, `rest` being what the lower ones give.
  lemma {:induction false} AddPlace(i: nat, n: nat, d: nat, r: nat, one: char, five: char, ten: char, unit: nat, rest: string)
    requires PlaceAt(i, one, five, ten, unit) && d < 10 && r < unit && n == d * unit + r
    requires RomanFrom(i + 4, r) == rest
    ensures RomanFrom(i, n) == Digit(d, one, five, ten) + rest
  {
    FourRepeats(i, n, d, r, one, five, ten, unit);
    DigitPieces(d, one, five, ten);
    AssociativeFive(Repeat([one, ten], if d == 9 then 1 else 0), Repeat([five], if 5 <= d < 9 then 1 else 0),
            Repeat([one, five], if d == 4 then 1 else 0),
            Repeat([one], if d == 9 || d == 4 then 0 else if d >= 5 then d - 5 else d), rest);
  }

  // Division by 9, 5, 4 and 1 units in turn, digit by digit.
  lemma {:induction false} FourDivisions(d: nat, r: nat, unit: nat)
    requires unit > 0 && d < 10 && r < unit
    ensures var n := d * unit + r;
            var n1 := n % (9 * unit); var n2 := n1 % (5 * unit); var n3 := n2 % (4 * unit);
      && n / (9 * unit) == (if d == 9 then 1 else 0)
      && n1 / (5 * unit) == (if 5 <= d < 9 then 1 else 0)
      && n2 / (4 * unit) == (if d == 4 then 1 else 0)
      && n3 / unit == (if d == 9 || d == 4 then 0 else if d >= 5 then d - 5 else d)
      && n3 % unit == r
  {
    DivideUnits(d, 9, r, unit);
    DivideUnits(d % 9, 5, r, unit);
    DivideUnits(d % 9 % 5, 4, r, unit);
    DivideUnits(d % 9 % 5 % 4, 1, r, unit);
  }

  lemma {:induction false} DivideUnits(d: nat, k: nat, r: nat, unit: nat)
    requires unit > 0 && k > 0 && r < unit
    ensures k * unit > 0
    ensures (d * unit + r) / (k * unit) == d / k && (d * unit + r) % (k * unit) == d % k * unit + r
  {
    var q, m := d / k, d % k;
    var width, rest := k * unit, m * unit;
    Distribute(q * k, m, unit);
    Regroup3(q, k, unit);
    Multiples(m + 1, k, unit);
    Distribute(m, 1, unit);
    assert d * unit == q * width + rest && rest + unit <= width;
    Divide(d * unit + r, width, q, rest + r);
  }

  lemma {:induction false} Distribute(a: nat, b: nat, unit: nat)
    ensures (a + b) * unit == a * unit + b * unit
  {
  }

  lemma {:induction false} Regroup3(a: nat, b: nat, c: nat)
    ensures a * b * c == a * (b * c)
  {
  }

  lemma {:induction false} PlacesAt()
    ensures PlaceAt(1, 'C', 'D', 'M', 100) && PlaceAt(5, 'X', 'L', 'C', 10) && PlaceAt(9, 'I', 'V', 'X', 1)
  {
  }

  lemma {:induction false} LowerPlaces(m: nat, h: nat, t: nat, u: nat)
    requires h < 10 && t < 10 && u < 10 && m == h * 100 + (t * 10 + u)
    ensures RomanFrom(1, m) == Digit(h, 'C', 'D', 'M') + (Digit(t, 'X', 'L', 'C') + Digit(u, 'I', 'V', 'X'))
  {
    PlacesAt();
    UnitsPlace(u);
    AddPlace(5, t * 10 + u, t, u, 'X', 'L', 'C', 10, Digit(u, 'I', 'V', 'X'));
    AddPlace(1, m, h, t * 10 + u, 'C', 'D', 'M', 100, Digit(t, 'X', 'L', 'C') + Digit(u, 'I', 'V', 'X'));
  }

  lemma {:induction false} UnitsPlace(u: nat)
    requires u < 10
    ensures RomanFrom(9, u) == Digit(u, 'I', 'V', 'X')
  {
    PlacesAt();
    AddPlace(9, u, u, 0, 'I', 'V', 'X', 1, "");
    assert Digit(u, 'I', 'V', 'X') + "" == Digit(u, 'I', 'V', 'X');
  }

  // The numeral has its thousands as Ms, then one group of letters for each decimal digit.
  lemma {:induction false} RomanByPlaces(n: int)
    ensures RomanFrom(0, n) == Places(n / 1000, n % 1000)
  {
    var m := n % 1000;
    PlaceDigits(m);
    LowerPlaces(m, m / 100 % 10, m / 10 % 10, m % 10);
    OneStep(0, n, "M", 1000);
  }

  lemma {:induction false} PlaceDigits(m: nat)
    requires m < 1000
    ensures m == (m / 100 % 10) * 100 + ((m / 10 % 10) * 10 + m % 10)
  {
    var h, t, u := m / 100, m % 100 / 10, m % 100 % 10;
    assert m == h * 100 + t * 10 + u;
    Divide(m, 10, h * 10 + t, u);
    Divide(h * 10 + t, 10, h, t);
    Divide(h, 10, 0, h);
  }

  // ----- Reading back

  lemma {:induction false} ReadCons(c: char, s: string)
    ensures Read([c] + s) == (if LetterValue(c) < FirstValue(s) then 0 - LetterValue(c) else LetterValue(c)) + Read(s)
    ensures FirstValue([c] + s) == LetterValue(c)
  {
    assert ([c] + s)[1..] == s;
  }

  lemma {:induction false} ReadDigit(d: nat, one: char, five: char, ten: char, s: string)
    requires d < 10 && LetterValue(one) > 0
    requires LetterValue(five) == 5 * LetterValue(one) && LetterValue(ten) == 10 * LetterValue(one)
    requires FirstValue(s) < LetterValue(one)
    ensures Read(Digit(d, one, five, ten) + s) == d * LetterValue(one) + Read(s)
    ensures FirstValue(Digit(d, one, five, ten) + s) <= 5 * LetterValue(one)
  {
    DigitForm(d, one, five, ten);
    if d <= 3 {
      ReadUpToThree(d, one, s);
    } else if d == 4 {
      ReadPair(one, five, s);
    } else if d == 9 {
      ReadPair(one, ten, s);
    } else {
      ReadUpToThree(d - 5, one, s);
      ReadCons(five, Ones(d - 5, one) + s);
      Associative([five], Ones(d - 5, one), s);
    }
  }

  lemma {:induction false} DigitForm(d: nat, one: char, five: char, ten: char)
    requires d < 10
    ensures Digit(d, one, five, ten) ==
            if d <= 3 then Ones(d, one) else if d == 4 then [one, five] else if d == 9 then [one, ten]
            else [five] + Ones(d - 5, one)
  {
  }

  function Ones(d: nat, one: char): string
    requires d <= 3
  {
    if d == 0 then "" else if d == 1 then [one] else if d == 2 then [one, one] else [one, one, one]
  }

  lemma {:induction false} ReadUpToThree(d: nat, one: char, s: string)
    requires d <= 3 && FirstValue(s) < LetterValue(one)
    ensures Read(Ones(d, one) + s) == d * LetterValue(one) + Read(s)
    ensures FirstValue(Ones(d, one) + s) <= LetterValue(one)
  {
    var s1 := [one] + s;
    ReadOnes(one, s);
    assert Ones(d, one) + s ==
           if d == 0 then s else if d == 1 then s1 else if d == 2 then [one] + s1 else [one] + ([one] + s1);
  }

  // A letter in front of a greater one.
  lemma {:induction false} ReadPair(one: char, greater: char, s: string)
    requires FirstValue(s) < LetterValue(one) < LetterValue(greater)
    ensures Read([one, greater] + s) == LetterValue(greater) - LetterValue(one) + Read(s)
    ensures FirstValue([one, greater] + s) == LetterValue(one)
  {
    ReadCons(greater, s);
    ReadCons(one, [greater] + s);
    assert [one, greater] + s == [one] + ([greater] + s);
  }

  lemma {:induction false} ReadOnes(one: char, s: string)
    requires FirstValue(s) < LetterValue(one)
    ensures var s1 := [one] + s; var s2 := [one] + s1; var s3 := [one] + s2;
      && Read(s1) == LetterValue(one) + Read(s) && FirstValue(s1) == LetterValue(one)
      && Read(s2) == 2 * LetterValue(one) + Read(s) && FirstValue(s2) == LetterValue(one)
      && Read(s3) == 3 * LetterValue(one) + Read(s) && FirstValue(s3) == LetterValue(one)
  {
    ReadCons(one, s);
    ReadCons(one, [one] + s);
    ReadCons(one, [one] + ([one] + s));
  }

  lemma {:induction false} ReadThousands(k: int, s: string)
    requires FirstValue(s) <= 500
    ensures Read(Repeat("M", k) + s) == (if k <= 0 then 0 else k * 1000) + Read(s)
    ensures FirstValue(Repeat("M", k) + s) <= 1000
    decreases k
  {
    if k <= 0 {
      assert Repeat("M", k) + s == s;
    } else {
      ReadThousands(k - 1, s);
      assert Repeat("M", k) + s == ['M'] + (Repeat("M", k - 1) + s);
      ReadCons('M', Repeat("M", k - 1) + s);
    }
  }

  lemma {:induction false} ReadPlaces(thousands: int, n: nat)
    requires n < 1000
    ensures Read(Places(thousands, n)) == (if thousands <= 0 then 0 else thousands * 1000) + n
  {
    var h, t, u := n / 100 % 10, n / 10 % 10, n % 10;
    assert n == h * 100 + t * 10 + u;
    ReadUnits(u);
    ReadDigit(t, 'X', 'L', 'C', Digit(u, 'I', 'V', 'X'));
    ReadDigit(h, 'C', 'D', 'M', Digit(t, 'X', 'L', 'C') + Digit(u, 'I', 'V', 'X'));
    ReadThousands(thousands, Digit(h, 'C', 'D', 'M') + (Digit(t, 'X', 'L', 'C') + Digit(u, 'I', 'V', 'X')));
  }

  lemma {:induction false} ReadUnits(u: nat)
    requires u < 10
    ensures Read(Digit(u, 'I', 'V', 'X')) == u && FirstValue(Digit(u, 'I', 'V', 'X')) <= 5
  {
    ReadDigit(u, 'I', 'V', 'X', "");
    assert Digit(u, 'I', 'V', 'X') + "" == Digit(u, 'I', 'V', 'X');
  }

  // The numeral of a number reads back as that number exactly when the number is not negative.
  lemma {:induction false} ReadsBack(n: int)
    ensures Read(RomanFrom(0, n)) == n <==> n >= 0
  {
    RomanByPlaces(n);
    PlacesReadBack(RomanFrom(0, n), n);
  }

  lemma {:induction false} PlacesReadBack(s: string, n: int)
    requires s == Places(n / 1000, n % 1000)
    ensures Read(s) == n <==> n >= 0
  {
    ReadPlaces(n / 1000, n % 1000);
  }

  lemma RomanInjective(m: nat, n: nat)
    requires RomanFrom(0, m) == RomanFrom(0, n)
    ensures m == n
  {
    ReadsBack(m);
    ReadsBack(n);
  }

  // ----- Shape

  function Count(c: char, s: string): nat {
    if s == "" then 0 else (if s[0] == c then 1 else 0) + Count(c, s[1..])
  }

  lemma {:induction false} CountConcat(c: char, a: string, b: string)
    ensures Count(c, a + b) == Count(c, a) + Count(c, b)
  {
    if a == "" {
      assert a + b == b;
    } else {
      CountConcat(c, a[1..], b);
      assert (a + b)[1..] == a[1..] + b;
    }
  }

  predicate FourAt(c: char, s: string, i: nat)
    requires i + 3 < |s|
  {
    s[i] == s[i + 1] == s[i + 2] == s[i + 3] == c
  }

  // No four letters `c` in a row.
  predicate NoFour(c: char, s: string) {
    forall i: nat :: i < |s| - 3 ==> !FourAt(c, s, i)
  }

  lemma NoFourConcat(c: char, a: string, b: string)
    requires NoFour(c, a) && NoFour(c, b)
    requires a == "" || b == "" || a[|a| - 1] != c || b[0] != c
    ensures NoFour(c, a + b)
  {
    var s := a + b;
    forall i: nat | i < |s| - 3 ensures !FourAt(c, s, i) {
      if i + 3 < |a| {
        assert FourAt(c, s, i) ==> FourAt(c, a, i);
      } else if i >= |a| {
        assert FourAt(c, s, i) ==> FourAt(c, b, i - |a|);
      } else {
        assert s[|a| - 1] == a[|a| - 1] && s[|a|] == b[0];
      }
    }
  }

  lemma DigitShape(d: nat, one: char, five: char, ten: char)
    requires d < 10 && one != five && one != ten && five != ten
    ensures var s := Digit(d, one, five, ten);
      && |s| <= 4 && (forall i :: 0 <= i < |s| ==> s[i] == one || s[i] == five || s[i] == ten)
      && NoFour(one, s) && NoFour(five, s) && NoFour(ten, s) && (s != "" ==> s[0] != ten)
  {
  }

  lemma CountOnes(c: char, one: char)
    requires c != one
    ensures Count(c, "") == 0 && Count(c, [one]) == 0 && Count(c, [one, one]) == 0 && Count(c, [one, one, one]) == 0
  {
    assert [one][1..] == "" && [one, one][1..] == [one] && [one, one, one][1..] == [one, one];
  }

  lemma {:induction false} DigitCount(d: nat, one: char, five: char, ten: char)
    requires d < 10 && one != five && one != ten && five != ten
    ensures Count(five, Digit(d, one, five, ten)) == if 4 <= d < 9 then 1 else 0
  {
    CountOnes(five, one);
    var s := Digit(d, one, five, ten);
    if s != "" {
      if d == 4 { assert s[1..] == [five] && [five][1..] == ""; }
      if d == 9 { assert s[1..] == [ten] && [ten][1..] == ""; }
      if d == 5 { assert s[1..] == ""; }
      if d == 6 { assert s[1..] == [one]; }
      if d == 7 { assert s[1..] == [one, one]; }
      if d == 8 { assert s[1..] == [one, one, one]; }
    }
  }

  lemma {:induction false} CountOther(c: char, s: string)
    requires forall i :: 0 <= i < |s| ==> s[i] != c
    ensures Count(c, s) == 0 && NoFour(c, s)
  {
    if s != "" { CountOther(c, s[1..]); }
  }

  lemma {:induction false} Thousands(k: int)
    ensures forall i :: 0 <= i < |Repeat("M", k)| ==> Repeat("M", k)[i] == 'M'
    decreases k
  {
    if k > 0 { Thousands(k - 1); }
  }

  // D, L and V occur at most once, C, X and I never four times in a row, and each pair of letters
  // that counts by subtraction occurs at most once.
  lemma {:induction false} RomanShape(n: int)
    ensures var s := RomanFrom(0, n);
      && Count('D', s) <= 1 && Count('L', s) <= 1 && Count('V', s) <= 1
      && NoFour('C', s) && NoFour('X', s) && NoFour('I', s)
      && Pairs('C', 'M', s) <= 1 && Pairs('C', 'D', s) <= 1 && Pairs('X', 'C', s) <= 1
      && Pairs('X', 'L', s) <= 1 && Pairs('I', 'X', s) <= 1 && Pairs('I', 'V', s) <= 1
  {
    Thousands(n / 1000);
    PlacesShape(Repeat("M", n / 1000), n % 1000);
    PlacesPairs(Repeat("M", n / 1000), n % 1000);
    RomanByPlaces(n);
  }

  // How often `a` stands directly before `b`.
  function Pairs(a: char, b: char, s: string): nat {
    if |s| < 2 then 0 else (if s[0] == a && s[1] == b then 1 else 0) + Pairs(a, b, s[1..])
  }

  lemma {:induction false} PairsConcat(a: char, b: char, s: string, t: string)
    ensures Pairs(a, b, s + t) ==
            Pairs(a, b, s) + Pairs(a, b, t) + (if s != "" && t != "" && s[|s| - 1] == a && t[0] == b then 1 else 0)
  {
    if s == "" {
      assert s + t == t;
    } else {
      PairsConcat(a, b, s[1..], t);
      assert (s + t)[1..] == s[1..] + t;
    }
  }

  lemma {:induction false} NoPairs(a: char, b: char, s: string)
    requires (forall i :: 0 <= i < |s| ==> s[i] != a) || (forall i :: 0 <= i < |s| ==> s[i] != b)
    ensures Pairs(a, b, s) == 0
  {
    if |s| >= 2 { NoPairs(a, b, s[1..]); }
  }

  // A pair that can only occur in the middle part occurs as often as there.
  lemma {:induction false} PairsInside(a: char, b: char, x: string, y: string, z: string)
    requires forall i :: 0 <= i < |x| ==> x[i] != a
    requires forall i :: 0 <= i < |z| ==> z[i] != b
    ensures Pairs(a, b, x + (y + z)) == Pairs(a, b, y)
  {
    PairsConcat(a, b, x, y + z);
    PairsConcat(a, b, y, z);
    NoPairs(a, b, x);
    NoPairs(a, b, z);
  }

  lemma {:induction false} DigitPairs(d: nat, one: char, five: char, ten: char)
    requires d < 10 && one != five && one != ten && five != ten
    ensures Pairs(one, five, Digit(d, one, five, ten)) <= 1 && Pairs(one, ten, Digit(d, one, five, ten)) <= 1
  {
    var s := Digit(d, one, five, ten);
    DigitForm(d, one, five, ten);
    if d <= 3 {
      NoPairs(one, five, s);
      NoPairs(one, ten, s);
    } else if d == 4 || d == 9 {
      assert Pairs(one, five, s[1..]) == 0 && Pairs(one, ten, s[1..]) == 0;
    } else {
      NoPairs(one, ten, s);
      PairsConcat(one, five, [five], Ones(d - 5, one));
      NoPairs(one, five, [five]);
      NoPairs(one, five, Ones(d - 5, one));
    }
  }

  lemma {:induction false} PlacesPairs(ms: string, m: nat)
    requires forall i :: 0 <= i < |ms| ==> ms[i] == 'M'
    ensures var s := ms + (Hundreds(m) + (Tens(m) + Units(m)));
      && Pairs('C', 'M', s) <= 1 && Pairs('C', 'D', s) <= 1 && Pairs('X', 'C', s) <= 1
      && Pairs('X', 'L', s) <= 1 && Pairs('I', 'X', s) <= 1 && Pairs('I', 'V', s) <= 1
  {
    var h, t, u := Hundreds(m), Tens(m), Units(m);
    DigitShape(m / 100 % 10, 'C', 'D', 'M');
    DigitShape(m / 10 % 10, 'X', 'L', 'C');
    DigitShape(m % 10, 'I', 'V', 'X');
    DigitPairs(m / 100 % 10, 'C', 'D', 'M');
    DigitPairs(m / 10 % 10, 'X', 'L', 'C');
    DigitPairs(m % 10, 'I', 'V', 'X');
    PairsInside('C', 'M', ms, h, t + u);
    PairsInside('C', 'D', ms, h, t + u);
    AssociativeFour(ms, h, t, u);
    assert u + "" == u;
    PairsInside('X', 'C', ms + h, t, u);
    PairsInside('X', 'L', ms + h, t, u);
    PairsInside('I', 'X', ms + h + t, u, "");
    PairsInside('I', 'V', ms + h + t, u, "");
  }

  lemma {:induction false} PlacesShape(ms: string, m: nat)
    requires forall i :: 0 <= i < |ms| ==> ms[i] == 'M'
    ensures var s := ms + (Hundreds(m) + (Tens(m) + Units(m)));
      && Count('D', s) <= 1 && Count('L', s) <= 1 && Count('V', s) <= 1
      && NoFour('C', s) && NoFour('X', s) && NoFour('I', s)
  {
    var h, t, u := Hundreds(m), Tens(m), Units(m);
    FiveLetter('D', ms, h, t, u, m);
    FiveLetter('L', ms, h, t, u, m);
    FiveLetter('V', ms, h, t, u, m);
    OneLetter('C', ms, h, t, u, m);
    OneLetter('X', ms, h, t, u, m);
    OneLetter('I', ms, h, t, u, m);
  }

  lemma {:induction false} FiveLetter(c: char, ms: string, h: string, t: string, u: string, m: nat)
    requires c == 'D' || c == 'L' || c == 'V'
    requires forall i :: 0 <= i < |ms| ==> ms[i] == 'M'
    requires h == Hundreds(m) && t == Tens(m) && u == Units(m)
    ensures Count(c, ms + (h + (t + u))) <= 1
  {
    CountConcat(c, ms, h + (t + u));
    CountConcat(c, h, t + u);
    CountConcat(c, t, u);
    CountOther(c, ms);
    DigitShape(m / 100 % 10, 'C', 'D', 'M');
    DigitShape(m / 10 % 10, 'X', 'L', 'C');
    DigitShape(m % 10, 'I', 'V', 'X');
    if c == 'D' { DigitCount(m / 100 % 10, 'C', 'D', 'M'); } else { CountOther(c, h); }
    if c == 'L' { DigitCount(m / 10 % 10, 'X', 'L', 'C'); } else { CountOther(c, t); }
    if c == 'V' { DigitCount(m % 10, 'I', 'V', 'X'); } else { CountOther(c, u); }
  }

  lemma {:induction false} OneLetter(c: char, ms: string, h: string, t: string, u: string, m: nat)
    requires c == 'C' || c == 'X' || c == 'I'
    requires forall i :: 0 <= i < |ms| ==> ms[i] == 'M'
    requires h == Hundreds(m) && t == Tens(m) && u == Units(m)
    ensures NoFour(c, ms + (h + (t + u)))
  {
    DigitShape(m / 100 % 10, 'C', 'D', 'M');
    DigitShape(m / 10 % 10, 'X', 'L', 'C');
    DigitShape(m % 10, 'I', 'V', 'X');
    if c != 'C' { CountOther(c, h); }
    if c == 'I' { CountOther(c, t); }
    if c == 'C' { CountOther(c, u); }
    NoFourConcat(c, t, u);
    NoFourConcat(c, h, t + u);
    CountOther(c, ms);
    NoFourConcat(c, ms, h + (t + u));
  }
}
