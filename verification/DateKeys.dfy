/**
 * The sort keys of dates and date ranges (citeproc/source/__init__.py:110-155), and how the
 * bibliography comparator orders them. A part that the date lacks counts as 0.
 */
module DateKeys {
  import opened Arithmetic
  import opened Seqs
  import opened SortKeys
  import opened Strings
  import opened Wrappers

  datatype Date = Date(year: int, month: int, day: int)

  datatype When = On(date: Date) | Between(begin: Date, end: Option<Date>)

  function Zeros(n: int): string {
    seq(if n <= 0 then 0 else n, _ => '0')
  }

  // `f"{n:0w}"`: the sign counts towards the width.
  function ZeroPad(n: int, width: nat): string {
    if n < 0 then "-" + Zeros(width - 1 - |Decimal(-n)|) + Decimal(-n)
    else Zeros(width - |Decimal(n)|) + Decimal(n)
  }

  function DateKey(d: Date): string {
    ZeroPad(d.year + 10000, 5) + ZeroPad(d.month, 2) + ZeroPad(d.day, 2)
  }

  function EndOf(w: When): Date
    requires w.Between?
  {
    w.end.GetOr(Date(0, 0, 0))
  }

  function SortKey(w: When): string {
    match w
    case On(d) => DateKey(d)
    case Between(begin, _) => DateKey(begin) + "-" + DateKey(EndOf(w))
  }

  // ----- Chronological order

  function CompareDates(a: Date, b: Date): int {
    if a.year != b.year then CompareInts(a.year, b.year)
    else if a.month != b.month then CompareInts(a.month, b.month)
    else CompareInts(a.day, b.day)
  }

  function Begin(w: When): Date {
    match w
    case On(d) => d
    case Between(begin, _) => begin
  }

  // By beginning; a single date comes before the ranges that begin with it; those go by their end.
  function CompareWhens(a: When, b: When): int {
    var c := CompareDates(Begin(a), Begin(b));
    if c != 0 then c
    else if a.On? && b.On? then 0
    else if a.On? then -1
    else if b.On? then 1
    else CompareDates(EndOf(a), EndOf(b))
  }

  predicate Parts(d: Date) {
    0 <= d.month <= 99 && 0 <= d.day <= 99
  }

  // Years whose key has five digits.
  predicate InRange(d: Date) {
    -10000 <= d.year <= 89999 && Parts(d)
  }

  predicate WhenInRange(w: When) {
    InRange(Begin(w)) && (w.Between? ==> InRange(EndOf(w)))
  }

  // ----- Padded numerals

  lemma {:induction false} ZerosAreDigits(n: int, s: string)
    requires AllDigits(s)
    ensures AllDigits(Zeros(n)) && |Zeros(n)| == (if n <= 0 then 0 else n)
    ensures AllDigits(Zeros(n) + s) && DigitsValue(Zeros(n) + s) == DigitsValue(s)
  {
    if n > 0 {
      ZerosAreDigits(n - 1, s);
      DigitsValueConcat("0", Zeros(n - 1) + s);
      assert Zeros(n) == "0" + Zeros(n - 1);
      assert "0" + (Zeros(n - 1) + s) == Zeros(n) + s;
      assert "0"[..0] == "" && DigitsValue("0") == 0;
    } else {
      assert Zeros(n) + s == s;
    }
  }

  lemma {:induction false} DecimalLength(n: nat, width: nat)
    requires width > 0 && n < Power10(width)
    ensures |Decimal(n)| <= width
  {
    if n >= 10 {
      assert Power10(1) == 10 * Power10(0) == 10;
      assert n / 10 < Power10(width - 1);
      DecimalLength(n / 10, width - 1);
    }
  }

  lemma {:induction false} ZeroPadDigits(n: nat, width: nat)
    ensures var s := ZeroPad(n, width); s != [] && AllDigits(s) && DigitsValue(s) == n
    ensures width > 0 && n < Power10(width) ==> |ZeroPad(n, width)| == width
  {
    ZerosAreDigits(width - |Decimal(n)|, Decimal(n));
    DecimalValue(n);
    if width > 0 && n < Power10(width) { DecimalLength(n, width); }
  }

  lemma {:induction false} Powers()
    ensures Power10(2) == 100 && Power10(4) == 10000 && Power10(5) == 100000
  {
    assert Power10(0) == 1 && Power10(1) == 10 && Power10(2) == 100 && Power10(3) == 1000;
  }

  // The key of a date from year -10000 on is a numeral with the date's parts as its digits.
  lemma {:induction false} DateKeyValue(d: Date)
    requires d.year >= -10000 && Parts(d)
    ensures DateKey(d) != [] && AllDigits(DateKey(d))
    ensures DigitsValue(DateKey(d)) == (d.year + 10000) * 10000 + d.month * 100 + d.day
    ensures InRange(d) ==> |DateKey(d)| == 9
  {
    Powers();
    ZeroPadDigits(d.year + 10000, 5);
    ZeroPadDigits(d.month, 2);
    ZeroPadDigits(d.day, 2);
    var y, m, t := ZeroPad(d.year + 10000, 5), ZeroPad(d.month, 2), ZeroPad(d.day, 2);
    ThreeNumerals(y, m, t);
  }

  lemma {:induction false} DatesByValue(a: Date, b: Date)
    requires a.year >= -10000 && b.year >= -10000 && Parts(a) && Parts(b)
    ensures CompareDates(a, b) ==
            CompareInts((a.year + 10000) * 10000 + a.month * 100 + a.day,
                        (b.year + 10000) * 10000 + b.month * 100 + b.day)
    ensures CompareDates(a, b) == 0 <==> a == b
  {
  }

  lemma {:induction false} LowerOfKey(s: string)
    requires forall i :: 0 <= i < |s| ==> IsDigit(s[i]) || s[i] == '-'
    ensures Lower(s) == s
  {
  }

  // What `int` reads from a date's key: the number counts backwards before the year -10000.
  function KeyNumber(d: Date): int {
    if d.year >= -10000 then (d.year + 10000) * 10000 + d.month * 100 + d.day
    else -(-(d.year + 10000) * 10000 + d.month * 100 + d.day)
  }

  lemma {:induction false} ThreeNumerals(y: string, m: string, t: string)
    requires AllDigits(y) && AllDigits(m) && AllDigits(t) && |m| == |t| == 2
    ensures AllDigits(y + m + t)
    ensures DigitsValue(y + m + t) == DigitsValue(y) * 10000 + DigitsValue(m) * 100 + DigitsValue(t)
  {
    Powers();
    DigitsValueConcat(y, m);
    DigitsValueConcat(y + m, t);
  }

  lemma {:induction false} NegativePad(n: int, width: nat) returns (digits: string)
    requires n < 0
    ensures ZeroPad(n, width) == "-" + digits
    ensures AllDigits(digits) && digits != [] && DigitsValue(digits) == -n
  {
    var z := width - 1 - |Decimal(-n)|;
    ZerosAreDigits(z, Decimal(-n));
    DecimalValue(-n);
    digits := Zeros(z) + Decimal(-n);
    Associative("-", Zeros(z), Decimal(-n));
  }

  lemma {:induction false} EarlyDateKey(d: Date) returns (digits: string)
    requires Parts(d) && d.year < -10000
    ensures DateKey(d) == "-" + digits && AllDigits(digits) && digits != []
    ensures DigitsValue(digits) == -(d.year + 10000) * 10000 + d.month * 100 + d.day
  {
    Powers();
    var m, t := ZeroPad(d.month, 2), ZeroPad(d.day, 2);
    var y := NegativePad(d.year + 10000, 5);
    ZeroPadDigits(d.month, 2);
    ZeroPadDigits(d.day, 2);
    ThreeNumerals(y, m, t);
    digits := y + m + t;
    assert ("-" + y) + m + t == "-" + (y + m + t);
  }

  // A plain numeral of `n`: digits, with a minus sign when it counts backwards.
  predicate Numeral(s: string, n: int) {
    if s != [] && s[0] == '-' then s[1..] != [] && AllDigits(s[1..]) && n == 0 - DigitsValue(s[1..])
    else s != [] && AllDigits(s) && n == DigitsValue(s)
  }

  lemma {:induction false} DateKeyNumeral(d: Date)
    requires Parts(d)
    ensures Numeral(DateKey(d), KeyNumber(d))
  {
    if d.year >= -10000 {
      DateKeyValue(d);
    } else {
      var digits := EarlyDateKey(d);
      assert ("-" + digits)[1..] == digits;
    }
  }

  lemma {:induction false} NumeralReads(s: string, n: int)
    requires Numeral(s, n)
    ensures Lower(s) == s && ParseInt(s) == Some(n)
  {
    LowerOfKey(s);
    if s[0] == '-' {
      ParseNegative(s[1..]);
      assert s == "-" + s[1..];
    } else {
      ParseDigits(s);
    }
  }

  lemma {:induction false} NumeralsCompare(a: string, m: int, b: string, n: int)
    requires Numeral(a, m) && Numeral(b, n)
    ensures ComparePresent(a, b) == CompareInts(m, n)
  {
    NumeralReads(a, m);
    NumeralReads(b, n);
  }

  // Single dates compare chronologically except for two days of one year before -10000.
  lemma {:induction false} DatesInOrder(a: Date, b: Date)
    requires Parts(a) && Parts(b)
    ensures ComparePresent(DateKey(a), DateKey(b)) == CompareDates(a, b)
       <==> a.year != b.year || a.year >= -10000 || a == b
  {
    DateKeyNumeral(a);
    DateKeyNumeral(b);
    NumeralsCompare(DateKey(a), KeyNumber(a), DateKey(b), KeyNumber(b));
  }

  // ----- Keys as text

  function Magnitude(d: Date): nat {
    if KeyNumber(d) >= 0 then KeyNumber(d) else 0 - KeyNumber(d)
  }

  function Width(d: Date): nat {
    |DateKey(d)|
  }

  // The key with fewer digits comes first as text: its number is at most what the longer one begins with.
  predicate ShorterFirst(shorter: Date, longer: Date)
    requires Width(shorter) < Width(longer)
  {
    Magnitude(shorter) <= Magnitude(longer) / Power10(Width(longer) - Width(shorter))
  }

  // When text order of the keys is chronological order.
  predicate TextInOrder(a: Date, b: Date) {
    if a.year >= -10000 && b.year >= -10000 then
      (Width(a) < Width(b) ==> ShorterFirst(a, b)) && (Width(b) < Width(a) ==> ShorterFirst(b, a))
    else if a.year < -10000 && b.year < -10000 then
      || a.year == b.year
      || (Width(a) < Width(b) && !ShorterFirst(a, b))
      || (Width(b) < Width(a) && !ShorterFirst(b, a))
    else true
  }

  predicate Early(d: Date) {
    d.year < -10000
  }

  lemma {:induction false} KeyDigits(d: Date) returns (digits: string)
    requires Parts(d)
    ensures DateKey(d) == if Early(d) then "-" + digits else digits
    ensures digits != [] && AllDigits(digits) && DigitsValue(digits) == Magnitude(d)
  {
    if Early(d) {
      digits := EarlyDateKey(d);
    } else {
      DateKeyValue(d);
      digits := DateKey(d);
    }
  }

  lemma {:induction false} DecimalMonotone(m: nat, n: nat)
    requires m <= n
    ensures |Decimal(m)| <= |Decimal(n)|
  {
    if m >= 10 { DecimalMonotone(m / 10, n / 10); }
  }

  lemma {:induction false} PadLength(n: int, width: nat)
    ensures |ZeroPad(n, width)| ==
            if n < 0 then 1 + Larger(width - 1, |Decimal(-n)|) else Larger(width, |Decimal(n)|)
  {
  }

  function Larger(a: int, b: int): int {
    if a < b then b else a
  }

  // A longer key on the same side of the year -10000 belongs to a year further from it.
  lemma {:induction false} LongerIsFurther(a: Date, b: Date)
    requires Parts(a) && Parts(b) && Early(a) == Early(b) && Width(a) < Width(b)
    ensures if Early(a) then b.year < a.year else a.year < b.year
  {
    Powers();
    ZeroPadDigits(a.month, 2);
    ZeroPadDigits(a.day, 2);
    ZeroPadDigits(b.month, 2);
    ZeroPadDigits(b.day, 2);
    PadsGrow(a.year + 10000, b.year + 10000);
  }

  lemma {:induction false} PadsGrow(m: int, n: int)
    requires (m < 0) == (n < 0) && |ZeroPad(m, 5)| < |ZeroPad(n, 5)|
    ensures if m < 0 then n < m else m < n
  {
    PadLength(m, 5);
    PadLength(n, 5);
    if m < 0 {
      if m <= n { DecimalMonotone(-n, -m); }
    } else {
      if n <= m { DecimalMonotone(n, m); }
    }
  }

  // A digit string against a longer one.
  lemma {:induction false} ShorterDigits(p: string, q: string)
    requires AllDigits(p) && AllDigits(q) && |p| < |q|
    ensures CompareStrings(p, q) == if DigitsValue(p) <= DigitsValue(q) / Power10(|q| - |p|) then -1 else 1
  {
    var head, rest := q[..|p|], q[|p|..];
    assert q == head + rest && p == p + "";
    DigitsValueConcat(head, rest);
    DigitsValueBound(rest);
    Divide(DigitsValue(q), Power10(|rest|), DigitsValue(head), DigitsValue(rest));
    SameLengthOrder(p, head);
    LessByHead(p, "", head, rest);
    CompareStringsLaws(p, q);
  }

  // How the numerals of `m`, with `i` characters, and of `n`, with `j`, compare as text.
  function TextRank(m: nat, i: nat, n: nat, j: nat): int {
    if i < j then if m <= n / Power10(j - i) then -1 else 1
    else if j < i then if n <= m / Power10(i - j) then 1 else -1
    else CompareInts(m, n)
  }

  lemma {:induction false} DigitTexts(p: string, q: string)
    requires AllDigits(p) && AllDigits(q)
    ensures CompareStrings(p, q) == TextRank(DigitsValue(p), |p|, DigitsValue(q), |q|)
  {
    CompareStringsLaws(p, q);
    if |p| < |q| {
      ShorterDigits(p, q);
    } else if |q| < |p| {
      ShorterDigits(q, p);
    } else {
      SameLengthOrder(p, q);
      SameLengthOrder(q, p);
    }
  }

  // Two keys on the same side of the year -10000, as text.
  lemma {:induction false} SameSideText(a: Date, b: Date)
    requires Parts(a) && Parts(b) && Early(a) == Early(b)
    ensures CompareStrings(DateKey(a), DateKey(b)) == TextRank(Magnitude(a), Width(a), Magnitude(b), Width(b))
  {
    var p := KeyDigits(a);
    var q := KeyDigits(b);
    MinusSigns(p, q);
    DigitTexts(p, q);
    RankShift(Magnitude(a), |p|, Magnitude(b), |q|);
  }

  lemma {:induction false} RankShift(m: nat, i: nat, n: nat, j: nat)
    ensures TextRank(m, i + 1, n, j + 1) == TextRank(m, i, n, j)
  {
  }

  lemma {:induction false} MinusSigns(p: string, q: string)
    ensures CompareStrings("-" + p, "-" + q) == CompareStrings(p, q)
  {
    CompareByHead("-", p, "-", q);
    CompareStringsLaws("-", "-");
  }

  lemma {:induction false} OtherSideText(a: Date, b: Date)
    requires Parts(a) && Parts(b) && !Early(a) && Early(b)
    ensures CompareStrings(DateKey(a), DateKey(b)) == 1 && CompareStrings(DateKey(b), DateKey(a)) == -1
  {
    var p := KeyDigits(a);
    var q := KeyDigits(b);
    assert Less("-" + q, p);
    CompareStringsLaws(DateKey(a), DateKey(b));
  }

  lemma {:induction false} EarlyByMagnitude(a: Date, b: Date)
    requires Parts(a) && Parts(b) && Early(a) && Early(b)
    ensures CompareInts(Magnitude(a), Magnitude(b)) ==
            if a.year == b.year then CompareDates(a, b) else 0 - CompareDates(a, b)
  {
  }

  // For all years: text order of two keys is chronological order exactly under that condition, and
  // different dates have different keys.
  lemma {:induction false} DateTextInOrder(a: Date, b: Date)
    requires Parts(a) && Parts(b)
    ensures CompareStrings(DateKey(a), DateKey(b)) == CompareDates(a, b) <==> TextInOrder(a, b)
    ensures CompareStrings(DateKey(a), DateKey(b)) == 0 <==> a == b
  {
    if Early(a) != Early(b) {
      if Early(b) { OtherSideText(a, b); } else { OtherSideText(b, a); }
    } else {
      SameSideText(a, b);
      if Width(a) < Width(b) {
        LongerIsFurther(a, b);
      } else if Width(b) < Width(a) {
        LongerIsFurther(b, a);
      } else if Early(a) {
        EarlyByMagnitude(a, b);
      } else {
        DatesByValue(a, b);
      }
    }
  }

  // In the years whose keys have nine digits it always holds.
  lemma {:induction false} DateStringsInOrder(a: Date, b: Date)
    requires InRange(a) && InRange(b)
    ensures CompareStrings(DateKey(a), DateKey(b)) == CompareDates(a, b)
    ensures DateKey(a) == DateKey(b) <==> a == b
  {
    DateKeyValue(a);
    DateKeyValue(b);
    DateTextInOrder(a, b);
    CompareStringsLaws(DateKey(a), DateKey(b));
  }

  // ----- Ranges

  lemma {:induction false} NotAnInt(a: string, b: string)
    requires AllDigits(a)
    ensures Underscored(a + "-" + b) == None
  {
    var s := a + "-" + b;
    if a == [] {
      assert s[0] == '-';
    } else {
      NotAnInt(a[1..], b);
      assert s[1..] == a[1..] + "-" + b;
      assert s[1] != '_';
    }
  }

  // Two numerals, of whatever sign, with a hyphen between them do not read as an integer.
  lemma {:induction false} TwoNumeralsText(k: string, m: int, e: string, n: int)
    requires Numeral(k, m) && Numeral(e, n)
    ensures ParseInt(k + "-" + e) == None && Lower(k + "-" + e) == k + "-" + e
  {
    var s := k + "-" + e;
    assert s[0] == k[0] && IsDigit(e[|e| - 1]) && s[|s| - 1] == e[|e| - 1];
    assert Strip(s) == s;
    if k[0] == '-' {
      NotAnInt(k[1..], e);
      assert s[1..] == k[1..] + "-" + e;
    } else {
      NotAnInt(k, e);
    }
    LowerOfKey(s);
  }

  function Tail(w: When): string {
    if w.On? then "" else "-" + DateKey(EndOf(w))
  }

  predicate WhenParts(w: When) {
    Parts(Begin(w)) && (w.Between? ==> Parts(EndOf(w)))
  }

  lemma {:induction false} CompareByHead(p: string, s: string, q: string, t: string)
    requires |p| == |q|
    ensures CompareStrings(p + s, q + t) == if CompareStrings(p, q) != 0 then CompareStrings(p, q) else CompareStrings(s, t)
  {
    LessByHead(p, s, q, t);
    LessByHead(q, t, p, s);
    CompareStringsLaws(p, q);
  }

  lemma {:induction false} KeyText(w: When)
    requires WhenParts(w)
    ensures SortKey(w) == DateKey(Begin(w)) + Tail(w)
  {
    if w.Between? {
      Associative(DateKey(Begin(w)), "-", DateKey(EndOf(w)));
    } else {
      assert DateKey(Begin(w)) + "" == DateKey(Begin(w));
    }
  }

  // When one side is a range the keys are compared as text, just as they stand.
  lemma {:induction false} ComparedAsText(a: When, b: When)
    requires WhenParts(a) && WhenParts(b) && (a.Between? || b.Between?)
    ensures ComparePresent(SortKey(a), SortKey(b)) == CompareStrings(SortKey(a), SortKey(b))
  {
    KeyReads(a);
    KeyReads(b);
  }

  lemma {:induction false} KeyReads(w: When)
    requires WhenParts(w)
    ensures Lower(SortKey(w)) == SortKey(w)
    ensures w.Between? ==> ParseInt(SortKey(w)) == None
  {
    DateKeyNumeral(Begin(w));
    if w.Between? {
      DateKeyNumeral(EndOf(w));
      TwoNumeralsText(DateKey(w.begin), KeyNumber(w.begin), DateKey(EndOf(w)), KeyNumber(EndOf(w)));
    } else {
      NumeralReads(DateKey(w.date), KeyNumber(w.date));
    }
  }

  // What follows the beginning's key does not matter when the beginnings differ.
  lemma {:induction false} HeadsDecide(p: string, m: int, s: string, q: string, n: int, t: string)
    requires Numeral(p, m) && Numeral(q, n) && p != q
    requires (s == "" || s[0] == '-') && (t == "" || t[0] == '-')
    ensures CompareStrings(p + s, q + t) == CompareStrings(p, q)
  {
    if |p| <= |q| {
      ShortHeadDecides(p, s, q, t);
    } else {
      ShortHeadDecides(q, t, p, s);
      CompareStringsLaws(p, q);
      CompareStringsLaws(p + s, q + t);
    }
  }

  lemma {:induction false} ShortHeadDecides(p: string, s: string, q: string, t: string)
    requires 0 < |p| <= |q| && p != q && (s == "" || s[0] == '-')
    requires forall i :: 0 < i < |q| ==> IsDigit(q[i])
    ensures CompareStrings(p + s, q + t) == CompareStrings(p, q)
  {
    var head, rest := q[..|p|], q[|p|..];
    assert q == head + rest && p == p + "";
    assert q + t == head + (rest + t);
    CompareByHead(p, s, head, rest + t);
    CompareByHead(p, "", head, rest);
    CompareStringsLaws(p, head);
    if p == head {
      assert rest != "" && (rest + t)[0] == rest[0] == q[|p|];
      assert Less(s, rest + t) && Less("", rest);
    }
  }

  lemma {:induction false} TailsCompare(a: When, b: When)
    requires a.Between? || b.Between?
    ensures CompareStrings(Tail(a), Tail(b)) ==
            if a.On? then -1 else if b.On? then 1 else CompareStrings(DateKey(EndOf(a)), DateKey(EndOf(b)))
  {
    if a.Between? && b.Between? {
      CompareByHead("-", DateKey(EndOf(a)), "-", DateKey(EndOf(b)));
      CompareStringsLaws("-", "-");
    }
  }

  // A range without an end ends, for sorting, in the year 0.
  lemma {:induction false} OpenRangeKey(begin: Date)
    ensures SortKey(Between(begin, None)) == DateKey(begin) + "-" + "100000000"
  {
    Powers();
    DecimalOf10000();
    assert Decimal(0) == "0" && Zeros(1) == "0" && Zeros(0) == "";
    assert ZeroPad(0, 2) == "00";
  }

  lemma {:induction false} DecimalOf10000()
    ensures Decimal(10000) == "10000" && ZeroPad(10000, 5) == "10000"
  {
    assert Decimal(10) == "10" && Decimal(100) == "100" && Decimal(1000) == "1000";
    assert Zeros(0) == "";
  }

  // When the comparator puts two dates or ranges in chronological order.
  predicate KeysInOrder(a: When, b: When) {
    if a.On? && b.On? then a.date.year != b.date.year || a.date.year >= -10000 || a == b
    else if Begin(a) != Begin(b) then TextInOrder(Begin(a), Begin(b))
    else a.On? || b.On? || TextInOrder(EndOf(a), EndOf(b))
  }

  // For all years, before and after the nine-digit ones, the comparator is chronological exactly then.
  lemma {:induction false} WhensInOrderExactly(a: When, b: When)
    requires WhenParts(a) && WhenParts(b)
    ensures ComparePresent(SortKey(a), SortKey(b)) == CompareWhens(a, b) <==> KeysInOrder(a, b)
  {
    if a.On? && b.On? {
      DatesInOrder(a.date, b.date);
    } else {
      TextsInOrder(a, b);
    }
  }

  lemma {:induction false} TextsInOrder(a: When, b: When)
    requires WhenParts(a) && WhenParts(b) && (a.Between? || b.Between?)
    ensures ComparePresent(SortKey(a), SortKey(b)) == CompareWhens(a, b) <==> KeysInOrder(a, b)
  {
    var p, q := DateKey(Begin(a)), DateKey(Begin(b));
    ComparedAsText(a, b);
    KeyText(a);
    KeyText(b);
    DateTextInOrder(Begin(a), Begin(b));
    CompareStringsLaws(p, q);
    if Begin(a) == Begin(b) {
      CompareByHead(p, Tail(a), q, Tail(b));
      TailsCompare(a, b);
      if a.Between? && b.Between? { DateTextInOrder(EndOf(a), EndOf(b)); }
    } else {
      DateKeyNumeral(Begin(a));
      DateKeyNumeral(Begin(b));
      HeadsDecide(p, KeyNumber(Begin(a)), Tail(a), q, KeyNumber(Begin(b)), Tail(b));
      DifferentBeginnings(a, b);
    }
  }

  lemma {:induction false} DifferentBeginnings(a: When, b: When)
    requires Begin(a) != Begin(b)
    ensures CompareWhens(a, b) == CompareDates(Begin(a), Begin(b)) != 0
  {
  }

  // A column may mix dates and ranges: in the years whose keys have nine digits the comparator orders
  // it chronologically even though a range does not read as an integer.
  lemma {:induction false} WhensInOrder(a: When, b: When)
    requires WhenInRange(a) && WhenInRange(b)
    ensures ComparePresent(SortKey(a), SortKey(b)) == CompareWhens(a, b)
  {
    NineDigits(a);
    NineDigits(b);
    WhensInOrderExactly(a, b);
  }

  lemma {:induction false} NineDigits(w: When)
    requires WhenInRange(w)
    ensures Width(Begin(w)) == 9 && (w.Between? ==> Width(EndOf(w)) == 9)
  {
    DateKeyValue(Begin(w));
    if w.Between? { DateKeyValue(EndOf(w)); }
  }

  lemma {:induction false} CompareWhensTransitive(a: When, b: When, c: When)
    requires CompareWhens(a, b) <= 0 && CompareWhens(b, c) <= 0
    ensures CompareWhens(a, c) <= 0
  {
  }

  // So such a column never makes the comparator inconsistent.
  lemma {:induction false} DateColumnConsistent(whens: set<When>)
    requires forall w :: w in whens ==> WhenInRange(w)
    ensures NoStraddle(set w | w in whens :: SortKey(w))
  {
    var keys := set w | w in whens :: SortKey(w);
    forall x, y, z | x in keys && y in keys && z in keys
                     && ComparePresent(x, y) <= 0 && ComparePresent(y, z) <= 0
      ensures ComparePresent(x, z) <= 0
    {
      var a: When, b: When, c: When :| a in whens && b in whens && c in whens
                                       && SortKey(a) == x && SortKey(b) == y && SortKey(c) == z;
      WhensInOrder(a, b);
      WhensInOrder(b, c);
      WhensInOrder(a, c);
      CompareWhensTransitive(a, b, c);
    }
    ColumnTransitivity(keys);
  }

  // Beyond them a mixed column goes wrong exactly when the date's number begins with less than that
  // of the earlier range.
  lemma {:induction false} FarYearsMisplaced(far: Date, near: When)
    requires far.year >= 90000 && Parts(far) && near.Between? && WhenInRange(near)
    ensures Width(far) > 9
    ensures ComparePresent(SortKey(On(far)), SortKey(near)) == CompareWhens(On(far), near)
       <==> KeyNumber(far) / Power10(Width(far) - 9) >= KeyNumber(near.begin)
  {
    FarWidth(far);
    FarInOrder(far, near);
    WhensInOrderExactly(On(far), near);
  }

  lemma {:induction false} FarInOrder(far: Date, near: When)
    requires far.year >= 90000 && Parts(far) && near.Between? && WhenInRange(near) && Width(far) > 9
    ensures KeysInOrder(On(far), near) <==> KeyNumber(far) / Power10(Width(far) - 9) >= KeyNumber(near.begin)
  {
    NineDigits(near);
    FarFirst(far, near.begin);
  }

  lemma {:induction false} FarFirst(far: Date, begin: Date)
    requires far.year >= 90000 && Parts(far) && InRange(begin) && Width(far) > 9 == Width(begin)
    ensures TextInOrder(far, begin) <==> KeyNumber(far) / Power10(Width(far) - 9) >= KeyNumber(begin)
  {
  }

  lemma {:induction false} FarWidth(far: Date)
    requires far.year >= 90000 && Parts(far)
    ensures Width(far) > 9
  {
    DateKeyValue(far);
    Powers();
    DigitsValueBound(DateKey(far));
    PowerMonotone(Width(far), 9);
    assert Power10(9) == 100000 * Power10(4) by { assert Power10(9) == 10000 * Power10(5); }
  }

  lemma {:induction false} PowerMonotone(j: nat, k: nat)
    ensures j <= k ==> Power10(j) <= Power10(k)
    decreases k
  {
    if j < k { PowerMonotone(j, k - 1); }
  }

  // The first date past the nine-digit years, and a range that begins in the year 1.
  lemma {:induction false} FirstFarYear()
    ensures var far, near := On(Date(90000, 0, 0)), Between(Date(1, 1, 1), None);
            ComparePresent(SortKey(far), SortKey(near)) != CompareWhens(far, near)
  {
    var far, near := Date(90000, 0, 0), Between(Date(1, 1, 1), None);
    FirstFarWidth();
    FirstFarNumber();
    FarYearsMisplaced(far, near);
  }

  lemma {:induction false} FirstFarNumber()
    ensures KeyNumber(Date(90000, 0, 0)) / Power10(1) < KeyNumber(Date(1, 1, 1))
  {
    assert Power10(1) == 10 * Power10(0) == 10;
  }

  lemma {:induction false} FirstFarWidth()
    ensures Width(Date(90000, 0, 0)) == 10
  {
    FarWidth(Date(90000, 0, 0));
    Powers();
    ZeroPadDigits(0, 2);
    PadLength(100000, 5);
    DecimalLength(100000, 6);
  }
}
