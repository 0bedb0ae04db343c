/**
 * Python string operations on ASCII letters: lower-casing, lexicographic order, decimal
 * numerals and `int()`. Other characters keep their code points.
 */
module Strings {
  import opened Wrappers

  function LowerChar(c: char): char {
    if 'A' <= c <= 'Z' then (c as int + 32) as char else c
  }

  function Lower(s: string): (r: string)
    ensures |r| == |s|
    ensures forall i :: 0 <= i < |s| ==> r[i] == LowerChar(s[i])
  {
    seq(|s|, i requires 0 <= i < |s| => LowerChar(s[i]))
  }

  lemma LowerConcat(a: string, b: string)
    ensures Lower(a + b) == Lower(a) + Lower(b)
  {
  }

  lemma {:induction false} LowerLetters()
    ensures Lower("ABCDEFGHIJKLMNOPQRSTUVWXYZ") == "abcdefghijklmnopqrstuvwxyz"
  {
  }

  // ----- Order

  // `a < b` on strings.
  predicate Less(a: string, b: string) {
    b != [] && (a == [] || a[0] < b[0] || (a[0] == b[0] && Less(a[1..], b[1..])))
  }

  predicate AtMost(a: string, b: string) {
    a == b || Less(a, b)
  }

  lemma {:induction false} LessTrichotomy(a: string, b: string)
    ensures Less(a, b) || a == b || Less(b, a)
    ensures !(Less(a, b) && Less(b, a)) && !Less(a, a)
  {
    if a != [] {
      if b != [] {
        LessTrichotomy(a[1..], b[1..]);
        assert a == [a[0]] + a[1..] && b == [b[0]] + b[1..];
      }
      LessTrichotomy(a[1..], a[1..]);
    }
  }

  lemma {:induction false} LessTransitive(a: string, b: string, c: string)
    requires Less(a, b) && Less(b, c)
    ensures Less(a, c)
  {
    if a != [] && a[0] == b[0] == c[0] {
      LessTransitive(a[1..], b[1..], c[1..]);
    }
  }

  // Between strings whose heads have the same length, the heads decide first.
  lemma {:induction false} LessByHead(p: string, a: string, q: string, b: string)
    requires |p| == |q|
    ensures Less(p + a, q + b) <==> Less(p, q) || (p == q && Less(a, b))
  {
    if p == [] {
      assert p + a == a && q + b == b;
    } else {
      LessByHead(p[1..], a, q[1..], b);
      assert (p + a)[1..] == p[1..] + a && (q + b)[1..] == q[1..] + b;
      assert p == [p[0]] + p[1..] && q == [q[0]] + q[1..];
    }
  }

  // The first difference decides, and a part at the front comes before the whole.
  lemma {:induction false} LessAtDifference(p: string, c: char, a: string, d: char, b: string)
    ensures c != d ==> (Less(p + ([c] + a), p + ([d] + b)) <==> c < d)
    ensures Less(p, p + ([c] + a))
  {
    if p == "" {
      assert p + ([c] + a) == [c] + a && p + ([d] + b) == [d] + b;
    } else {
      LessAtDifference(p[1..], c, a, d, b);
      assert (p + ([c] + a))[1..] == p[1..] + ([c] + a) && (p + ([d] + b))[1..] == p[1..] + ([d] + b);
    }
  }

  // ----- Decimal numerals

  predicate IsDigit(c: char) {
    '0' <= c <= '9'
  }

  predicate AllDigits(s: string) {
    forall i :: 0 <= i < |s| ==> IsDigit(s[i])
  }

  function DigitChar(d: nat): (c: char)
    requires d < 10
    ensures IsDigit(c) && c as int - '0' as int == d
  {
    (d + '0' as int) as char
  }

  // `str(n)`
  function Decimal(n: nat): (s: string)
    ensures s != [] && AllDigits(s)
  {
    if n < 10 then [DigitChar(n)] else Decimal(n / 10) + [DigitChar(n % 10)]
  }

  function DigitsValue(s: string): nat
    requires AllDigits(s)
  {
    if s == [] then 0 else DigitsValue(s[..|s| - 1]) * 10 + (s[|s| - 1] as int - '0' as int)
  }

  lemma {:induction false} DecimalValue(n: nat)
    ensures DigitsValue(Decimal(n)) == n
  {
    if n >= 10 {
      DecimalValue(n / 10);
      assert Decimal(n)[..|Decimal(n)| - 1] == Decimal(n / 10);
    } else {
      assert Decimal(n)[..0] == [];
    }
  }

  lemma DecimalInjective(m: nat, n: nat)
    requires Decimal(m) == Decimal(n)
    ensures m == n
  {
    DecimalValue(m);
    DecimalValue(n);
  }

  function Power10(k: nat): (p: nat)
    ensures p > 0
  {
    if k == 0 then 1 else 10 * Power10(k - 1)
  }

  lemma {:induction false} DigitsValueBound(s: string)
    requires AllDigits(s)
    ensures DigitsValue(s) < Power10(|s|)
  {
    if s != [] { DigitsValueBound(s[..|s| - 1]); }
  }

  // On digit strings of one length, string order is numeric order.
  lemma {:induction false} SameLengthOrder(a: string, b: string)
    requires AllDigits(a) && AllDigits(b) && |a| == |b|
    ensures Less(a, b) <==> DigitsValue(a) < DigitsValue(b)
    ensures a == b <==> DigitsValue(a) == DigitsValue(b)
    decreases |a|
  {
    if a != [] {
      var n := |a| - 1;
      SameLengthOrder(a[..n], b[..n]);
      LessByHead(a[..n], a[n..], b[..n], b[n..]);
      assert a == a[..n] + a[n..] && b == b[..n] + b[n..];
      assert a[n..] == [a[n]] && b[n..] == [b[n]];
    }
  }

  lemma {:induction false} ConcatFront(a: string, b: string)
    requires b != []
    ensures (a + b)[..|a + b| - 1] == a + b[..|b| - 1] && (a + b)[|a + b| - 1] == b[|b| - 1]
  {
  }

  lemma {:induction false} LastDigit(s: string)
    requires AllDigits(s) && s != []
    ensures DigitsValue(s) == DigitsValue(s[..|s| - 1]) * 10 + (s[|s| - 1] as int - '0' as int)
  {
  }

  lemma {:induction false} Scale(x: int, p: int, y: int, d: int)
    ensures (x * p + y) * 10 + d == x * (10 * p) + (y * 10 + d)
  {
  }

  lemma {:induction false} DigitsValueConcat(a: string, b: string)
    requires AllDigits(a) && AllDigits(b)
    ensures AllDigits(a + b)
    ensures DigitsValue(a + b) == DigitsValue(a) * Power10(|b|) + DigitsValue(b)
    decreases |b|
  {
    if b == [] {
      assert a + b == a;
    } else {
      var n := |b| - 1;
      DigitsValueConcat(a, b[..n]);
      ConcatFront(a, b);
      LastDigit(a + b);
      LastDigit(b);
      Scale(DigitsValue(a), Power10(n), DigitsValue(b[..n]), b[n] as int - '0' as int);
    }
  }

  // ----- `int(s)`

  // Characters Python strips from the ends of a string, and `str.strip()`.
  predicate IsSpace(c: char) {
    || '\t' <= c <= '\r' || c == ' ' || '\U{1c}' <= c <= '\U{1f}' || c == '\U{85}' || c == '\U{a0}'
    || c == '\U{1680}' || '\U{2000}' <= c <= '\U{200a}' || c == '\U{2028}' || c == '\U{2029}'
    || c == '\U{202f}' || c == '\U{205f}' || c == '\U{3000}'
  }

  function StripLeft(s: string): string {
    if s != [] && IsSpace(s[0]) then StripLeft(s[1..]) else s
  }

  function StripRight(s: string): string {
    if s != [] && IsSpace(s[|s| - 1]) then StripRight(s[..|s| - 1]) else s
  }

  function Strip(s: string): string {
    StripRight(StripLeft(s))
  }

  // Digits with single underscores between them, without the underscores.
  function Underscored(s: string): Option<string> {
    if s == [] || !IsDigit(s[0]) then None
    else if |s| == 1 then Some(s)
    else
      match Underscored(if s[1] == '_' then s[2..] else s[1..])
      case None => None
      case Some(rest) => Some([s[0]] + rest)
  }

  lemma UnderscoredDigits(s: string)
    ensures Underscored(s).Some? ==> AllDigits(Underscored(s).value)
  {
  }

  // `int(s)`, or None for its ValueError.
  function ParseInt(s: string): Option<int> {
    var body := Strip(s);
    var negative := body != [] && body[0] == '-';
    var signed := body != [] && (body[0] == '-' || body[0] == '+');
    match Underscored(if signed then body[1..] else body)
    case None => None
    case Some(digits) =>
      UnderscoredDigits(if signed then body[1..] else body);
      var n: int := DigitsValue(digits);
      Some(if negative then -n else n)
  }

  lemma UnderscoredOfDigits(s: string)
    requires AllDigits(s) && s != []
    ensures Underscored(s) == Some(s)
  {
    if |s| > 1 {
      assert s[1] != '_';
      UnderscoredOfDigits(s[1..]);
      assert s == [s[0]] + s[1..];
    }
  }

  lemma ParseDigits(s: string)
    requires AllDigits(s) && s != []
    ensures ParseInt(s) == Some(DigitsValue(s))
  {
    assert IsDigit(s[0]) && IsDigit(s[|s| - 1]);
    assert Strip(s) == s;
    UnderscoredOfDigits(s);
  }

  lemma {:induction false} NoSpaceToStrip(s: string)
    requires s != [] && !IsSpace(s[0]) && !IsSpace(s[|s| - 1])
    ensures Strip(s) == s
  {
  }

  lemma {:induction false} ParseNegative(s: string)
    requires AllDigits(s) && s != []
    ensures ParseInt("-" + s) == Some(0 - DigitsValue(s))
  {
    var body := "-" + s;
    NoSpaceToStrip(body);
    assert body[1..] == s;
    UnderscoredOfDigits(s);
  }

  // Digits may be joined by single underscores, and a sign or spaces around them do no harm.
  lemma {:induction false} ParseForms(a: string, b: string)
    requires AllDigits(a) && AllDigits(b) && a != "" && b != ""
    ensures ParseInt(a + "_" + b) == Some(DigitsValue(a + b))
    ensures ParseInt("+" + a) == Some(DigitsValue(a))
    ensures ParseInt(a + "__" + b) == None && ParseInt("_" + a) == None
  {
    JoinedDigits(a, b);
    NoSpaceToStrip(a + "_" + b);
    NoSpaceToStrip(a + "__" + b);
    NoSpaceToStrip("_" + a);
    NoSpaceToStrip("+" + a);
    assert ("+" + a)[1..] == a;
    UnderscoredOfDigits(a);
  }

  lemma {:induction false} JoinedDigits(a: string, b: string)
    requires AllDigits(a) && AllDigits(b) && a != "" && b != ""
    ensures Underscored(a + "_" + b) == Some(a + b) && Underscored(a + "__" + b) == None
  {
    UnderscoredOfDigits(b);
    var s, t := a + "_" + b, a + "__" + b;
    if |a| == 1 {
      assert s[2..] == b && t[2..] == "_" + b && [a[0]] + b == a + b;
    } else {
      JoinedDigits(a[1..], b);
      assert s[1..] == a[1..] + "_" + b && t[1..] == a[1..] + "__" + b;
      assert s[1] != '_' && t[1] != '_' && [a[0]] + (a[1..] + b) == a + b;
    }
  }

  lemma {:induction false} StripsSpaces(before: string, s: string, after: string)
    requires forall c :: c in before + after ==> IsSpace(c)
    requires s == "" || (!IsSpace(s[0]) && !IsSpace(s[|s| - 1]))
    ensures Strip(before + s + after) == s
    ensures ParseInt(before + s + after) == ParseInt(s)
  {
    StripsLeft(before, s + after);
    assert before + s + after == before + (s + after);
    if s == "" {
      assert forall c :: c in after ==> c in before + after;
      StripsLeft(after, "");
      assert s + after == after + "";
    } else {
      StripsRight(s, after);
      NoSpaceToStrip(s);
    }
  }

  lemma {:induction false} StripsLeft(before: string, s: string)
    ensures (forall c :: c in before ==> IsSpace(c)) ==> StripLeft(before + s) == StripLeft(s)
  {
    if before == "" {
      assert before + s == s;
    } else {
      StripsLeft(before[1..], s);
      assert (before + s)[1..] == before[1..] + s;
      assert before[0] in before && forall c :: c in before[1..] ==> c in before;
    }
  }

  lemma {:induction false} StripsRight(s: string, after: string)
    ensures (forall c :: c in after ==> IsSpace(c)) ==> StripRight(s + after) == StripRight(s)
    decreases |after|
  {
    if after == "" {
      assert s + after == s;
    } else {
      var n := |after| - 1;
      StripsRight(s, after[..n]);
      assert (s + after)[..|s + after| - 1] == s + after[..n];
      assert after[n] in after && forall c :: c in after[..n] ==> c in after;
    }
  }

  // The ASCII characters that count as spaces.
  lemma {:induction false} AsciiSpaces(c: char)
    requires c < '\U{80}'
    ensures IsSpace(c) <==> c in " \t\n\r\U{b}\U{c}\U{1c}\U{1d}\U{1e}\U{1f}"
  {
  }
}
