/** Abbreviating the last page of a range (citeproc/model.py:756-789). */
module PageRange {
  import opened Strings
  import opened Wrappers

  datatype Format = Unset | Expanded | Minimal | MinimalTwo | Chicago | Unknown

  // How many characters the pages share at the front; 1 when one of them is empty, as the code has it.
  function Common(first: string, last: string): nat {
    if first == "" || last == "" then 1 else Shared(first, last)
  }

  function Shared(first: string, last: string): (n: nat)
    ensures n <= |first| && n <= |last|
    ensures first[..n] == last[..n]
    ensures n < |first| && n < |last| ==> first[n] != last[n]
  {
    if first == "" || last == "" || first[0] != last[0] then 0 else 1 + Shared(first[1..], last[1..])
  }

  method FindCommon(first: string, last: string) returns (common: nat)
    ensures common == Common(first, last)
  {
    var count := 0;
    var i := 0;
    while i < |first| && i < |last|
      invariant 0 <= i <= |first| && i <= |last|
      invariant count == if i == 0 then 0 else i - 1
      invariant Shared(first, last) == i + Shared(first[i..], last[i..])
    {
      count := i;
      if first[i] != last[i] { return count; }
      i := i + 1;
    }
    common := count + 1;
  }

  // The first run of digits, `re.search(r"\d+", s)`.
  function DigitRun(s: string): (d: string)
    ensures AllDigits(d)
  {
    if s != "" && IsDigit(s[0]) then [s[0]] + DigitRun(s[1..]) else ""
  }

  function FirstNumber(s: string): Option<nat> {
    if s == "" then None
    else if IsDigit(s[0]) then Some(DigitsValue(DigitRun(s)))
    else FirstNumber(s[1..])
  }

  // The plain format that "chicago" stands for here; None leaves the last page as it is.
  function Resolve(format: Format, first: string, last: string): Option<Format> {
    if format == Chicago then
      match FirstNumber(first)
      case None => None
      case Some(n) =>
        if n < 100 || n % 100 == 0 || (|first| >= 4 && Common(first, last) < 2) then Some(Expanded)
        else if n % 100 < 10 then Some(Minimal)
        else Some(MinimalTwo)
    else Some(format)
  }

  function Min(a: int, b: int): int {
    if a < b then a else b
  }

  // Where a Python slice `s[index:]` starts.
  function SliceStart(s: string, index: int): (start: nat)
    ensures start <= |s|
  {
    if index >= 0 then Min(index, |s|)
    else if |s| + index >= 0 then |s| + index
    else 0
  }

  function Index(format: Format, first: string, last: string): int {
    match format
    case Minimal => Common(first, last)
    case MinimalTwo => Min(Common(first, last), |first| - 2)
    case _ => 0
  }

  // How much is cut off the front of the last page. None stands for the error that any other format raises.
  function Cut(format: Format, first: string, last: string): (cut: Option<nat>)
    ensures cut.Some? ==> cut.value <= |last|
  {
    match Resolve(format, first, last)
    case None => Some(0)
    case Some(Unknown) => None
    case Some(plain) => Some(SliceStart(last, Index(plain, first, last)))
  }

  function LastPage(format: Format, first: string, last: string): Option<string> {
    match Cut(format, first, last)
    case None => None
    case Some(cut) => Some(last[cut..])
  }

  method FormatLastPage(format: Format, first: string, last: string) returns (text: Option<string>)
    ensures text == LastPage(format, first, last)
  {
    var rangeFormat := format;
    var common := FindCommon(first, last);
    if rangeFormat == Chicago {
      var number := FirstNumber(first);
      if number == None { return Some(last); }
      var n := number.value;
      if n < 100 || n % 100 == 0 || (|first| >= 4 && common < 2) {
        rangeFormat := Expanded;
      } else if 1 <= n % 100 < 10 {
        rangeFormat := Minimal;
      } else {
        rangeFormat := MinimalTwo;
      }
    }
    var index: int;
    if rangeFormat == Expanded || rangeFormat == Unset {
      index := 0;
    } else if rangeFormat == Minimal {
      index := common;
    } else if rangeFormat == MinimalTwo {
      index := Min(common, |first| - 2);
    } else {
      return None;
    }
    text := Some(last[SliceStart(last, index)..]);
  }

  // ----- Reading an abbreviated page

  // Put back the leading characters of the first page.
  function Restore(first: string, text: string): string {
    if |text| < |first| then first[..|first| - |text|] + text else text
  }

  // Does the plain format leave all of a last page that is longer than the first page?
  predicate LeavesLonger(plain: Format, first: string, last: string)
    requires |first| < |last|
  {
    match plain
    case Minimal => first != "" && first[0] != last[0]
    case MinimalTwo =>
      if first == "" then |last| <= 2 else |first| == 2 || (|first| > 2 && first[0] != last[0])
    case _ => true
  }

  lemma {:induction false} RestoreSuffix(first: string, last: string, cut: nat)
    requires cut <= |last|
    ensures |first| == |last| ==> (Restore(first, last[cut..]) == last <==> first[..cut] == last[..cut])
    ensures |first| < |last| ==> (Restore(first, last[cut..]) == last <==> cut == 0)
    ensures |first| > |last| ==> Restore(first, last[cut..]) != last
  {
    assert last == last[..cut] + last[cut..];
    if |first| == |last| && cut > 0 {
      var r := Restore(first, last[cut..]);
      assert r[..cut] == first[..cut];
    }
  }

  lemma {:induction false} CutAtMostShared(format: Format, first: string, last: string)
    requires |first| == |last| && Cut(format, first, last).Some?
    ensures Cut(format, first, last).value <= Shared(first, last)
  {
  }

  // The abbreviation can be undone exactly when the pages are equally long, or the last page is
  // the longer one and the format leaves it alone.
  lemma {:induction false} Lossless(format: Format, first: string, last: string)
    requires format != Unknown
    ensures LastPage(format, first, last).Some?
    ensures Restore(first, LastPage(format, first, last).value) == last
       <==> (|first| == |last|
             || (|first| < |last| && (Resolve(format, first, last) == None
                                      || LeavesLonger(Resolve(format, first, last).value, first, last))))
  {
    var cut := Cut(format, first, last).value;
    RestoreSuffix(first, last, cut);
    if |first| == |last| {
      CutAtMostShared(format, first, last);
      SharedPrefix(first, last, cut);
    }
  }

  lemma {:induction false} SharedPrefix(first: string, last: string, k: nat)
    requires k <= Shared(first, last)
    ensures first[..k] == last[..k]
  {
    var n := Shared(first, last);
    assert first[..k] == first[..n][..k] == last[..n][..k];
  }

  // Without abbreviation the last page stays whole; an unknown format fails.
  lemma {:induction false} WholePage(first: string, last: string)
    ensures LastPage(Expanded, first, last) == LastPage(Unset, first, last) == Some(last)
    ensures LastPage(Unknown, first, last) == None
  {
    assert last[0..] == last;
  }

  // `minimal` drops what the pages share, no more.
  lemma {:induction false} MinimalDropsShared(shared: string, a: string, b: string)
    requires shared + a != "" && shared + b != "" && (a == "" || b == "" || a[0] != b[0])
    ensures LastPage(Minimal, shared + a, shared + b) == Some(b)
  {
    SharedConcat(shared, a, b);
    assert (shared + b)[|shared|..] == b;
  }

  // `minimal-two` drops it as well, but leaves the places of the last two characters of the first page.
  lemma {:induction false} MinimalTwoLeavesTwo(shared: string, a: string, b: string)
    requires |shared + a| >= 2 && shared + b != "" && (a == "" || b == "" || a[0] != b[0])
    ensures LastPage(MinimalTwo, shared + a, shared + b) ==
            Some((shared + b)[if |a| >= 2 then |shared| else |shared| + |a| - 2..])
  {
    SharedConcat(shared, a, b);
  }

  lemma {:induction false} SharedConcat(shared: string, a: string, b: string)
    requires a == "" || b == "" || a[0] != b[0]
    ensures Shared(shared + a, shared + b) == |shared|
  {
    if shared == "" {
      assert shared + a == a && shared + b == b;
    } else {
      SharedConcat(shared[1..], a, b);
      assert (shared + a)[1..] == shared[1..] + a && (shared + b)[1..] == shared[1..] + b;
    }
  }

  lemma {:induction false} FirstNumberFound(before: string, digits: string, after: string)
    requires forall c :: c in before ==> !IsDigit(c)
    requires AllDigits(digits) && (after == "" || !IsDigit(after[0]))
    ensures digits != "" ==> FirstNumber(before + digits + after) == Some(DigitsValue(digits))
    ensures FirstNumber(before) == None
  {
    var s := before + digits + after;
    if before == "" {
      assert s == digits + after;
      DigitRunIs(digits, after);
    } else {
      assert before[0] in before && forall c :: c in before[1..] ==> c in before;
      FirstNumberFound(before[1..], digits, after);
      assert s[0] == before[0] && s[1..] == before[1..] + digits + after;
    }
  }

  lemma {:induction false} DigitRunIs(digits: string, after: string)
    requires AllDigits(digits) && (after == "" || !IsDigit(after[0]))
    ensures DigitRun(digits + after) == digits
  {
    if digits == "" {
      assert digits + after == after;
    } else {
      DigitRunIs(digits[1..], after);
      assert (digits + after)[1..] == digits[1..] + after;
    }
  }

  // `chicago` goes by the first number of the first page: whole below 100, at the hundreds, and from
  // four characters on when the pages do not share two; else `minimal` up to 9 over a hundred, and
  // `minimal-two` beyond.
  lemma {:induction false} ChicagoMeans(before: string, digits: string, after: string, last: string)
    requires forall c :: c in before ==> !IsDigit(c)
    requires AllDigits(digits) && digits != "" && (after == "" || !IsDigit(after[0]))
    ensures var first, n := before + digits + after, DigitsValue(digits);
      var whole := n < 100 || n % 100 == 0 || (|first| >= 4 && !(|last| >= 2 && first[..2] == last[..2]));
      LastPage(Chicago, first, last) ==
      if whole then Some(last)
      else if 1 <= n % 100 <= 9 then LastPage(Minimal, first, last)
      else LastPage(MinimalTwo, first, last)
  {
    var first := before + digits + after;
    FirstNumberFound(before, digits, after);
    WholePage(first, last);
    if |first| >= 4 { TwoShared(first, last); }
  }

  lemma {:induction false} TwoShared(first: string, last: string)
    requires |first| >= 2
    ensures Common(first, last) >= 2 <==> |last| >= 2 && first[..2] == last[..2]
  {
    if Shared(first, last) >= 2 { SharedPrefix(first, last, 2); }
    if |last| >= 2 && first[..2] == last[..2] { SharedIsLongest(first, last, 2); }
  }

  lemma {:induction false} ChicagoWithoutNumber(first: string, last: string)
    requires forall c :: c in first ==> !IsDigit(c)
    ensures LastPage(Chicago, first, last) == Some(last)
  {
    FirstNumberFound(first, "", "");
    assert last[0..] == last;
  }

  // `minimal` keeps the shortest ending from which the last page can be restored.
  lemma {:induction false} MinimalIsShortest(first: string, last: string, k: nat)
    requires |first| == |last| && k <= |last| && Restore(first, last[k..]) == last
    ensures |LastPage(Minimal, first, last).value| <= |last[k..]|
  {
    RestoreSuffix(first, last, k);
    SharedIsLongest(first, last, k);
  }

  lemma {:induction false} SharedIsLongest(first: string, last: string, k: nat)
    requires k <= |first| && k <= |last| && first[..k] == last[..k]
    ensures k <= Shared(first, last)
  {
    forall i | 0 <= i < k ensures first[i] == last[i] {
      assert first[i] == first[..k][i] == last[..k][i];
    }
  }

  // `minimal-two` keeps the shortest such ending among those with at least two characters.
  lemma {:induction false} MinimalTwoIsShortest(first: string, last: string, k: nat)
    requires |first| == |last| >= 2
    ensures |LastPage(MinimalTwo, first, last).value| >= 2
    ensures k <= |last| - 2 && Restore(first, last[k..]) == last ==>
              |LastPage(MinimalTwo, first, last).value| <= |last[k..]|
  {
    if k <= |last| - 2 && Restore(first, last[k..]) == last {
      RestoreSuffix(first, last, k);
      SharedIsLongest(first, last, k);
    }
  }

  // A first page of one character makes `minimal-two` count from the wrong end: of a longer last
  // page only one character is left ("5-12" gives "2").
  lemma {:induction false} MinimalTwoFromOneDigit(first: string, last: string)
    requires |first| == 1 && |last| >= 2
    ensures LastPage(MinimalTwo, first, last) == Some([last[|last| - 1]])
    ensures Restore(first, LastPage(MinimalTwo, first, last).value) != last
  {
    assert last[|last| - 1..] == [last[|last| - 1]];
  }
}
