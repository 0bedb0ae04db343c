/**
 * Reserved terms as plain text (cilogon/reserved_usernames.py:107-142): parsing pasted text and
 * rendering the list back. A Python dict of terms is its list of items, in insertion order.
 */
module ReservedTerms {
  import opened Strings
  import opened Wrappers

  type Term = (string, string)

  // The characters `str.splitlines` breaks at.
  predicate IsBreak(c: char) {
    '\n' <= c <= '\r' || '\U{1c}' <= c <= '\U{1e}' || c == '\U{85}' || c == '\U{2028}' || c == '\U{2029}'
  }

  predicate Unbroken(s: string) {
    forall i :: 0 <= i < |s| ==> !IsBreak(s[i])
  }

  // The length of the first line.
  function LineLength(s: string): (n: nat)
    ensures n <= |s| && Unbroken(s[..n]) && (n < |s| ==> IsBreak(s[n]))
  {
    if s == "" || IsBreak(s[0]) then 0
    else
      var n := 1 + LineLength(s[1..]);
      assert s[..n] == [s[0]] + s[1..][..n - 1];
      n
  }

  // `str.splitlines`; a carriage return and a line feed together are one break.
  function SplitLines(s: string): (lines: seq<string>)
    ensures forall i :: 0 <= i < |lines| ==> Unbroken(lines[i])
  {
    if s == "" then []
    else
      var n := LineLength(s);
      if n == |s| then [s]
      else
        var skip := if s[n] == '\r' && n + 1 < |s| && s[n + 1] == '\n' then 2 else 1;
        [s[..n]] + SplitLines(s[n + skip..])
  }

  // Where the first `|` is; |s| when there is none.
  function BarIndex(s: string): (n: nat)
    ensures n <= |s| && (n < |s| ==> s[n] == '|')
    ensures forall i :: 0 <= i < n ==> s[i] != '|'
  {
    if s == "" || s[0] == '|' then 0 else 1 + BarIndex(s[1..])
  }

  // One line: a term, or None for a blank line, a comment or a line without a pattern.
  function ParseLine(line: string): Option<Term> {
    var stripped := Strip(line);
    if stripped == "" || stripped[0] == '#' then None
    else
      var bar := BarIndex(stripped);
      var pattern := Strip(stripped[..bar]);
      if pattern == "" then None
      else Some((pattern, if bar < |stripped| then Strip(stripped[bar + 1..]) else ""))
  }

  // The position of a pattern in the list; |terms| when it is not there.
  function Find(terms: seq<Term>, pattern: string): (n: nat)
    ensures n <= |terms|
    ensures n < |terms| ==> terms[n].0 == pattern
    ensures forall i :: 0 <= i < n ==> terms[i].0 != pattern
  {
    if terms == [] || terms[0].0 == pattern then 0 else 1 + Find(terms[1..], pattern)
  }

  // `terms[pattern] = note`
  function Store(terms: seq<Term>, term: Term): seq<Term> {
    var n := Find(terms, term.0);
    if n < |terms| then terms[n := term] else terms + [term]
  }

  // The terms the first `n` lines give, duplicates included.
  function Entries(lines: seq<string>, n: nat): seq<Term>
    requires n <= |lines|
  {
    if n == 0 then []
    else
      match ParseLine(lines[n - 1])
      case None => Entries(lines, n - 1)
      case Some(term) => Entries(lines, n - 1) + [term]
  }

  function EntriesOf(text: string): seq<Term> {
    var lines := SplitLines(text);
    Entries(lines, |lines|)
  }

  function StoreAll(entries: seq<Term>): seq<Term> {
    if entries == [] then [] else Store(StoreAll(entries[..|entries| - 1]), entries[|entries| - 1])
  }

  function Parsed(text: string): seq<Term> {
    StoreAll(EntriesOf(text))
  }

  lemma {:induction false} StoreAllSnoc(entries: seq<Term>, term: Term)
    ensures StoreAll(entries + [term]) == Store(StoreAll(entries), term)
  {
    assert (entries + [term])[..|entries|] == entries;
  }

  method ParseReservedTerms(text: string) returns (terms: seq<Term>)
    ensures terms == Parsed(text)
  {
    terms := [];
    var lines := SplitLines(text);
    for i := 0 to |lines|
      invariant terms == StoreAll(Entries(lines, i))
    {
      var parsed := ParseLine(lines[i]);
      if parsed == None { continue; }
      StoreAllSnoc(Entries(lines, i), parsed.value);
      terms := Store(terms, parsed.value);
    }
  }

  function LineOf(term: Term): string {
    if term.1 != "" then term.0 + " | " + term.1 else term.0
  }

  function LinesOf(terms: seq<Term>): (lines: seq<string>)
    ensures |lines| == |terms| && forall i :: 0 <= i < |terms| ==> lines[i] == LineOf(terms[i])
  {
    if terms == [] then [] else [LineOf(terms[0])] + LinesOf(terms[1..])
  }

  function JoinLines(lines: seq<string>): string {
    if lines == [] then "" else if |lines| == 1 then lines[0] else lines[0] + "\n" + JoinLines(lines[1..])
  }

  function Serialized(terms: seq<Term>): string {
    JoinLines(LinesOf(terms))
  }

  // ----- First seen, last written

  predicate DistinctPatterns(terms: seq<Term>) {
    forall i, j :: 0 <= i < j < |terms| ==> terms[i].0 != terms[j].0
  }

  // The position of the last entry with a pattern, counted from the end of the list.
  function FindLast(entries: seq<Term>, pattern: string): (n: nat)
    ensures n <= |entries|
    ensures n < |entries| ==> entries[n].0 == pattern
    ensures n < |entries| ==> forall i :: n < i < |entries| ==> entries[i].0 != pattern
    ensures n == |entries| ==> forall i :: 0 <= i < |entries| ==> entries[i].0 != pattern
  {
    if entries == [] then 0
    else if entries[|entries| - 1].0 == pattern then |entries| - 1
    else
      var n := FindLast(entries[..|entries| - 1], pattern);
      if n == |entries| - 1 then |entries| else n
  }

  // Each pattern once, at its first-seen position, with the note of its last entry.
  predicate Deduplicated(entries: seq<Term>, terms: seq<Term>) {
    && DistinctPatterns(terms)
    && LastNotes(entries, terms)
    && AllStored(entries, terms)
    && FirstSeenOrder(entries, terms)
  }

  predicate LastNotes(entries: seq<Term>, terms: seq<Term>) {
    forall i :: 0 <= i < |terms| ==>
      FindLast(entries, terms[i].0) < |entries| && terms[i] == entries[FindLast(entries, terms[i].0)]
  }

  predicate AllStored(entries: seq<Term>, terms: seq<Term>) {
    forall i :: 0 <= i < |entries| ==> Find(terms, entries[i].0) < |terms|
  }

  predicate FirstSeenOrder(entries: seq<Term>, terms: seq<Term>) {
    forall i, j :: 0 <= i < j < |terms| ==> Find(entries, terms[i].0) < Find(entries, terms[j].0)
  }

  lemma {:induction false} FindIs(terms: seq<Term>, pattern: string, n: nat)
    requires n < |terms| && terms[n].0 == pattern && forall i :: 0 <= i < n ==> terms[i].0 != pattern
    ensures Find(terms, pattern) == n
  {
  }

  lemma {:induction false} FindInLonger(entries: seq<Term>, last: Term, pattern: string)
    ensures Find(entries + [last], pattern) ==
            if Find(entries, pattern) < |entries| then Find(entries, pattern)
            else if last.0 == pattern then |entries| else |entries| + 1
    ensures FindLast(entries + [last], pattern) ==
            if last.0 == pattern then |entries|
            else if FindLast(entries, pattern) < |entries| then FindLast(entries, pattern) else |entries| + 1
  {
    assert (entries + [last])[..|entries|] == entries;
    var longer := entries + [last];
    var n := Find(entries, pattern);
    if n < |entries| {
      FindIs(longer, pattern, n);
    } else if last.0 == pattern {
      FindIs(longer, pattern, |entries|);
    }
  }

  lemma {:induction false} StoreKeepsDistinct(terms: seq<Term>, last: Term)
    requires DistinctPatterns(terms)
    ensures DistinctPatterns(Store(terms, last))
  {
  }

  lemma {:induction false} StoreKeepsLastNotes(entries: seq<Term>, terms: seq<Term>, last: Term)
    requires DistinctPatterns(terms) && LastNotes(entries, terms)
    ensures LastNotes(entries + [last], Store(terms, last))
  {
    var longer, stored := entries + [last], Store(terms, last);
    forall i | 0 <= i < |stored|
      ensures FindLast(longer, stored[i].0) < |longer| && stored[i] == longer[FindLast(longer, stored[i].0)]
    {
      FindInLonger(entries, last, stored[i].0);
    }
  }

  lemma {:induction false} StoreKeepsAll(entries: seq<Term>, terms: seq<Term>, last: Term)
    requires AllStored(entries, terms)
    ensures AllStored(entries + [last], Store(terms, last))
  {
    var longer := entries + [last];
    forall i | 0 <= i < |longer| ensures Find(Store(terms, last), longer[i].0) < |Store(terms, last)| {
      StoredFinds(terms, last, longer[i].0);
    }
  }

  lemma {:induction false} FoundSomewhere(entries: seq<Term>, pattern: string)
    ensures Find(entries, pattern) < |entries| <==> FindLast(entries, pattern) < |entries|
  {
  }

  lemma {:induction false} StoreKeepsOrder(entries: seq<Term>, terms: seq<Term>, last: Term)
    requires LastNotes(entries, terms) && AllStored(entries, terms) && FirstSeenOrder(entries, terms)
    ensures FirstSeenOrder(entries + [last], Store(terms, last))
  {
    var longer, stored := entries + [last], Store(terms, last);
    forall i, j | 0 <= i < j < |stored| ensures Find(longer, stored[i].0) < Find(longer, stored[j].0) {
      var p, q := stored[i].0, stored[j].0;
      assert p == terms[i].0;
      FoundSomewhere(entries, p);
      if j < |terms| {
        assert q == terms[j].0;
        FoundSomewhere(entries, q);
      }
      OrderInLonger(entries, last, p, q);
    }
  }

  lemma {:induction false} OrderInLonger(entries: seq<Term>, last: Term, p: string, q: string)
    requires Find(entries, p) < |entries|
    requires if Find(entries, q) < |entries| then Find(entries, p) < Find(entries, q) else q == last.0
    ensures Find(entries + [last], p) < Find(entries + [last], q)
  {
    FindInLonger(entries, last, p);
    FindInLonger(entries, last, q);
  }

  lemma {:induction false} StoreDeduplicates(entries: seq<Term>, terms: seq<Term>, last: Term)
    requires Deduplicated(entries, terms)
    ensures Deduplicated(entries + [last], Store(terms, last))
  {
    StoreKeepsDistinct(terms, last);
    StoreKeepsLastNotes(entries, terms, last);
    StoreKeepsAll(entries, terms, last);
    StoreKeepsOrder(entries, terms, last);
  }

  lemma {:induction false} StoredFinds(terms: seq<Term>, last: Term, pattern: string)
    ensures Find(Store(terms, last), pattern) < |Store(terms, last)|
       <==> Find(terms, pattern) < |terms| || pattern == last.0
  {
    var n, stored := Find(terms, last.0), Store(terms, last);
    if n < |terms| {
      var m := Find(terms, pattern);
      if m < |terms| { FindIs(stored, pattern, m); }
    } else {
      FindInLonger(terms, last, pattern);
    }
  }

  lemma {:induction false} StoreAllDeduplicates(entries: seq<Term>)
    ensures Deduplicated(entries, StoreAll(entries))
    decreases |entries|
  {
    if entries != [] {
      var front, last := entries[..|entries| - 1], entries[|entries| - 1];
      StoreAllDeduplicates(front);
      StoreDeduplicates(front, StoreAll(front), last);
      assert front + [last] == entries;
    }
  }

  // The parsed patterns are distinct, in the order in which they were first seen, each with the
  // note of its last line.
  lemma {:induction false} ParsedIsDeduplicated(text: string)
    ensures Deduplicated(EntriesOf(text), Parsed(text))
  {
    StoreAllDeduplicates(EntriesOf(text));
  }

  // ----- Round trip

  // A term that can be written on a line of its own and read back.
  predicate GoodTerm(term: Term) {
    var (pattern, note) := term;
    && pattern != "" && pattern[0] != '#' && Strip(pattern) == pattern && Strip(note) == note
    && (forall i :: 0 <= i < |pattern| ==> pattern[i] != '|')
    && Unbroken(pattern) && Unbroken(note)
  }

  lemma {:induction false} StripLeftPart(s: string)
    ensures |StripLeft(s)| <= |s| && StripLeft(s) == s[|s| - |StripLeft(s)|..]
    ensures StripLeft(s) != "" ==> !IsSpace(StripLeft(s)[0])
  {
    if s != "" && IsSpace(s[0]) { StripLeftPart(s[1..]); }
  }

  lemma {:induction false} StripRightPart(s: string)
    ensures StripRight(s) <= s
    ensures StripRight(s) != "" ==> !IsSpace(StripRight(s)[|StripRight(s)| - 1])
    decreases |s|
  {
    if s != "" && IsSpace(s[|s| - 1]) { StripRightPart(s[..|s| - 1]); }
  }

  // A string is stripped exactly when neither end is a space.
  predicate Trimmed(s: string) {
    s == "" || (!IsSpace(s[0]) && !IsSpace(s[|s| - 1]))
  }

  lemma {:induction false} StripOfTrimmed(s: string)
    requires Trimmed(s)
    ensures Strip(s) == s
  {
  }

  // Stripping gives a trimmed part of the string, starting at `from`.
  lemma {:induction false} StripPart(s: string) returns (from: nat)
    ensures from + |Strip(s)| <= |s| && Strip(s) == s[from..from + |Strip(s)|]
    ensures Trimmed(Strip(s))
  {
    StripLeftPart(s);
    StripRightPart(StripLeft(s));
    from := |s| - |StripLeft(s)|;
  }

  lemma {:induction false} PartUnbroken(s: string, from: nat, n: nat)
    requires Unbroken(s) && from + n <= |s|
    ensures Unbroken(s[from..from + n])
  {
  }

  // The strip of a part of an unbroken string is unbroken, and keeps any other character out.
  lemma {:induction false} StripKeeps(s: string)
    ensures Unbroken(s) ==> Unbroken(Strip(s))
    ensures forall c :: c !in s ==> c !in Strip(s)
    ensures Strip(Strip(s)) == Strip(s)
  {
    var from := StripPart(s);
    StripOfTrimmed(Strip(s));
  }

  lemma {:induction false} ParsedLineIsGood(line: string)
    requires Unbroken(line)
    ensures ParseLine(line).Some? ==> GoodTerm(ParseLine(line).value)
  {
    var s := Strip(line);
    StripKeeps(line);
    if ParseLine(line).Some? {
      var bar := BarIndex(s);
      var left := s[..bar];
      StripKeeps(left);
      if bar < |s| {
        PartUnbroken(s, bar + 1, |s| - bar - 1);
        StripKeeps(s[bar + 1..]);
      }
      var from := StripPart(line);
      assert '|' !in left;
      assert bar > 0 && left[0] == s[0] && !IsSpace(s[0]);
      FirstStays(left);
    }
  }

  lemma {:induction false} FirstStays(s: string)
    requires s != "" && !IsSpace(s[0])
    ensures Strip(s) != "" && Strip(s)[0] == s[0]
  {
    assert StripLeft(s) == s;
    StripRightNonempty(s);
  }

  lemma {:induction false} StripRightNonempty(s: string)
    requires s != "" && !IsSpace(s[0])
    ensures StripRight(s) != "" && StripRight(s)[0] == s[0]
    decreases |s|
  {
    if IsSpace(s[|s| - 1]) { StripRightNonempty(s[..|s| - 1]); }
  }

  lemma {:induction false} EntriesAreGood(lines: seq<string>, n: nat)
    requires n <= |lines| && forall i :: 0 <= i < |lines| ==> Unbroken(lines[i])
    ensures forall i :: 0 <= i < |Entries(lines, n)| ==> GoodTerm(Entries(lines, n)[i])
  {
    if n > 0 {
      EntriesAreGood(lines, n - 1);
      ParsedLineIsGood(lines[n - 1]);
    }
  }

  lemma {:induction false} ParsedTermsAreGood(text: string)
    ensures forall i :: 0 <= i < |Parsed(text)| ==> GoodTerm(Parsed(text)[i])
  {
    ParsedIsDeduplicated(text);
    EntriesAreGood(SplitLines(text), |SplitLines(text)|);
  }

  lemma {:induction false} GoodIsTrimmed(term: Term)
    requires GoodTerm(term)
    ensures Trimmed(term.0) && Trimmed(term.1)
  {
    var i := StripPart(term.0);
    var j := StripPart(term.1);
  }

  lemma {:induction false} NotedLineReadsBack(pattern: string, note: string)
    requires GoodTerm((pattern, note)) && note != ""
    ensures ParseLine(pattern + " | " + note) == Some((pattern, note))
  {
    var line := pattern + " | " + note;
    GoodIsTrimmed((pattern, note));
    assert line[0] == pattern[0] && line[|line| - 1] == note[|note| - 1];
    StripOfTrimmed(line);
    BarOf(line, |pattern| + 1);
    assert line[..|pattern| + 1] == pattern + " ";
    assert line[|pattern| + 2..] == " " + note;
    SpaceRight(pattern);
    SpaceLeft(note);
  }

  lemma {:induction false} BareLineReadsBack(pattern: string)
    requires GoodTerm((pattern, ""))
    ensures ParseLine(pattern) == Some((pattern, ""))
  {
    BarOf(pattern, |pattern|);
    assert pattern[..|pattern|] == pattern;
  }

  // A good term reads back from its own line, which is one line.
  lemma {:induction false} LineReadsBack(term: Term)
    requires GoodTerm(term)
    ensures Unbroken(LineOf(term)) && LineOf(term) != ""
    ensures ParseLine(LineOf(term)) == Some(term)
  {
    if term.1 != "" {
      NotedLineReadsBack(term.0, term.1);
    } else {
      BareLineReadsBack(term.0);
    }
  }

  lemma {:induction false} BarOf(s: string, n: nat)
    requires n <= |s| && (forall i :: 0 <= i < n ==> s[i] != '|') && (n < |s| ==> s[n] == '|')
    ensures BarIndex(s) == n
  {
  }

  lemma {:induction false} SpaceRight(s: string)
    requires s != "" && Trimmed(s)
    ensures Strip(s + " ") == s
  {
    var t := s + " ";
    assert t[0] == s[0] && t[..|t| - 1] == s;
    assert StripLeft(t) == t;
    assert StripRight(t) == StripRight(s) == s;
  }

  lemma {:induction false} SpaceLeft(s: string)
    requires Trimmed(s)
    ensures Strip(" " + s) == s
  {
    assert (" " + s)[1..] == s;
    assert StripLeft(" " + s) == StripLeft(s) == s;
  }

  lemma {:induction false} LineLengthIs(s: string, n: nat)
    requires n <= |s| && Unbroken(s[..n]) && (n < |s| ==> IsBreak(s[n]))
    ensures LineLength(s) == n
  {
    var m := LineLength(s);
    forall i | 0 <= i < n ensures !IsBreak(s[i]) {
      assert s[i] == s[..n][i];
    }
    forall i | 0 <= i < m ensures !IsBreak(s[i]) {
      assert s[i] == s[..m][i];
    }
  }

  // Non-empty lines joined by line feeds are split into the same lines.
  lemma {:induction false} SplitJoined(lines: seq<string>)
    requires forall i :: 0 <= i < |lines| ==> Unbroken(lines[i]) && lines[i] != ""
    ensures SplitLines(JoinLines(lines)) == lines
  {
    if |lines| == 1 {
      assert lines[0][..|lines[0]|] == lines[0];
      LineLengthIs(lines[0], |lines[0]|);
    } else if |lines| > 1 {
      var s, first := JoinLines(lines), lines[0];
      var n := |first|;
      assert s == first + "\n" + JoinLines(lines[1..]);
      assert s[..n] == first && s[n] == '\n' && s[n + 1..] == JoinLines(lines[1..]);
      LineLengthIs(s, n);
      SplitJoined(lines[1..]);
    }
  }

  // The lines of good terms give the terms back, one each.
  lemma {:induction false} EntriesAre(terms: seq<Term>, n: nat)
    requires n <= |terms| && forall i :: 0 <= i < |terms| ==> GoodTerm(terms[i])
    ensures Entries(LinesOf(terms), n) == terms[..n]
  {
    if n > 0 {
      EntriesAre(terms, n - 1);
      LineReadsBack(terms[n - 1]);
      EntriesStep(LinesOf(terms), n, terms[n - 1]);
      Snoc(terms, n);
    }
  }

  lemma {:induction false} Snoc(terms: seq<Term>, n: nat)
    requires 0 < n <= |terms|
    ensures terms[..n] == terms[..n - 1] + [terms[n - 1]]
  {
  }

  lemma {:induction false} EntriesStep(lines: seq<string>, n: nat, term: Term)
    requires 0 < n <= |lines| && ParseLine(lines[n - 1]) == Some(term)
    ensures Entries(lines, n) == Entries(lines, n - 1) + [term]
  {
  }

  lemma {:induction false} StoreAllDistinct(terms: seq<Term>)
    requires DistinctPatterns(terms)
    ensures StoreAll(terms) == terms
    decreases |terms|
  {
    if terms != [] {
      var front, last := terms[..|terms| - 1], terms[|terms| - 1];
      StoreAllDistinct(front);
      assert Find(front, last.0) == |front|;
    }
  }

  // ----- Lines

  // Lines end at the breaks, and only there;
  lemma {:induction false} SplitAtBreak(line: string, c: char, rest: string)
    requires Unbroken(line) && IsBreak(c) && !(c == '\r' && rest != "" && rest[0] == '\n')
    ensures SplitLines(line + ([c] + rest)) == [line] + SplitLines(rest)
  {
    var s := line + ([c] + rest);
    FirstLine(line, [c] + rest);
    assert s[|line|] == c && s[|line| + 1..] == rest;
  }

  // a carriage return with a line feed is one break;
  lemma {:induction false} SplitAtReturn(line: string, rest: string)
    requires Unbroken(line)
    ensures SplitLines(line + ("\r\n" + rest)) == [line] + SplitLines(rest)
  {
    var s := line + ("\r\n" + rest);
    FirstLine(line, "\r\n" + rest);
    assert s[|line|] == '\r' && s[|line| + 1] == '\n' && s[|line| + 2..] == rest;
  }

  // and the last line needs none.
  lemma {:induction false} LastLine(line: string)
    requires Unbroken(line)
    ensures SplitLines(line) == if line == "" then [] else [line]
  {
    assert line[..|line|] == line;
    LineLengthIs(line, |line|);
  }

  lemma {:induction false} FirstLine(line: string, rest: string)
    requires Unbroken(line) && rest != "" && IsBreak(rest[0])
    ensures LineLength(line + rest) == |line| && (line + rest)[..|line|] == line
  {
    assert (line + rest)[..|line|] == line;
    LineLengthIs(line + rest, |line|);
  }

  lemma {:induction false} LatinBreaks(c: char)
    requires c < '\U{100}'
    ensures IsBreak(c) <==> c in "\n\r\U{b}\U{c}\U{1c}\U{1d}\U{1e}\U{85}"
  {
  }

  // Blank lines and comments give nothing.
  lemma {:induction false} LinesIgnored(before: string, comment: string)
    requires forall c :: c in before ==> IsSpace(c)
    ensures ParseLine(before) == None && ParseLine(before + "#" + comment) == None
  {
    StripsSpaces(before, "", "");
    assert before + "" + "" == before;
    StripsLeft(before, "#" + comment);
    assert before + "#" + comment == before + ("#" + comment);
    FirstStays("#" + comment);
    assert StripLeft("#" + comment) == "#" + comment;
    StripRightNonempty("#" + comment);
  }

  // Any other line is a term: the pattern up to the first bar, the note behind it, both stripped.
  lemma {:induction false} LineGivesTerm(left: string, right: string)
    requires '|' !in left && Strip(left) != "" && Strip(left)[0] != '#'
    ensures ParseLine(left) == Some((Strip(left), ""))
    ensures ParseLine(left + "|" + right) == Some((Strip(left), Strip(right)))
  {
    BareLine(left);
    StripAroundBar(left, right);
    var p, n := StripLeft(left), StripRight(right);
    var s := p + "|" + n;
    StripLeftPart(left);
    NotIn(left, p, '|');
    BarOf(s, |p|);
    assert s[..|p|] == p && s[|p| + 1..] == n;
    StripTwice(left, right);
    FirstOf(left);
  }

  lemma {:induction false} NotIn(s: string, part: string, c: char)
    requires c !in s && |part| <= |s| && part == s[|s| - |part|..]
    ensures forall i :: 0 <= i < |part| ==> part[i] != c
  {
    forall i | 0 <= i < |part| ensures part[i] != c {
      assert part[i] == s[|s| - |part| + i] && s[|s| - |part| + i] in s;
    }
  }

  lemma {:induction false} FirstOf(s: string)
    requires Strip(s) != ""
    ensures StripLeft(s) != "" && StripLeft(s)[0] == Strip(s)[0]
  {
    StripRightPart(StripLeft(s));
  }

  lemma {:induction false} BareLine(left: string)
    requires '|' !in left && Strip(left) != "" && Strip(left)[0] != '#'
    ensures ParseLine(left) == Some((Strip(left), ""))
  {
    var s := Strip(left);
    StripKeeps(left);
    assert forall i :: 0 <= i < |s| ==> s[i] in s;
    BarOf(s, |s|);
    assert s[..|s|] == s;
  }

  // Stripping strips the left part on its left and the right part on its right.
  lemma {:induction false} StripAroundBar(left: string, right: string)
    ensures Strip(left + "|" + right) == StripLeft(left) + "|" + StripRight(right)
  {
    StripLeftUpTo(left, "|" + right);
    assert left + "|" + right == left + ("|" + right);
    StripRightUpTo(StripLeft(left) + "|", right);
    assert StripLeft(left) + ("|" + right) == (StripLeft(left) + "|") + right;
  }

  lemma {:induction false} StripLeftUpTo(left: string, rest: string)
    requires rest != "" && !IsSpace(rest[0])
    ensures StripLeft(left + rest) == StripLeft(left) + rest
  {
    if left == "" {
      assert left + rest == rest;
    } else {
      StripLeftUpTo(left[1..], rest);
      assert (left + rest)[1..] == left[1..] + rest;
    }
  }

  lemma {:induction false} StripRightUpTo(start: string, right: string)
    requires start != "" && !IsSpace(start[|start| - 1])
    ensures StripRight(start + right) == start + StripRight(right)
    decreases |right|
  {
    if right == "" {
      assert start + right == start;
    } else {
      var n := |right| - 1;
      StripRightUpTo(start, right[..n]);
      assert (start + right)[..|start + right| - 1] == start + right[..n];
    }
  }

  lemma {:induction false} StripTwice(left: string, right: string)
    ensures Strip(StripLeft(left)) == Strip(left) && Strip(StripRight(right)) == Strip(right)
  {
    StripLeftTwice(left);
    StripCommutes(right);
  }

  lemma {:induction false} StripLeftTwice(s: string)
    ensures StripLeft(StripLeft(s)) == StripLeft(s)
  {
    if s != "" && IsSpace(s[0]) { StripLeftTwice(s[1..]); }
  }

  // It does not matter which end is stripped first, or one end twice.
  lemma {:induction false} StripCommutes(s: string)
    ensures Strip(StripRight(s)) == Strip(s)
    decreases |s|
  {
    if s != "" && IsSpace(s[|s| - 1]) {
      StripCommutes(s[..|s| - 1]);
      DropLastSpace(s);
    } else if s != "" {
      assert StripRight(s) == s;
    }
  }

  lemma {:induction false} DropLastSpace(s: string)
    requires s != "" && IsSpace(s[|s| - 1])
    ensures Strip(s[..|s| - 1]) == Strip(s)
  {
    if IsSpace(s[0]) {
      if |s| > 1 {
        DropLastSpace(s[1..]);
        assert s[1..][..|s| - 2] == s[..|s| - 1][1..];
      } else {
        assert s[1..] == "" && s[..0] == "";
      }
    } else {
      assert |s| > 1;
      assert s[..|s| - 1][0] == s[0];
      assert StripLeft(s) == s && StripLeft(s[..|s| - 1]) == s[..|s| - 1];
    }
  }

  // ----- Lists of terms

  // One line for each term: the pattern, and " | " and the note when there is one.
  lemma {:induction false} SerializedMeans(terms: seq<Term>, pattern: string, note: string)
    ensures Serialized([]) == ""
    ensures Serialized([(pattern, "")]) == pattern
    ensures note != "" ==> Serialized([(pattern, note)]) == pattern + " | " + note
    ensures terms != [] ==>
              Serialized([(pattern, note)] + terms) == Serialized([(pattern, note)]) + "\n" + Serialized(terms)
  {
    var term := (pattern, note);
    assert [term][1..] == [] && [(pattern, "")][1..] == [];
    assert LinesOf([term]) == [LineOf(term)];
    if terms != [] {
      assert ([term] + terms)[1..] == terms && ([term] + terms)[0] == term;
      assert LinesOf([term] + terms) == [LineOf(term)] + LinesOf(terms);
      assert LinesOf([term] + terms)[1..] == LinesOf(terms);
    }
  }

  // Serialising good terms with distinct patterns and parsing the text gives them back.
  lemma {:induction false} ParseSerialized(terms: seq<Term>)
    requires DistinctPatterns(terms) && forall i :: 0 <= i < |terms| ==> GoodTerm(terms[i])
    ensures Parsed(Serialized(terms)) == terms
  {
    var lines := LinesOf(terms);
    forall i | 0 <= i < |terms| ensures Unbroken(lines[i]) && lines[i] != "" {
      LineReadsBack(terms[i]);
    }
    SplitJoined(lines);
    EntriesAre(terms, |terms|);
    assert terms[..|terms|] == terms;
    StoreAllDistinct(terms);
  }

  // Export and import agree on every text: what was parsed, written out and parsed again is the same.
  lemma {:induction false} RoundTrip(text: string)
    ensures Parsed(Serialized(Parsed(text))) == Parsed(text)
  {
    ParsedIsDeduplicated(text);
    ParsedTermsAreGood(text);
    ParseSerialized(Parsed(text));
  }
}
