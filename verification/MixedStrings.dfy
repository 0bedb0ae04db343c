/**
 * Strings with protected parts (citeproc/string.py:5-34, 58-75, 132-133) and the reader that
 * makes them from tagged text (citeproc/source/json.py:46-69).
 */
module MixedStrings {
  import opened Seqs
  import opened Strings
  import opened Wrappers

  // A plain Python string, a `String`, or a `NoCase`, which case changes leave alone.
  datatype Part = Plain(text: string) | Regular(text: string) | NoCase(text: string)

  // What the addition operators work on: one string of any kind, or a `MixedString`.
  datatype Value = Atom(part: Part) | Mixed(parts: seq<Part>)

  // `other == ""` in the decorator of the operators.
  predicate IsEmptyString(v: Value) {
    v.Atom? && v.part.text == ""
  }

  function PartsOf(v: Value): seq<Part> {
    match v
    case Atom(part) => [part]
    case Mixed(parts) => parts
  }

  // `a + b`. Two plain strings are Python's own business; a plain string on the left of another
  // kind is handled by the right operand, and an empty operand on the other side is dropped.
  function Add(a: Value, b: Value): Value {
    if a.Atom? && a.part.Plain? && b.Atom? && b.part.Plain? then Atom(Plain(a.part.text + b.part.text))
    else if a.Atom? && a.part.Plain? then
      if a.part.text == "" then b
      else if IsEmptyString(b) then Mixed([a.part])
      else Mixed([a.part] + PartsOf(b))
    else if IsEmptyString(b) then a
    else Mixed(PartsOf(a) + PartsOf(b))
  }

  // `join(items, delimiter)`; None for the TypeError of an empty list.
  function Join(items: seq<Value>, delimiter: Value): Option<Value> {
    if items == [] then None
    else if |items| == 1 then Some(items[0])
    else Some(Add(Add(Join(items[..|items| - 1], delimiter).value, delimiter), items[|items| - 1]))
  }

  // ----- What addition keeps

  function PartsText(parts: seq<Part>): string {
    if parts == [] then "" else parts[0].text + PartsText(parts[1..])
  }

  function TextOf(v: Value): string {
    PartsText(PartsOf(v))
  }

  function ProtectedIn(part: Part): seq<string> {
    if part.NoCase? && part.text != "" then [part.text] else []
  }

  // The protected texts, in order.
  function ProtectedParts(parts: seq<Part>): seq<string> {
    if parts == [] then [] else ProtectedIn(parts[0]) + ProtectedParts(parts[1..])
  }

  function Protected(v: Value): seq<string> {
    ProtectedParts(PartsOf(v))
  }

  lemma {:induction false} TextConcat(a: seq<Part>, b: seq<Part>)
    ensures PartsText(a + b) == PartsText(a) + PartsText(b)
  {
    if a == [] {
      assert a + b == b;
    } else {
      TextConcat(a[1..], b);
      assert (a + b)[1..] == a[1..] + b;
      Associative(a[0].text, PartsText(a[1..]), PartsText(b));
    }
  }

  lemma {:induction false} ProtectedConcat(a: seq<Part>, b: seq<Part>)
    ensures ProtectedParts(a + b) == ProtectedParts(a) + ProtectedParts(b)
  {
    if a == [] {
      assert a + b == b;
    } else {
      ProtectedConcat(a[1..], b);
      assert (a + b)[1..] == a[1..] + b;
      Associative(ProtectedIn(a[0]), ProtectedParts(a[1..]), ProtectedParts(b));
    }
  }

  // Adding two values of any kinds concatenates their texts and keeps what is protected in either.
  lemma {:induction false} AddKeepsText(a: Value, b: Value)
    ensures TextOf(Add(a, b)) == TextOf(a) + TextOf(b)
    ensures Protected(Add(a, b)) == Protected(a) + Protected(b)
  {
    TextConcat(PartsOf(a), PartsOf(b));
    ProtectedConcat(PartsOf(a), PartsOf(b));
    assert forall p: Part :: [p][1..] == [];
    assert forall p: Part :: PartsText([p]) == p.text + "";
  }

  // The parts that are not empty.
  function Filled(parts: seq<Part>): seq<Part> {
    if parts == [] then [] else (if parts[0].text == "" then [] else [parts[0]]) + Filled(parts[1..])
  }

  lemma {:induction false} FilledConcat(a: seq<Part>, b: seq<Part>)
    ensures Filled(a + b) == Filled(a) + Filled(b)
  {
    if a == [] {
      assert a + b == b;
    } else {
      FilledConcat(a[1..], b);
      assert (a + b)[1..] == a[1..] + b;
      Associative(if a[0].text == "" then [] else [a[0]], Filled(a[1..]), Filled(b));
    }
  }

  // But for two plain strings, which Python runs together, addition puts the parts side by side.
  lemma {:induction false} AddKeepsParts(a: Value, b: Value)
    requires !(a.Atom? && a.part.Plain? && b.Atom? && b.part.Plain?)
    ensures Filled(PartsOf(Add(a, b))) == Filled(PartsOf(a)) + Filled(PartsOf(b))
  {
    FilledConcat(PartsOf(a), PartsOf(b));
    assert forall p: Part :: [p][1..] == [];
  }

  // The texts of the items with a delimiter between each and the next.
  function Separated(items: seq<Value>, delimiter: string): string
    requires items != []
  {
    var n := |items| - 1;
    if n == 0 then TextOf(items[0]) else Separated(items[..n], delimiter) + delimiter + TextOf(items[n])
  }

  // The text of a join is the texts with the delimiter between them, whatever mix of kinds was joined.
  lemma {:induction false} JoinText(items: seq<Value>, delimiter: Value)
    requires items != []
    ensures Join(items, delimiter).Some?
    ensures TextOf(Join(items, delimiter).value) == Separated(items, TextOf(delimiter))
    decreases |items|
  {
    var n := |items| - 1;
    if n > 0 {
      JoinText(items[..n], delimiter);
      var joined := Join(items[..n], delimiter).value;
      AddKeepsText(joined, delimiter);
      AddKeepsText(Add(joined, delimiter), items[n]);
    }
  }

  // ----- Reading tagged text

  // The class attributes `start_tag` and `end_tag`.
  datatype Tags = Tags(open: string, shut: string)

  const NOCASE_TAGS := Tags("<span class=\"nocase\">", "</span>")

  // An end tag cannot begin inside a start tag.
  predicate WellFormed(tags: Tags) {
    tags.open != "" && tags.shut != "" && forall k :: 1 <= k < |tags.open| ==> tags.open[k] != tags.shut[0]
  }

  lemma {:induction false} NoCaseTagsWellFormed()
    ensures WellFormed(NOCASE_TAGS)
  {
  }

  predicate OccursAt(s: string, tag: string, at: nat) {
    at + |tag| <= |s| && s[at..at + |tag|] == tag
  }

  // `s.index(tag, from)`, or None for its ValueError.
  function Index(s: string, tag: string, from: nat): (r: Option<nat>)
    requires from <= |s|
    ensures r.Some? ==> from <= r.value && OccursAt(s, tag, r.value)
    decreases |s| - from
  {
    if OccursAt(s, tag, from) then Some(from)
    else if from == |s| then None
    else Index(s, tag, from + 1)
  }

  // It is the first occurrence from there on.
  lemma {:induction false} IndexIsFirst(s: string, tag: string, from: nat, i: nat)
    requires from <= i <= |s| && OccursAt(s, tag, i)
    ensures Index(s, tag, from).Some? && Index(s, tag, from).value <= i
    decreases |s| - from
  {
    if !OccursAt(s, tag, from) { IndexIsFirst(s, tag, from + 1, i); }
  }

  lemma {:induction false} EndAfterStart(tags: Tags, s: string, start: nat, end: nat)
    requires WellFormed(tags) && OccursAt(s, tags.open, start) && OccursAt(s, tags.shut, end) && start < end
    ensures start + |tags.open| <= end
  {
    var tag := s[start..start + |tags.open|];
    assert s[end] == s[end..end + |tags.shut|][0] == tags.shut[0];
    forall i | start < i < start + |tag| ensures s[i] != tags.shut[0] {
      assert s[i] == tag[i - start] == tags.open[i - start];
    }
  }

  // What the two calls of `index` find next in the text: no start tag, one that is never closed, or a pair of tags with
  // the text between them.
  datatype Scan = NoTag | Unclosed(start: nat) | Pair(start: nat, from: nat, to: nat, next: nat)

  function ScanFrom(tags: Tags, s: string, end: nat): (r: Scan)
    requires WellFormed(tags) && end <= |s|
    ensures r.Unclosed? ==> end <= r.start <= |s|
    ensures r.Pair? ==> end <= r.start < r.from <= r.to < r.next <= |s|
  {
    var lower := Lower(s);
    match Index(lower, tags.open, end)
    case None => NoTag
    case Some(start) =>
      match Index(lower, tags.shut, start + 1)
      case None => Unclosed(start)
      case Some(close) =>
        EndAfterStart(tags, lower, start, close);
        Pair(start, start + |tags.open|, close, close + |tags.shut|)
  }

  // The part that reading appends for a piece of text, if any.
  function Piece(text: string, protected: bool): seq<Part> {
    if text == "" then [] else if protected then [NoCase(text)] else [Regular(text)]
  }

  // The parts read from `end` on. When a start tag has no end tag after it, the text before it has
  // already been read and is read again with the rest.
  function ReadFrom(tags: Tags, s: string, end: nat): seq<Part>
    requires WellFormed(tags) && end <= |s|
    decreases |s| - end
  {
    match ScanFrom(tags, s, end)
    case NoTag => Piece(s[end..], false)
    case Unclosed(start) => Piece(s[end..start], false) + Piece(s[end..], false)
    case Pair(start, from, to, next) => Piece(s[end..start], false) + (Piece(s[from..to], true) + ReadFrom(tags, s, next))
  }

  // `output += String(text)` or `output += NoCase(text)`, which adds nothing for an empty text.
  method Append(output: Value, text: string, protected: bool) returns (longer: Value)
    requires output.Mixed?
    ensures longer == Mixed(output.parts + Piece(text, protected))
  {
    longer := Add(output, Atom(if protected then NoCase(text) else Regular(text)));
    if text == "" { assert output.parts + [] == output.parts; }
  }

  lemma {:induction false} ScanParts(tags: Tags, s: string, end: nat, output: seq<Part>)
    requires WellFormed(tags) && end <= |s|
    ensures output + ReadFrom(tags, s, end) ==
      match ScanFrom(tags, s, end)
      case NoTag => output + Piece(s[end..], false)
      case Unclosed(start) => output + Piece(s[end..start], false) + Piece(s[end..], false)
      case Pair(start, from, to, next) =>
        output + Piece(s[end..start], false) + Piece(s[from..to], true) + ReadFrom(tags, s, next)
  {
    match ScanFrom(tags, s, end) {
      case NoTag =>
      case Unclosed(start) => Associative(output, Piece(s[end..start], false), Piece(s[end..], false));
      case Pair(start, from, to, next) =>
        AssociativeFour(output, Piece(s[end..start], false), Piece(s[from..to], true), ReadFrom(tags, s, next));
    }
  }

  method ParseString(tags: Tags, s: string) returns (output: Value)
    requires WellFormed(tags)
    ensures output == Mixed(ReadFrom(tags, s, 0))
  {
    var end := 0;
    output := Mixed([]);
    ghost var goal := ReadFrom(tags, s, 0);
    while true
      invariant end <= |s| && output.Mixed?
      invariant output.parts + ReadFrom(tags, s, end) == goal
      decreases |s| - end
    {
      ScanParts(tags, s, end, output.parts);
      var scan := ScanFrom(tags, s, end);
      if scan == NoTag { break; }
      output := Append(output, s[end..scan.start], false);
      if scan.Unclosed? { break; }
      output := Append(output, s[scan.from..scan.to], true);
      end := scan.next;
    }
    output := Append(output, s[end..], false);
  }

  // ----- What is read

  // The text with each closed pair of tags removed.
  function Untagged(tags: Tags, s: string, end: nat): string
    requires WellFormed(tags) && end <= |s|
    decreases |s| - end
  {
    match ScanFrom(tags, s, end)
    case Pair(start, from, to, next) => s[end..start] + s[from..to] + Untagged(tags, s, next)
    case _ => s[end..]
  }

  // Does a start tag that is never closed have text between it and the pair before it?
  predicate TextBeforeUnclosed(tags: Tags, s: string, end: nat)
    requires WellFormed(tags) && end <= |s|
    decreases |s| - end
  {
    match ScanFrom(tags, s, end)
    case NoTag => false
    case Unclosed(start) => end < start
    case Pair(_, _, _, next) => TextBeforeUnclosed(tags, s, next)
  }

  // The texts between the tags of each closed pair, empty ones left out.
  function TaggedRanges(tags: Tags, s: string, end: nat): seq<string>
    requires WellFormed(tags) && end <= |s|
    decreases |s| - end
  {
    match ScanFrom(tags, s, end)
    case Pair(_, from, to, next) => (if from < to then [s[from..to]] else []) + TaggedRanges(tags, s, next)
    case _ => []
  }

  lemma {:induction false} PieceText(text: string, protected: bool)
    ensures PartsText(Piece(text, protected)) == text
    ensures ProtectedParts(Piece(text, protected)) == if protected && text != "" then [text] else []
  {
    if text != "" {
      assert Piece(text, protected)[1..] == [];
      assert text + "" == text;
    }
  }

  lemma {:induction false} ThreePieces(a: string, b: string, rest: seq<Part>)
    ensures PartsText(Piece(a, false) + (Piece(b, true) + rest)) == a + b + PartsText(rest)
    ensures ProtectedParts(Piece(a, false) + (Piece(b, true) + rest)) ==
            (if b != "" then [b] else []) + ProtectedParts(rest)
  {
    var p, q := Piece(a, false), Piece(b, true);
    PieceText(a, false);
    PieceText(b, true);
    TextConcat(p, q + rest);
    TextConcat(q, rest);
    ProtectedConcat(p, q + rest);
    ProtectedConcat(q, rest);
    assert a + (b + PartsText(rest)) == a + b + PartsText(rest);
  }

  lemma {:induction false} TwoPieces(a: string, b: string)
    ensures PartsText(Piece(a, false) + Piece(b, false)) == a + b
    ensures ProtectedParts(Piece(a, false) + Piece(b, false)) == []
  {
    PieceText(a, false);
    PieceText(b, false);
    TextConcat(Piece(a, false), Piece(b, false));
    ProtectedConcat(Piece(a, false), Piece(b, false));
  }

  lemma {:induction false} SamePrefix(p: string, a: string, b: string)
    ensures p + a == p + b <==> a == b
  {
    assert (p + a)[|p|..] == a && (p + b)[|p|..] == b;
  }

  // Reading takes off exactly the closed pairs of tags, unless text stands before an unclosed start
  // tag: that text comes out twice. What is protected is what was between the tags.
  lemma {:induction false} ReadsUntagged(tags: Tags, s: string, end: nat)
    requires WellFormed(tags) && end <= |s|
    ensures PartsText(ReadFrom(tags, s, end)) == Untagged(tags, s, end) <==> !TextBeforeUnclosed(tags, s, end)
    ensures ProtectedParts(ReadFrom(tags, s, end)) == TaggedRanges(tags, s, end)
    decreases |s| - end
  {
    match ScanFrom(tags, s, end) {
      case NoTag => PieceText(s[end..], false);
      case Unclosed(start) =>
        TwoPieces(s[end..start], s[end..]);
        assert |s[end..start] + s[end..]| == start - end + |s[end..]|;
        if start == end { assert s[end..start] + s[end..] == s[end..]; }
      case Pair(start, from, to, next) =>
        var rest := ReadFrom(tags, s, next);
        ThreePieces(s[end..start], s[from..to], rest);
        ReadsUntagged(tags, s, next);
        SamePrefix(s[end..start] + s[from..to], PartsText(rest), Untagged(tags, s, next));
    }
  }

  lemma {:induction false} IndexIs(s: string, tag: string, from: nat, at: nat)
    requires from <= at <= |s| && OccursAt(s, tag, at) && forall i :: from <= i < at ==> !OccursAt(s, tag, i)
    ensures Index(s, tag, from) == Some(at)
    decreases at - from
  {
    if from < at { IndexIs(s, tag, from + 1, at); }
  }

  lemma {:induction false} NoIndex(s: string, tag: string, from: nat)
    requires from <= |s| && tag != "" && exists c :: c in tag && c !in s
    ensures Index(s, tag, from) == None
    decreases |s| - from
  {
    NotThere(s, tag, from);
    if from < |s| { NoIndex(s, tag, from + 1); }
  }

  lemma {:induction false} NotThere(s: string, tag: string, at: nat)
    ensures OccursAt(s, tag, at) ==> forall c :: c in tag ==> c in s
  {
    if at + |tag| <= |s| { assert forall c :: c in s[at..at + |tag|] ==> c in s; }
  }

  // Text before a start tag that is never closed comes out twice: "ab" in front of it makes "abab".
  lemma {:induction false} UnclosedTagRepeats()
    ensures PartsText(ReadFrom(NOCASE_TAGS, "ab" + NOCASE_TAGS.open, 0)) == "ab" + ("ab" + NOCASE_TAGS.open)
  {
    var s := "ab" + NOCASE_TAGS.open;
    UnclosedScan();
    assert s[0..2] == "ab" && s[0..] == s;
    TwoPieces("ab", s);
  }

  lemma {:induction false} UnclosedScan()
    ensures ScanFrom(NOCASE_TAGS, "ab" + NOCASE_TAGS.open, 0) == Unclosed(2)
  {
    var s := "ab" + NOCASE_TAGS.open;
    OpenIsLower();
    assert s[0] != '<' && s[1] != '<' && s[2..2 + |NOCASE_TAGS.open|] == NOCASE_TAGS.open;
    IndexIs(s, NOCASE_TAGS.open, 0, 2);
    NoIndex(s, NOCASE_TAGS.shut, 3);
  }

  lemma {:induction false} OpenIsLower()
    ensures var s := "ab" + NOCASE_TAGS.open; Lower(s) == s && '/' !in s
    ensures NOCASE_TAGS.shut[1] == '/'
  {
  }

  // ----- What was written is read

  // The tag does not occur in `before + tag` but at the end.
  predicate EndsFirst(tag: string, before: string) {
    forall i :: 0 <= i < |before| ==> !OccursAt(before + tag, tag, i)
  }

  // The same whatever the case of the text.
  predicate OnlyAtEnd(tag: string, before: string) {
    EndsFirst(tag, Lower(before))
  }

  // An occurrence in a text is one in any part that holds it.
  lemma {:induction false} OccursInPart(s: string, tag: string, from: nat, part: string, i: nat)
    requires from + |part| <= |s| && s[from..from + |part|] == part && i + |tag| <= |part|
    ensures OccursAt(s, tag, from + i) <==> OccursAt(part, tag, i)
  {
    SliceOfSlice(s, from, |part|, i, |tag|);
  }

  lemma {:induction false} SliceOfSlice(s: string, from: nat, n: nat, i: nat, m: nat)
    requires from + n <= |s| && i + m <= n
    ensures s[from..from + n][i..i + m] == s[from + i..from + i + m]
  {
    var slice := s[from..from + n][i..i + m];
    assert forall k :: 0 <= k < m ==> slice[k] == s[from + i + k];
  }

  lemma {:induction false} IndexAfter(s: string, tag: string, from: nat, before: string)
    requires from + |before| + |tag| <= |s| && s[from..from + |before| + |tag|] == before + tag
    requires EndsFirst(tag, before)
    ensures Index(s, tag, from) == Some(from + |before|)
  {
    var part := before + tag;
    OccursInPart(s, tag, from, part, |before|);
    assert OccursAt(part, tag, |before|);
    forall i | from <= i < from + |before| ensures !OccursAt(s, tag, i) {
      OccursInPart(s, tag, from, part, i - from);
    }
    IndexIs(s, tag, from, from + |before|);
  }

  // No end tag begins inside a start tag, so the search for one may as well begin behind it.
  lemma {:induction false} IndexPastStart(tags: Tags, s: string, start: nat)
    requires WellFormed(tags) && OccursAt(s, tags.open, start)
    ensures Index(s, tags.shut, start + 1) == Index(s, tags.shut, start + |tags.open|)
  {
    forall i | start < i < start + |tags.open| ensures !OccursAt(s, tags.shut, i) {
      NoneInsideStart(tags, s, start, i);
    }
    IndexSkips(s, tags.shut, start + 1, start + |tags.open|);
  }

  lemma {:induction false} NoneInsideStart(tags: Tags, s: string, start: nat, i: nat)
    requires WellFormed(tags) && OccursAt(s, tags.open, start) && start < i < start + |tags.open|
    ensures !OccursAt(s, tags.shut, i)
  {
    assert s[i] == s[start..start + |tags.open|][i - start] == tags.open[i - start];
    if i + |tags.shut| <= |s| { assert s[i] == s[i..i + |tags.shut|][0]; }
  }

  lemma {:induction false} IndexSkips(s: string, tag: string, from: nat, to: nat)
    requires from <= to <= |s| && forall i :: from <= i < to ==> !OccursAt(s, tag, i)
    ensures Index(s, tag, from) == Index(s, tag, to)
    decreases |s| - from
  {
    if from < to { IndexSkips(s, tag, from + 1, to); }
  }

  // A start tag, of any case, from `start` to `from`, an end tag from `to` to `next`, and neither earlier.
  predicate PairAt(tags: Tags, s: string, end: nat, start: nat, from: nat, to: nat, next: nat) {
    && end <= start <= from <= to <= next <= |s|
    && Lower(s[start..from]) == tags.open && OnlyAtEnd(tags.open, s[end..start])
    && Lower(s[to..next]) == tags.shut && OnlyAtEnd(tags.shut, s[from..to])
  }

  // There, reading gives the piece before the tags, the protected piece between them, and then
  // whatever the rest gives.
  lemma {:induction false} ReadsOnePair(tags: Tags, s: string, end: nat, start: nat, from: nat, to: nat, next: nat)
    requires WellFormed(tags) && PairAt(tags, s, end, start, from, to, next)
    ensures ReadFrom(tags, s, end) ==
            Piece(s[end..start], false) + (Piece(s[from..to], true) + ReadFrom(tags, s, next))
  {
    PairFound(tags, s, end, start, from, to, next);
    ScanFound(tags, s, end, start, to);
    ReadsFound(tags, s, end, start, from, to, next);
  }

  lemma {:induction false} PairFound(tags: Tags, s: string, end: nat, start: nat, from: nat, to: nat, next: nat)
    requires WellFormed(tags) && PairAt(tags, s, end, start, from, to, next)
    ensures Index(Lower(s), tags.open, end) == Some(start) && Index(Lower(s), tags.shut, start + 1) == Some(to)
    ensures from == start + |tags.open| && next == to + |tags.shut|
  {
    PairLengths(tags, s, end, start, from, to, next);
    PairInLower(tags, s, end, start, from, to, next);
    FindsStart(tags, Lower(s), end, start, from, Lower(s[end..start]));
    FindsEnd(tags, Lower(s), start, from, to, next, Lower(s[from..to]));
  }

  lemma {:induction false} FindsStart(tags: Tags, lower: string, end: nat, start: nat, from: nat, before: string)
    requires end <= start <= from <= |lower| && lower[end..from] == before + tags.open
    requires |before| == start - end && from == start + |tags.open| && EndsFirst(tags.open, before)
    ensures Index(lower, tags.open, end) == Some(start) && OccursAt(lower, tags.open, start)
  {
    IndexAfter(lower, tags.open, end, before);
  }

  lemma {:induction false} FindsEnd(tags: Tags, lower: string, start: nat, from: nat, to: nat, next: nat, between: string)
    requires WellFormed(tags) && OccursAt(lower, tags.open, start) && from == start + |tags.open|
    requires from <= to <= next <= |lower| && lower[from..next] == between + tags.shut
    requires |between| == to - from && next == to + |tags.shut| && EndsFirst(tags.shut, between)
    ensures Index(lower, tags.shut, start + 1) == Some(to)
  {
    IndexPastStart(tags, lower, start);
    IndexAfter(lower, tags.shut, from, between);
  }

  lemma {:induction false} PairLengths(tags: Tags, s: string, end: nat, start: nat, from: nat, to: nat, next: nat)
    requires PairAt(tags, s, end, start, from, to, next)
    ensures from == start + |tags.open| && next == to + |tags.shut|
  {
  }

  lemma {:induction false} PairInLower(tags: Tags, s: string, end: nat, start: nat, from: nat, to: nat, next: nat)
    requires PairAt(tags, s, end, start, from, to, next)
    ensures Lower(s)[end..from] == Lower(s[end..start]) + tags.open
    ensures Lower(s)[from..next] == Lower(s[from..to]) + tags.shut
  {
    LowerParts(s, end, start, from);
    LowerParts(s, from, to, next);
  }

  lemma {:induction false} LowerParts(s: string, i: nat, j: nat, k: nat)
    requires i <= j <= k <= |s|
    ensures Lower(s)[i..k] == Lower(s[i..j]) + Lower(s[j..k])
  {
  }

  lemma {:induction false} ScanFound(tags: Tags, s: string, end: nat, start: nat, to: nat)
    requires WellFormed(tags) && end <= |s| && Index(Lower(s), tags.open, end) == Some(start)
    requires Index(Lower(s), tags.shut, start + 1) == Some(to)
    ensures ScanFrom(tags, s, end) == Pair(start, start + |tags.open|, to, to + |tags.shut|)
  {
  }

  lemma {:induction false} ReadsFound(tags: Tags, s: string, end: nat, start: nat, from: nat, to: nat, next: nat)
    requires WellFormed(tags) && end <= |s| && ScanFrom(tags, s, end) == Pair(start, from, to, next)
    ensures ReadFrom(tags, s, end) ==
            Piece(s[end..start], false) + (Piece(s[from..to], true) + ReadFrom(tags, s, next))
  {
  }

  predicate Untouched(tag: string, text: string) {
    forall i :: 0 <= i < |text| ==> !OccursAt(Lower(text), tag, i)
  }

  // A rest without start tag is one regular piece.
  lemma {:induction false} ReadsRest(tags: Tags, s: string, end: nat)
    requires WellFormed(tags) && end <= |s| && Untouched(tags.open, s[end..])
    ensures ReadFrom(tags, s, end) == Piece(s[end..], false)
  {
    NoneFrom(s, tags.open, end);
  }

  lemma {:induction false} NoneFrom(s: string, tag: string, end: nat)
    requires end <= |s| && tag != "" && Untouched(tag, s[end..])
    ensures Index(Lower(s), tag, end) == None
  {
    var lower := Lower(s);
    assert lower[end..] == Lower(s[end..]);
    forall i | end <= i < |s| ensures !OccursAt(lower, tag, i) {
      if i + |tag| <= |s| {
        assert lower[end..end + (|s| - end)] == lower[end..];
        SliceOfSlice(lower, end, |s| - end, i - end, |tag|);
        assert !OccursAt(Lower(s[end..]), tag, i - end);
      }
    }
    IndexSkips(lower, tag, end, |s|);
  }

  // Behind a start tag that no end tag follows, everything from `end` on is read once more.
  lemma {:induction false} ReadsUnclosed(tags: Tags, s: string, end: nat, start: nat, from: nat)
    requires WellFormed(tags) && end <= start <= from <= |s| && Lower(s[start..from]) == tags.open
    requires OnlyAtEnd(tags.open, s[end..start]) && Untouched(tags.shut, s[from..])
    ensures ReadFrom(tags, s, end) == Piece(s[end..start], false) + Piece(s[end..], false)
  {
    OpenFound(tags, s, end, start, from);
    NoneFrom(s, tags.shut, from);
    IndexPastStart(tags, Lower(s), start);
    ScanUnclosed(tags, s, end, start);
    ReadsScanUnclosed(tags, s, end, start);
  }

  lemma {:induction false} OpenFound(tags: Tags, s: string, end: nat, start: nat, from: nat)
    requires end <= start <= from <= |s| && Lower(s[start..from]) == tags.open && OnlyAtEnd(tags.open, s[end..start])
    ensures from == start + |tags.open|
    ensures Index(Lower(s), tags.open, end) == Some(start) && OccursAt(Lower(s), tags.open, start)
  {
    LowerParts(s, end, start, from);
    FindsStart(tags, Lower(s), end, start, from, Lower(s[end..start]));
  }

  lemma {:induction false} ScanUnclosed(tags: Tags, s: string, end: nat, start: nat)
    requires WellFormed(tags) && end <= |s| && Index(Lower(s), tags.open, end) == Some(start) && start < |s|
    requires Index(Lower(s), tags.shut, start + 1) == None
    ensures ScanFrom(tags, s, end) == Unclosed(start)
  {
  }

  lemma {:induction false} ReadsScanUnclosed(tags: Tags, s: string, end: nat, start: nat)
    requires WellFormed(tags) && end <= |s| && ScanFrom(tags, s, end) == Unclosed(start)
    ensures ReadFrom(tags, s, end) == Piece(s[end..start], false) + Piece(s[end..], false)
  {
  }

  // Segments as text: each protected one between the two tags.
  function Written(tags: Tags, pairs: seq<(string, string)>, tail: string): string {
    if pairs == [] then tail
    else pairs[0].0 + tags.open + pairs[0].1 + tags.shut + Written(tags, pairs[1..], tail)
  }

  function Segments(pairs: seq<(string, string)>, tail: string): seq<Part> {
    if pairs == [] then Piece(tail, false)
    else Piece(pairs[0].0, false) + (Piece(pairs[0].1, true) + Segments(pairs[1..], tail))
  }

  // Tags in lower case that occur in no text but where they are written.
  predicate Writable(tags: Tags, pairs: seq<(string, string)>, tail: string) {
    && WellFormed(tags) && Lower(tags.open) == tags.open && Lower(tags.shut) == tags.shut
    && (forall i :: 0 <= i < |pairs| ==> OnlyAtEnd(tags.open, pairs[i].0) && OnlyAtEnd(tags.shut, pairs[i].1))
    && Untouched(tags.open, tail)
  }

  // Where the pieces of a text are.
  lemma {:induction false} FivePieces(s: string, end: nat, a: string, b: string, c: string, d: string, e: string)
    returns (i: nat, j: nat, k: nat, l: nat)
    requires end <= |s| && s[end..] == a + b + c + d + e
    ensures end <= i <= j <= k <= l <= |s|
    ensures s[end..i] == a && s[i..j] == b && s[j..k] == c && s[k..l] == d && s[l..] == e
  {
    AssociativeFour(a, b, c, d + e);
    Associative(a + b + c, d, e);
    Associative(b, c, d + e);
    i := NextPiece(s, end, a, b + (c + (d + e)));
    j := NextPiece(s, i, b, c + (d + e));
    k := NextPiece(s, j, c, d + e);
    l := NextPiece(s, k, d, e);
  }

  lemma {:induction false} NextPiece(s: string, end: nat, a: string, rest: string) returns (next: nat)
    requires end <= |s| && s[end..] == a + rest
    ensures end <= next <= |s| && s[end..next] == a && s[next..] == rest
  {
    next := end + |a|;
    assert s[end..next] == s[end..][..|a|] && s[next..] == s[end..][|a|..];
  }

  // Reading is the inverse of writing: whatever stands before, the segments come back as they were.
  lemma {:induction false} ReadsWritten(tags: Tags, pairs: seq<(string, string)>, tail: string, s: string, end: nat)
    requires Writable(tags, pairs, tail) && end <= |s| && s[end..] == Written(tags, pairs, tail)
    ensures ReadFrom(tags, s, end) == Segments(pairs, tail)
    decreases |pairs|
  {
    if pairs == [] {
      ReadsRest(tags, s, end);
    } else {
      var (a, b) := pairs[0];
      var start, from, to, next := PairWritten(tags, s, end, a, b, Written(tags, pairs[1..], tail));
      ReadsOnePair(tags, s, end, start, from, to, next);
      ReadsWritten(tags, pairs[1..], tail, s, next);
    }
  }

  lemma {:induction false} PairWritten(tags: Tags, s: string, end: nat, a: string, b: string, rest: string)
    returns (start: nat, from: nat, to: nat, next: nat)
    requires end <= |s| && s[end..] == a + tags.open + b + tags.shut + rest
    requires Lower(tags.open) == tags.open && Lower(tags.shut) == tags.shut
    requires OnlyAtEnd(tags.open, a) && OnlyAtEnd(tags.shut, b)
    ensures PairAt(tags, s, end, start, from, to, next)
    ensures s[end..start] == a && s[from..to] == b && s[next..] == rest
  {
    start, from, to, next := FivePieces(s, end, a, tags.open, b, tags.shut, rest);
    SlicesMakePair(tags, s, end, start, from, to, next, a, b);
  }

  lemma {:induction false} SlicesMakePair(tags: Tags, s: string, end: nat, start: nat, from: nat, to: nat, next: nat,
                                          a: string, b: string)
    requires end <= start <= from <= to <= next <= |s|
    requires s[end..start] == a && s[start..from] == tags.open && s[from..to] == b && s[to..next] == tags.shut
    requires Lower(tags.open) == tags.open && Lower(tags.shut) == tags.shut
    requires OnlyAtEnd(tags.open, a) && OnlyAtEnd(tags.shut, b)
    ensures PairAt(tags, s, end, start, from, to, next)
  {
  }

  // When every start tag has an end tag somewhere after it, reading loses and repeats nothing.
  lemma {:induction false} ClosedTagsReadOnce(tags: Tags, s: string, end: nat)
    requires WellFormed(tags) && end <= |s|
    requires forall i: nat :: i < |s| && OccursAt(Lower(s), tags.open, i) ==>
               exists j: nat :: i < j <= |s| && OccursAt(Lower(s), tags.shut, j)
    ensures PartsText(ReadFrom(tags, s, end)) == Untagged(tags, s, end)
    decreases |s| - end
  {
    NothingUnclosed(tags, s, end);
    ReadsUntagged(tags, s, end);
  }

  lemma {:induction false} NothingUnclosed(tags: Tags, s: string, end: nat)
    requires WellFormed(tags) && end <= |s|
    requires forall i: nat :: i < |s| && OccursAt(Lower(s), tags.open, i) ==>
               exists j: nat :: i < j <= |s| && OccursAt(Lower(s), tags.shut, j)
    ensures !TextBeforeUnclosed(tags, s, end)
    decreases |s| - end
  {
    match ScanFrom(tags, s, end) {
      case NoTag =>
      case Unclosed(start) =>
        var j: nat :| start < j <= |s| && OccursAt(Lower(s), tags.shut, j);
        IndexIsFirst(Lower(s), tags.shut, start + 1, j);
        assert false;
      case Pair(_, _, _, next) => NothingUnclosed(tags, s, next);
    }
  }
}
