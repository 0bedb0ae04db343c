/**
 * Matching a username against reserved terms (cilogon/reserved_usernames.py:43-82). A compiled
 * term is a regular expression of literal characters and `.*`; it is kept as the normalised
 * term itself, each `*` standing for `.*`, and `Matches` gives it the meaning the regular
 * expression has, anchored at the start only.
 */
module Reserved {
  import opened Seqs
  import opened Strings

  predicate Ignored(c: char) {
    c == ' ' || c == '-' || c == '_'
  }

  function NormalizeChar(c: char): string {
    if Ignored(c) then "" else [LowerChar(c)]
  }

  function Normalize(s: string): string {
    if s == "" then "" else NormalizeChar(s[0]) + Normalize(s[1..])
  }

  // `re.compile("^" + body).match(s)`: `.*` takes any characters but a newline.
  predicate Matches(term: string, s: string)
    decreases |term| + |s|
  {
    if term == "" then true
    else if term[0] == '*' then Matches(term[1..], s) || (s != "" && s[0] != '\n' && Matches(term, s[1..]))
    else s != "" && s[0] == term[0] && Matches(term[1..], s[1..])
  }

  // Does this one term, as entered, block the normalised candidate?
  predicate Blocks(pattern: string, candidate: string) {
    Normalize(pattern) != "" && Matches(Normalize(pattern), candidate)
  }

  predicate IsReserved(username: string, patterns: seq<string>) {
    Normalize(username) != "" && exists i :: 0 <= i < |patterns| && Blocks(patterns[i], Normalize(username))
  }

  method UsernameIsReserved(username: string, patterns: seq<string>) returns (reserved: bool)
    ensures reserved == IsReserved(username, patterns)
  {
    var candidate := Normalize(username);
    if candidate == "" { return false; }
    for i := 0 to |patterns|
      invariant forall k :: 0 <= k < i ==> !Blocks(patterns[k], candidate)
    {
      var term := Normalize(patterns[i]);
      if term != "" && Matches(term, candidate) { return true; }
    }
    reserved := false;
  }

  // ----- What a term means

  // The pieces of a term between its wildcards.
  function Pieces(term: string): (pieces: seq<string>)
    ensures pieces != []
  {
    if term == "" then [""]
    else
      var rest := Pieces(term[1..]);
      if term[0] == '*' then [""] + rest else [[term[0]] + rest[0]] + rest[1..]
  }

  predicate OneLine(s: string) {
    forall i :: 0 <= i < |s| ==> s[i] != '\n'
  }

  // The pieces occur in `s` in order and without overlap, the first at the start, with no newline
  // between one and the next.
  ghost predicate Fit(pieces: seq<string>, s: string)
    decreases |pieces|
  {
    pieces == [] ||
    (pieces[0] <= s &&
     (|pieces| == 1 || exists k: nat :: |pieces[0]| <= k <= |s| && OneLine(s[|pieces[0]|..k]) && Fit(pieces[1..], s[k..])))
  }

  // The next piece may start at `k`.
  ghost predicate FitsAt(rest: seq<string>, s: string, from: nat, k: nat) {
    from <= k <= |s| && OneLine(s[from..k]) && Fit(rest, s[k..])
  }

  lemma {:induction false} FitStep(first: string, rest: seq<string>, s: string)
    requires rest != []
    ensures Fit([first] + rest, s) <==> first <= s && exists k: nat :: FitsAt(rest, s, |first|, k)
  {
    var pieces := [first] + rest;
    assert pieces[1..] == rest;
    if first <= s && exists k: nat :: FitsAt(rest, s, |first|, k) {
      var k: nat :| FitsAt(rest, s, |first|, k);
      assert |pieces[0]| <= k <= |s| && OneLine(s[|pieces[0]|..k]) && Fit(pieces[1..], s[k..]);
    }
    if Fit(pieces, s) {
      var k: nat :| |pieces[0]| <= k <= |s| && OneLine(s[|pieces[0]|..k]) && Fit(pieces[1..], s[k..]);
      assert FitsAt(rest, s, |first|, k);
    }
  }

  // One more character in front of everything.
  lemma {:induction false} FitLiteral(c: char, first: string, rest: seq<string>, s: string)
    ensures Fit([[c] + first] + rest, s) <==> s != "" && s[0] == c && Fit([first] + rest, s[1..])
  {
    var longer := [c] + first;
    assert longer <= s <==> s != "" && s[0] == c && first <= s[1..] by {
      if s != "" { assert s == [s[0]] + s[1..]; }
    }
    if rest != [] {
      FitStep(longer, rest, s);
      if s != "" {
        FitStep(first, rest, s[1..]);
        forall k: nat | 1 <= k <= |s|
          ensures FitsAt(rest, s, |longer|, k) <==> FitsAt(rest, s[1..], |first|, k - 1)
        {
          if |longer| <= k { ShiftedGap(s, |first|, k - 1); }
        }
        if k: nat :| FitsAt(rest, s[1..], |first|, k) {
          assert FitsAt(rest, s, |longer|, k + 1);
        }
        if k: nat :| FitsAt(rest, s, |longer|, k) {
          assert FitsAt(rest, s[1..], |first|, k - 1);
        }
      }
    } else {
      assert [longer] + rest == [longer] && [first] + rest == [first];
    }
  }

  lemma {:induction false} ShiftedGap(s: string, i: nat, j: nat)
    requires s != "" && i <= j < |s|
    ensures s[1..][i..j] == s[i + 1..j + 1] && s[1..][j..] == s[j + 1..]
  {
  }

  lemma {:induction false} GapGrows(rest: seq<string>, s: string, k: nat)
    requires s != "" && 1 <= k <= |s|
    ensures FitsAt(rest, s, 0, k) <==> s[0] != '\n' && FitsAt(rest, s[1..], 0, k - 1)
  {
    ShiftedGap(s, 0, k - 1);
    assert s[0..k] == [s[0]] + s[1..k];
    assert s[1..k] == s[1..][0..k - 1];
  }

  lemma {:induction false} FitWildcard(rest: seq<string>, s: string)
    requires rest != []
    ensures Fit([""] + rest, s) <==>
            Fit(rest, s) || (s != "" && s[0] != '\n' && Fit([""] + rest, s[1..]))
  {
    FitStep("", rest, s);
    assert s[0..] == s;
    assert Fit(rest, s) <==> FitsAt(rest, s, 0, 0);
    if s != "" {
      FitStep("", rest, s[1..]);
      forall k: nat | 1 <= k <= |s|
        ensures FitsAt(rest, s, 0, k) <==> s[0] != '\n' && FitsAt(rest, s[1..], 0, k - 1)
      {
        GapGrows(rest, s, k);
      }
      if k: nat :| FitsAt(rest, s[1..], 0, k) {
        assert s[0] != '\n' ==> FitsAt(rest, s, 0, k + 1);
      }
      if k: nat :| FitsAt(rest, s, 0, k) {
        assert k > 0 ==> FitsAt(rest, s[1..], 0, k - 1);
      }
    }
  }

  // The regular expression matches exactly when the pieces fit.
  lemma {:induction false} MatchesIffPiecesFit(term: string, s: string)
    ensures Matches(term, s) <==> Fit(Pieces(term), s)
    decreases |term| + |s|
  {
    if term == "" {
      assert Fit([""], s);
    } else {
      var rest := Pieces(term[1..]);
      if term[0] == '*' {
        MatchesIffPiecesFit(term[1..], s);
        if s != "" { MatchesIffPiecesFit(term, s[1..]); }
        FitWildcard(rest, s);
      } else {
        if s != "" { MatchesIffPiecesFit(term[1..], s[1..]); }
        assert rest == [rest[0]] + rest[1..];
        FitLiteral(term[0], rest[0], rest[1..], s);
      }
    }
  }

  // A username is reserved exactly when it has letters to compare and the pieces of some term do.
  lemma {:induction false} ReservedIffPiecesFit(username: string, patterns: seq<string>)
    ensures IsReserved(username, patterns) <==>
            (Normalize(username) != "" &&
             exists i :: 0 <= i < |patterns| && Normalize(patterns[i]) != ""
                         && Fit(Pieces(Normalize(patterns[i])), Normalize(username)))
  {
    forall i | 0 <= i < |patterns|
      ensures Blocks(patterns[i], Normalize(username)) <==>
              Normalize(patterns[i]) != "" && Fit(Pieces(Normalize(patterns[i])), Normalize(username))
    {
      MatchesIffPiecesFit(Normalize(patterns[i]), Normalize(username));
    }
  }

  // ----- The rules an administrator is told

  lemma {:induction false} NormalizeConcat(a: string, b: string)
    ensures Normalize(a + b) == Normalize(a) + Normalize(b)
  {
    if a == "" {
      assert a + b == b;
    } else {
      NormalizeConcat(a[1..], b);
      assert (a + b)[1..] == a[1..] + b;
      Associative(NormalizeChar(a[0]), Normalize(a[1..]), Normalize(b));
    }
  }

  lemma {:induction false} NormalizeIgnores(a: string, separator: char, b: string)
    requires Ignored(separator)
    ensures Normalize(a + [separator] + b) == Normalize(a + b)
  {
    NormalizeConcat(a + [separator], b);
    NormalizeConcat(a, [separator]);
    NormalizeConcat(a, b);
    NormalizeOne(separator);
    assert Normalize(a) + "" == Normalize(a);
  }

  // Apart from those, a name is compared as its lower case.
  lemma {:induction false} NormalizeKeepsRest(s: string)
    requires forall c :: c in s ==> c != ' ' && c != '-' && c != '_'
    ensures Normalize(s) == Lower(s)
  {
    if s != "" {
      assert s[0] in s && forall c :: c in s[1..] ==> c in s;
      NormalizeKeepsRest(s[1..]);
      assert Lower(s) == [LowerChar(s[0])] + Lower(s[1..]);
    }
  }

  lemma {:induction false} NormalizeOne(c: char)
    ensures Normalize([c]) == NormalizeChar(c)
  {
    assert [c][1..] == "";
  }

  lemma {:induction false} NormalizeIgnoresCase(a: string, b: string)
    requires Lower(a) == Lower(b)
    ensures Normalize(a) == Normalize(b)
  {
    if a != "" {
      assert Lower(a)[0] == Lower(b)[0];
      assert Lower(a[1..]) == Lower(a)[1..] == Lower(b)[1..] == Lower(b[1..]);
      NormalizeIgnoresCase(a[1..], b[1..]);
    }
  }

  // Inserting or dropping a space, hyphen or underscore, on either side, never changes the verdict.
  lemma {:induction false} SeparatorsDoNotMatter(a: string, b: string, separator: char,
                                                 username: string, patterns: seq<string>, i: nat)
    requires (separator == ' ' || separator == '-' || separator == '_') && i < |patterns|
    ensures IsReserved(a + [separator] + b, patterns) == IsReserved(a + b, patterns)
    ensures patterns[i] == a + b ==>
              IsReserved(username, patterns[i := a + [separator] + b]) == IsReserved(username, patterns)
  {
    NormalizeIgnores(a, separator, b);
    if patterns[i] == a + b {
      var edited := patterns[i := a + [separator] + b];
      var candidate := Normalize(username);
      assert forall k :: 0 <= k < |patterns| ==> Blocks(edited[k], candidate) == Blocks(patterns[k], candidate);
      SameVerdict(username, patterns, edited);
    }
  }

  lemma {:induction false} SameVerdict(username: string, patterns: seq<string>, edited: seq<string>)
    requires |edited| == |patterns|
    requires forall k :: 0 <= k < |patterns| ==>
               Blocks(edited[k], Normalize(username)) == Blocks(patterns[k], Normalize(username))
    ensures IsReserved(username, edited) == IsReserved(username, patterns)
  {
  }

  lemma {:induction false} CaseDoesNotMatter(username: string, username': string,
                                             patterns: seq<string>, patterns': seq<string>)
    requires Lower(username) == Lower(username') && |patterns| == |patterns'|
    requires forall k :: 0 <= k < |patterns| ==> Lower(patterns[k]) == Lower(patterns'[k])
    ensures IsReserved(username, patterns) == IsReserved(username', patterns')
  {
    NormalizeIgnoresCase(username, username');
    forall k | 0 <= k < |patterns| ensures Normalize(patterns[k]) == Normalize(patterns'[k]) {
      NormalizeIgnoresCase(patterns[k], patterns'[k]);
    }
    SameVerdict(username, patterns, patterns');
  }

  lemma {:induction false} MatchesLonger(term: string, s: string, more: string)
    requires Matches(term, s)
    ensures Matches(term, s + more)
    decreases |term| + |s|
  {
    if term != "" {
      if s != "" { assert (s + more)[1..] == s[1..] + more; }
      if term[0] == '*' {
        if Matches(term[1..], s) {
          MatchesLonger(term[1..], s, more);
        } else {
          MatchesLonger(term, s[1..], more);
        }
      } else {
        MatchesLonger(term[1..], s[1..], more);
      }
    }
  }

  // A reserved username stays reserved whatever is written after it.
  lemma {:induction false} TrailingCharactersDoNotHelp(username: string, more: string, patterns: seq<string>)
    requires IsReserved(username, patterns)
    ensures IsReserved(username + more, patterns)
  {
    NormalizeConcat(username, more);
    var i :| 0 <= i < |patterns| && Blocks(patterns[i], Normalize(username));
    MatchesLonger(Normalize(patterns[i]), Normalize(username), Normalize(more));
    assert Blocks(patterns[i], Normalize(username + more));
  }

  // A term without wildcard blocks exactly the usernames that begin with it.
  lemma {:induction false} PlainTermIsPrefix(term: string, s: string)
    requires '*' !in term
    ensures Matches(term, s) <==> term <= s
    decreases |term|
  {
    if term != "" {
      assert term[0] in term && forall c :: c in term[1..] ==> c in term;
      if s != "" {
        PlainTermIsPrefix(term[1..], s[1..]);
        assert term == [term[0]] + term[1..] && s == [s[0]] + s[1..];
      }
    }
  }

  // The word occurs in `s`, beginning on its first line.
  predicate Contains(s: string, word: string) {
    exists k :: 0 <= k <= |s| && OneLine(s[..k]) && word <= s[k..]
  }

  // A term `*word` or `*word*` blocks exactly the usernames that contain the word, which a wildcard
  // does not look for beyond a newline.
  lemma {:induction false} WildTermIsContainment(word: string, s: string)
    requires '*' !in word
    ensures Matches("*" + word, s) <==> Contains(s, word)
    ensures Matches("*" + word + "*", s) <==> Contains(s, word)
    decreases |s|
  {
    var t, u := "*" + word, "*" + word + "*";
    assert t[1..] == word && u[1..] == word + "*";
    PlainTermIsPrefix(word, s);
    StarAfter(word, s);
    if s != "" {
      WildTermIsContainment(word, s[1..]);
    }
    ContainsStep(word, s);
  }

  lemma {:induction false} ContainsStep(word: string, s: string)
    ensures Contains(s, word) <==> word <= s || (s != "" && s[0] != '\n' && Contains(s[1..], word))
  {
    if word <= s { assert s[0..] == s && OneLine(s[..0]); }
    if s != "" {
      forall k | 1 <= k <= |s|
        ensures s[1..][k - 1..] == s[k..] && (OneLine(s[..k]) <==> s[0] != '\n' && OneLine(s[1..][..k - 1]))
      {
        assert s[..k] == [s[0]] + s[1..][..k - 1];
      }
      if s[0] != '\n' && Contains(s[1..], word) {
        var k :| 0 <= k <= |s[1..]| && OneLine(s[1..][..k]) && word <= s[1..][k..];
        assert OneLine(s[..k + 1]) && word <= s[k + 1..];
      }
      if Contains(s, word) && !(word <= s) {
        var k :| 0 <= k <= |s| && OneLine(s[..k]) && word <= s[k..];
        assert k > 0 && OneLine(s[1..][..k - 1]) && word <= s[1..][k - 1..];
      }
    }
  }

  lemma {:induction false} StarAfter(word: string, s: string)
    requires '*' !in word
    ensures Matches(word + "*", s) <==> word <= s
    decreases |word|
  {
    var t := word + "*";
    if word == "" {
      assert t == "*" && t[1..] == "";
    } else {
      assert word[0] in word && forall c :: c in word[1..] ==> c in word;
      assert t[0] == word[0] && t[1..] == word[1..] + "*";
      if s != "" {
        StarAfter(word[1..], s[1..]);
        assert word == [word[0]] + word[1..] && s == [s[0]] + s[1..];
      }
    }
  }
}
