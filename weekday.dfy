/** The weekday test applied to one schedule string: the regular expression
    /\b(wed(?:nesday|nesdays)?)\b/i of searchForWednesday, without the `u` flag.

    The model has two halves. `Exec` follows the order in which the regular
    expression engine tries things: start positions from left to right, and at
    each position the three spellings in the order the pattern prefers them
    (the greedy `?` tries its group first, and inside the group "nesday" comes
    before "nesdays"). `MentionsWednesday` is the reference meaning: some
    ASCII-case-insensitive occurrence of "wed", "wednesday" or "wednesdays"
    with a non-word character or an end of the string on each side.
    `ExecFindsIffMentions` proves the two agree. */
module Weekday {

  import opened Wrappers

  /** A successful match: where it starts and the text it covers. */
  datatype Match = Match(index: nat, text: string)

  /** `\w` without the `u` flag: ASCII letters, digits and underscore. */
  predicate IsWordChar(c: char) {
    ('a' <= c <= 'z') || ('A' <= c <= 'Z') || ('0' <= c <= '9') || c == '_'
  }

  /** Case folding of the `i` flag without `u`: only ASCII letters fold, since
      a non-ASCII character is never identified with an ASCII one. */
  function Fold(c: char): char {
    if 'A' <= c <= 'Z' then (c as int + 32) as char else c
  }

  function FoldAll(s: string): string {
    seq(|s|, i requires 0 <= i < |s| => Fold(s[i]))
  }

  /** The spellings of the pattern's alternation, in the order it tries them. */
  const Alternatives: seq<string> := ["wednesday", "wednesdays", "wed"]

  /** True when position `k` (between s[k-1] and s[k]) holds a word character. */
  predicate WordAt(s: string, k: int) {
    0 <= k < |s| && IsWordChar(s[k])
  }

  /** `\b` at position k: a word character on exactly one side. */
  predicate IsBoundary(s: string, k: int) {
    WordAt(s, k - 1) != WordAt(s, k)
  }

  /** The whole pattern succeeds at position i with the spelling w. */
  predicate PatternAt(s: string, i: int, w: string) {
    0 <= i && i + |w| <= |s| &&
    IsBoundary(s, i) && FoldAll(s[i..i + |w|]) == w && IsBoundary(s, i + |w|)
  }

  /** Reference meaning: w occurs at i, case-insensitively, with no word
      character touching it on either side. */
  ghost predicate StandaloneAt(s: string, i: int, w: string) {
    0 <= i && i + |w| <= |s| &&
    (i == 0 || !IsWordChar(s[i - 1])) &&
    FoldAll(s[i..i + |w|]) == w &&
    (i + |w| == |s| || !IsWordChar(s[i + |w|]))
  }

  ghost predicate IsSpelling(w: string) {
    w == "wed" || w == "wednesday" || w == "wednesdays"
  }

  ghost predicate MentionsWednesday(s: string) {
    exists i, w :: IsSpelling(w) && StandaloneAt(s, i, w)
  }

  /** The first of `alts` with which the pattern succeeds at position i. */
  function TryAt(s: string, i: nat, alts: seq<string>): (r: Option<string>)
    ensures r.Some? ==> r.value in alts && PatternAt(s, i, r.value)
    ensures r.Some? ==> exists k :: 0 <= k < |alts| && alts[k] == r.value &&
                          forall j :: 0 <= j < k ==> !PatternAt(s, i, alts[j])
    ensures r.None? ==> forall j :: 0 <= j < |alts| ==> !PatternAt(s, i, alts[j])
  {
    if alts == [] then None
    else if PatternAt(s, i, alts[0]) then Some(alts[0])
    else
      var r := TryAt(s, i, alts[1..]);
      assert forall j :: 1 <= j < |alts| ==> alts[j] == alts[1..][j - 1];
      if r.Some? then
        var k :| 0 <= k < |alts[1..]| && alts[1..][k] == r.value &&
                 forall j :: 0 <= j < k ==> !PatternAt(s, i, alts[1..][j]);
        assert alts[k + 1] == r.value;
        r
      else r
  }

  /** No spelling lets the pattern succeed at position j. */
  predicate NoPatternAt(s: string, j: int) {
    forall k :: 0 <= k < |Alternatives| ==> !PatternAt(s, j, Alternatives[k])
  }

  /** Every spelling is non-empty, so the pattern cannot succeed at the end
      of the string or beyond it. */
  lemma NoPatternPastEnd(s: string, from: int)
    requires from >= |s|
    ensures forall j :: from <= j ==> NoPatternAt(s, j)
  {
    forall j, k | from <= j && 0 <= k < |Alternatives| ensures !PatternAt(s, j, Alternatives[k]) {
      assert |Alternatives[k]| >= 3;
    }
  }

  /** What the spelling TryAt reports at i says about the slice there. */
  lemma FoundAt(s: string, i: nat, w: string)
    requires TryAt(s, i, Alternatives) == Some(w)
    ensures i + |w| <= |s| && FoldAll(s[i..i + |w|]) == w
    ensures w in Alternatives && PatternAt(s, i, w)
  {
  }

  /** When no spelling succeeds at i, the leftmost match from i + 1 on is the
      leftmost match from i on. */
  lemma NotFoundAt(s: string, i: nat, r: Option<Match>)
    requires TryAt(s, i, Alternatives).None?
    requires r.Some? ==> forall j :: i + 1 <= j < r.value.index ==> NoPatternAt(s, j)
    requires r.None? ==> forall j :: i + 1 <= j ==> NoPatternAt(s, j)
    ensures r.Some? ==> forall j :: i <= j < r.value.index ==> NoPatternAt(s, j)
    ensures r.None? ==> forall j :: i <= j ==> NoPatternAt(s, j)
  {
    assert NoPatternAt(s, i);
  }

  /** The leftmost match at or after position `from`. */
  function ExecFrom(s: string, from: nat): (r: Option<Match>)
    requires from <= |s|
    ensures r.Some? ==> from <= r.value.index && r.value.index + |r.value.text| <= |s| &&
                        r.value.text == s[r.value.index..r.value.index + |r.value.text|] &&
                        FoldAll(r.value.text) in Alternatives &&
                        PatternAt(s, r.value.index, FoldAll(r.value.text))
    ensures r.Some? ==> forall j :: from <= j < r.value.index ==> NoPatternAt(s, j)
    ensures r.None? ==> forall j :: from <= j ==> NoPatternAt(s, j)
    decreases |s| - from
  {
    if from == |s| then
      NoPatternPastEnd(s, from);
      None
    else match TryAt(s, from, Alternatives)
      case Some(w) =>
        FoundAt(s, from, w);
        Some(Match(from, s[from..from + |w|]))
      case None =>
        var r := ExecFrom(s, from + 1);
        NotFoundAt(s, from, r);
        r
  }

  /** `schedule.match(pattern)`: the first match, or none (JavaScript's null). */
  function Exec(s: string): (r: Option<Match>)
    ensures r.Some? ==> forall j :: 0 <= j < r.value.index ==> NoPatternAt(s, j)
    ensures r.Some? ==> FoldAll(r.value.text) in Alternatives &&
                        PatternAt(s, r.value.index, FoldAll(r.value.text))
    ensures r.None? ==> forall j :: 0 <= j ==> NoPatternAt(s, j)
  {
    ExecFrom(s, 0)
  }

  /** The match is truthy exactly when it is not null. */
  predicate Matches(s: string): (r: bool)
    ensures r <==> exists j :: 0 <= j <= |s| && !NoPatternAt(s, j)
  {
    var m := Exec(s);
    assert m.Some? ==> !NoPatternAt(s, m.value.index) by {
      if m.Some? {
        var k :| 0 <= k < |Alternatives| && Alternatives[k] == FoldAll(m.value.text);
        assert PatternAt(s, m.value.index, Alternatives[k]);
      }
    }
    m.Some?
  }

  lemma FoldIsWordChar(c: char)
    requires 'a' <= Fold(c) <= 'z'
    ensures IsWordChar(c)
  {
  }

  /** Every spelling begins and ends with a letter, so `\b` before it means
      "start of string or non-word character", and after it "end of string or
      non-word character". */
  lemma PatternIffStandalone(s: string, i: int, w: string)
    requires IsSpelling(w)
    ensures PatternAt(s, i, w) <==> StandaloneAt(s, i, w)
  {
    if 0 <= i && i + |w| <= |s| && FoldAll(s[i..i + |w|]) == w {
      var t := s[i..i + |w|];
      assert Fold(t[0]) == w[0] && t[0] == s[i];
      FoldIsWordChar(s[i]);
      assert Fold(t[|w| - 1]) == w[|w| - 1] && t[|w| - 1] == s[i + |w| - 1];
      FoldIsWordChar(s[i + |w| - 1]);
    }
  }

  lemma AlternativesAreSpellings()
    ensures forall k :: 0 <= k < |Alternatives| ==> IsSpelling(Alternatives[k])
    ensures forall w :: IsSpelling(w) ==> w in Alternatives
  {
  }

  /** The regular expression finds a match exactly when the schedule mentions
      the weekday as a standalone word. */
  lemma ExecFindsIffMentions(s: string)
    ensures Matches(s) <==> MentionsWednesday(s)
  {
    AlternativesAreSpellings();
    var r := Exec(s);
    if r.Some? {
      var w := FoldAll(r.value.text);
      PatternIffStandalone(s, r.value.index, w);
      assert IsSpelling(w) && StandaloneAt(s, r.value.index, w);
    } else {
      forall i, w | IsSpelling(w) ensures !StandaloneAt(s, i, w) {
        PatternIffStandalone(s, i, w);
        if 0 <= i {
          assert NoPatternAt(s, i);
          assert w == Alternatives[0] || w == Alternatives[1] || w == Alternatives[2];
        }
      }
    }
  }

  /** Folding commutes with taking a prefix. */
  lemma FoldAllPrefix(s: string, n: nat)
    requires n <= |s|
    ensures FoldAll(s)[..n] == FoldAll(s[..n])
  {
  }

  /** "wed" occurs at i, in any letter case, regardless of its neighbours. */
  predicate WedAt(s: string, i: int) {
    0 <= i && i + 3 <= |s| && FoldAll(s[i..i + 3]) == "wed"
  }

  /** Every match starts with "wed", in some letter case. */
  lemma MatchStartsWithWed(s: string)
    ensures Matches(s) ==> WedAt(s, Exec(s).value.index)
    ensures Matches(s) ==> Fold(s[Exec(s).value.index]) == 'w'
  {
    if Matches(s) {
      var m := Exec(s).value;
      FoldAllPrefix(m.text, 3);
      assert m.text[..3] == s[m.index..m.index + 3];
      assert FoldAll(s[m.index..m.index + 3])[0] == Fold(s[m.index]);
    }
  }

  /** A schedule with no case-insensitive "wed" anywhere never matches. */
  lemma NoWedNeverMatches(s: string)
    requires forall i :: !WedAt(s, i)
    ensures !Matches(s)
  {
    MatchStartsWithWed(s);
  }

  /** What an occurrence implies letter by letter. */
  lemma StandaloneLetters(s: string, i: int, w: string)
    requires IsSpelling(w)
    ensures StandaloneAt(s, i, w) ==>
              0 <= i && i + |w| <= |s| &&
              Fold(s[i]) == 'w' && Fold(s[i + 1]) == 'e' && Fold(s[i + 2]) == 'd' &&
              Fold(s[i + |w| - 1]) == w[|w| - 1] &&
              (i == 0 || !IsWordChar(s[i - 1])) &&
              (i + |w| == |s| || !IsWordChar(s[i + |w|]))
  {
    if StandaloneAt(s, i, w) {
      var t := s[i..i + |w|];
      assert FoldAll(t)[0] == Fold(s[i]) && FoldAll(t)[1] == Fold(s[i + 1]) && FoldAll(t)[2] == Fold(s[i + 2]);
      assert FoldAll(t)[|w| - 1] == Fold(s[i + |w| - 1]);
    }
  }

  /** An occurrence makes the pattern match. */
  lemma MatchesAtOccurrence(s: string, i: int, w: string)
    requires IsSpelling(w) && StandaloneAt(s, i, w)
    ensures Matches(s)
  {
    ExecFindsIffMentions(s);
  }

  /** Without an occurrence the pattern does not match. */
  lemma NoMatchWithoutOccurrence(s: string)
    ensures (forall i, w :: IsSpelling(w) ==> !StandaloneAt(s, i, w)) ==> !Matches(s)
  {
    ExecFindsIffMentions(s);
  }

  /** Folding a string first changes neither its word characters nor the
      folded text of any of its slices. */
  lemma StandaloneUnderFold(s: string, i: int, w: string)
    ensures StandaloneAt(s, i, w) <==> StandaloneAt(FoldAll(s), i, w)
  {
    if 0 <= i && i + |w| <= |s| {
      var f := FoldAll(s);
      var a, b := FoldAll(f[i..i + |w|]), FoldAll(s[i..i + |w|]);
      assert a == b by {
        forall k | 0 <= k < |w| ensures a[k] == b[k] {
          assert f[i + k] == Fold(s[i + k]);
          assert a[k] == Fold(f[i + k]) && b[k] == Fold(s[i + k]);
          assert Fold(Fold(s[i + k])) == Fold(s[i + k]);
        }
      }
      if i > 0 {
        assert f[i - 1] == Fold(s[i - 1]);
      }
      if i + |w| < |s| {
        assert f[i + |w|] == Fold(s[i + |w|]);
      }
    }
  }

  /** The `i` flag: changing the case of ASCII letters never changes whether
      a schedule matches. */
  lemma CaseInsensitive(s: string)
    ensures Matches(FoldAll(s)) <==> Matches(s)
  {
    ExecFindsIffMentions(s);
    ExecFindsIffMentions(FoldAll(s));
    forall i, w ensures StandaloneAt(s, i, w) <==> StandaloneAt(FoldAll(s), i, w) {
      StandaloneUnderFold(s, i, w);
    }
  }

  /** A schedule without the letter w, in either case, never matches. */
  lemma NoWNeverMatches(s: string)
    requires forall j :: 0 <= j < |s| ==> Fold(s[j]) != 'w'
    ensures !Matches(s)
  {
    MatchStartsWithWed(s);
  }

  /** The pattern matches schedules that name the weekday as a word of their
      own, in any letter case and in any of its spellings. */
  lemma StandaloneExamples()
    ensures Matches("Wed 7pm") && Matches("WEDNESDAYS")
    ensures Matches("Tue/Wed.") && Matches("Wednesday's")
  {
    MatchesWed7pmSpaced();
    MatchesAllCaps();
    MatchesAfterSlash();
    MatchesBeforeApostrophe();
  }

  lemma MatchesWed7pmSpaced()
    ensures Matches("Wed 7pm")
  {
    assert "Wed 7pm"[0..3] == "Wed" && FoldAll("Wed") == "wed";
    MatchesAtOccurrence("Wed 7pm", 0, "wed");
  }

  lemma MatchesAllCaps()
    ensures Matches("WEDNESDAYS")
  {
    assert "WEDNESDAYS"[0..10] == "WEDNESDAYS" && FoldAll("WEDNESDAYS") == "wednesdays";
    MatchesAtOccurrence("WEDNESDAYS", 0, "wednesdays");
  }

  lemma MatchesAfterSlash()
    ensures Matches("Tue/Wed.")
  {
    assert "Tue/Wed."[4..7] == "Wed" && FoldAll("Wed") == "wed";
    MatchesAtOccurrence("Tue/Wed.", 4, "wed");
  }

  lemma MatchesBeforeApostrophe()
    ensures Matches("Wednesday's")
  {
    assert "Wednesday's"[0..9] == "Wednesday" && FoldAll("Wednesday") == "wednesday";
    MatchesAtOccurrence("Wednesday's", 0, "wednesday");
  }

  /** No string in which a letter, digit or underscore touches the spelling
      matches. */
  lemma TouchingExamples()
    ensures !Matches("Wedding") && !Matches("wedge") && !Matches("Wed7pm")
    ensures !Matches("_wed") && !Matches("wednesdayx")
  {
    NoMatchWedding();
    NoMatchWedge();
    NoMatchWed7pm();
    NoMatchUnderscored();
    NoMatchLetterAfter();
  }

  /** A string whose only w (in either case) is at position p, and in which
      none of the three spellings stands alone at p, does not match. */
  lemma NoMatchAtSoleW(s: string, p: int)
    requires forall j :: 0 <= j < |s| && j != p ==> Fold(s[j]) != 'w'
    requires !StandaloneAt(s, p, "wed") && !StandaloneAt(s, p, "wednesday")
    requires !StandaloneAt(s, p, "wednesdays")
    ensures !Matches(s)
  {
    forall i, w | IsSpelling(w) ensures !StandaloneAt(s, i, w) {
      StandaloneLetters(s, i, w);
    }
    NoMatchWithoutOccurrence(s);
  }

  lemma NoMatchWedding()
    ensures !Matches("Wedding")
  {
    var s := "Wedding";
    forall j | 0 <= j < |s| && j != 0 ensures Fold(s[j]) != 'w' {
      assert s[j] in "eding";
    }
    assert IsWordChar(s[3]);
    NoMatchAtSoleW(s, 0);
  }

  lemma NoMatchWedge()
    ensures !Matches("wedge")
  {
    var s := "wedge";
    forall j | 0 <= j < |s| && j != 0 ensures Fold(s[j]) != 'w' {
      assert s[j] in "edg";
    }
    assert IsWordChar(s[3]);
    NoMatchAtSoleW(s, 0);
  }

  lemma NoMatchWed7pm()
    ensures !Matches("Wed7pm")
  {
    var s := "Wed7pm";
    forall j | 0 <= j < |s| && j != 0 ensures Fold(s[j]) != 'w' {
      assert s[j] in "ed7pm";
    }
    assert IsWordChar(s[3]);
    NoMatchAtSoleW(s, 0);
  }

  lemma NoMatchUnderscored()
    ensures !Matches("_wed")
  {
    var s := "_wed";
    forall j | 0 <= j < |s| && j != 1 ensures Fold(s[j]) != 'w' {
      assert s[j] in "_ed";
    }
    assert IsWordChar(s[0]);
    NoMatchAtSoleW(s, 1);
  }

  lemma NoMatchLetterAfter()
    ensures !Matches("wednesdayx")
  {
    var s := "wednesdayx";
    forall j | 0 <= j < |s| && j != 0 ensures Fold(s[j]) != 'w' {
      assert s[j] in "ednsayx";
    }
    assert IsWordChar(s[3]) && IsWordChar(s[9]);
    assert FoldAll(s[0..10])[9] == 'x';
    NoMatchAtSoleW(s, 0);
  }
}
