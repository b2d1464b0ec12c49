/**
 The two regular expressions of the NXOS inquiry, hand-coded:

   status:  VTP\sOperating\sMode\s+:\s+(\w+)
   feature: (vtp\s+)\d\s+(\w+)

 Both have the shape  HEAD \s+ SEP \s+ (\w+)  where HEAD is a literal in
 which each blank stands for one `\s`, and SEP is `:` or one `\d`. Neither
 SEP nor a word character is whitespace, so a greedy `\s+` never has to give
 characters back: matching at a position is deterministic, and the captured
 word is the longest run of word characters (greedy `\w+` with nothing after
 it). `Search` is Python's `re.search`: the leftmost position that matches.
 */
module Patterns {
  import opened Wrappers
  import opened Chars

  datatype Pattern = StatusPattern | FeaturePattern

  /** The literal head of the pattern; a blank stands for exactly one `\s`. */
  function Head(p: Pattern): string {
    match p
    case StatusPattern => "VTP Operating Mode"
    case FeaturePattern => "vtp"
  }

  /** The single character between the two `\s+` runs. */
  predicate Sep(p: Pattern, c: char) {
    match p
    case StatusPattern => c == ':'
    case FeaturePattern => IsDigit(c)
  }

  /**
   `s` from `i` spells `h` from its `n`th character on, where each blank of
   `h` is matched by one `\s`.
   */
  predicate Template(h: string, s: string, i: nat, n: nat)
    decreases |h| - n
  {
    if n >= |h| then i + |h| <= |s|
    else
      && i + n < |s|
      && (if h[n] == ' ' then IsSpace(s[i + n]) else s[i + n] == h[n])
      && Template(h, s, i, n + 1)
  }

  /** Character by character: the template holds exactly when the text has room and every position agrees. */
  lemma {:induction false} TemplateIff(h: string, s: string, i: nat, n: nat)
    requires n <= |h|
    ensures Template(h, s, i, n) <==>
      && i + |h| <= |s|
      && forall t :: n <= t < |h| ==> if h[t] == ' ' then IsSpace(s[i + t]) else s[i + t] == h[t]
    decreases |h| - n
  {
    if n < |h| {
      TemplateIff(h, s, i, n + 1);
    }
  }

  /** A head written out literally, with real blanks, matches its own template. */
  lemma {:induction false} TemplateSelf(h: string, rest: string, n: nat)
    requires n <= |h|
    ensures Template(h, h + rest, 0, n)
    decreases |h| - n
  {
    if n < |h| {
      TemplateSelf(h, rest, n + 1);
      assert (h + rest)[n] == h[n];
    }
  }

  predicate HeadAt(p: Pattern, s: string, i: nat) {
    Template(Head(p), s, i, 0)
  }

  /**
   Reference semantics: the pattern matches `s` from `i` with the first `\s+`
   covering `[i + |Head(p)|, j)`, the separator at `j`, the second `\s+`
   covering `[j + 1, k)` and the group covering `[k, e)`.
   */
  ghost predicate Spans(p: Pattern, s: string, i: nat, j: nat, k: nat, e: nat) {
    && HeadAt(p, s, i)
    && i + |Head(p)| < j < |s|
    && AllIn(s, i + |Head(p)|, j, Space)
    && Sep(p, s[j])
    && j + 1 < k < e <= |s|
    && AllIn(s, j + 1, k, Space)
    && AllIn(s, k, e, Word)
  }

  /** The pattern matches at `i` in some way. */
  ghost predicate MatchesAt(p: Pattern, s: string, i: nat) {
    exists j: nat, k: nat, e: nat :: Spans(p, s, i, j, k, e)
  }

  /** A greedy group ends where the word characters end. */
  ghost predicate Greedy(s: string, e: nat)
    requires e <= |s|
  {
    e == |s| || !IsWord(s[e])
  }

  /** `i` is the leftmost match position and `w` is the group Python captures there. */
  ghost predicate Leftmost(p: Pattern, s: string, i: nat, w: string) {
    && (exists j: nat, k: nat, e: nat :: Spans(p, s, i, j, k, e) && Greedy(s, e) && w == s[k..e])
    && forall t: nat :: t < i ==> !MatchesAt(p, s, t)
  }

  /** `\s+(\w+)` tried at position `a`: the captured word, if any. */
  function Group(s: string, a: nat): Option<string>
    requires a <= |s|
  {
    var k := Run(s, a, Space);
    if k == a then None
    else
      var e := Run(s, k, Word);
      if e == k then None else Some(s[k..e])
  }

  /** The whitespace, separator and group that follow the head, tried at position `h`. */
  function Tail(p: Pattern, s: string, h: nat): Option<string>
    requires h <= |s|
  {
    var j := Run(s, h, Space);
    if j == h || j == |s| || !Sep(p, s[j]) then None else Group(s, j + 1)
  }

  /** The group captured when the pattern is tried at position `i` (`re.match` from `i`). */
  function MatchAt(p: Pattern, s: string, i: nat): Option<string> {
    if !HeadAt(p, s, i) then None
    else
      TemplateIff(Head(p), s, i, 0);
      Tail(p, s, i + |Head(p)|)
  }

  lemma MatchAtSound(p: Pattern, s: string, i: nat)
    requires MatchAt(p, s, i).Some?
    ensures exists j: nat, k: nat, e: nat :: Spans(p, s, i, j, k, e) && Greedy(s, e) && MatchAt(p, s, i).value == s[k..e]
  {
    TemplateIff(Head(p), s, i, 0);
    var j := Run(s, i + |Head(p)|, Space);
    var k := Run(s, j + 1, Space);
    var e := Run(s, k, Word);
    assert Spans(p, s, i, j, k, e);
  }

  /** A `\s+(\w+)` stretch starting at `a` is found by the group, which extends its word greedily. */
  lemma GroupCovers(s: string, a: nat, k: nat, e: nat)
    requires a < k < e <= |s| && AllIn(s, a, k, Space) && AllIn(s, k, e, Word)
    ensures Group(s, a).Some?
    ensures s[k..e] <= Group(s, a).value
    ensures Greedy(s, e) ==> Group(s, a).value == s[k..e]
  {
    assert !IsSpace(s[k]) by { assert IsWord(s[k]); }
    RunUnique(s, a, k, Space);
    RunCovers(s, k, e, Word);
    if Greedy(s, e) {
      RunUnique(s, k, e, Word);
    }
  }

  /** Along any match, the group tried just after the separator covers the matched word. */
  lemma GroupComplete(p: Pattern, s: string, i: nat, j: nat, k: nat, e: nat)
    requires Spans(p, s, i, j, k, e)
    ensures Group(s, j + 1).Some?
    ensures s[k..e] <= Group(s, j + 1).value
    ensures Greedy(s, e) ==> Group(s, j + 1).value == s[k..e]
  {
    GroupCovers(s, j + 1, k, e);
  }

  /** Whitespace from `h` up to a separator at `j` is consumed by the tail, which then tries the group after `j`. */
  lemma TailCovers(p: Pattern, s: string, h: nat, j: nat)
    requires h < j < |s| && AllIn(s, h, j, Space) && Sep(p, s[j])
    ensures Tail(p, s, h) == Group(s, j + 1)
  {
    assert !IsSpace(s[j]);
    RunUnique(s, h, j, Space);
  }

  /** Along any match at `i`, the head and separator are consumed up to `j`. */
  lemma TailComplete(p: Pattern, s: string, i: nat, j: nat, k: nat, e: nat)
    requires Spans(p, s, i, j, k, e)
    ensures MatchAt(p, s, i) == Group(s, j + 1)
  {
    var h := i + |Head(p)|;
    TailCovers(p, s, h, j);
    assert MatchAt(p, s, i) == Tail(p, s, h);
  }

  lemma MatchAtComplete(p: Pattern, s: string, i: nat, j: nat, k: nat, e: nat)
    requires Spans(p, s, i, j, k, e)
    ensures MatchAt(p, s, i).Some?
    ensures s[k..e] <= MatchAt(p, s, i).value
    ensures Greedy(s, e) ==> MatchAt(p, s, i).value == s[k..e]
  {
    TailComplete(p, s, i, j, k, e);
    GroupComplete(p, s, i, j, k, e);
  }

  /** Matching at a position agrees with the reference semantics, both ways. */
  lemma MatchAtIff(p: Pattern, s: string, i: nat)
    ensures MatchAt(p, s, i).Some? <==> MatchesAt(p, s, i)
  {
    if MatchAt(p, s, i).Some? {
      MatchAtSound(p, s, i);
    }
    if MatchesAt(p, s, i) {
      var j: nat, k: nat, e: nat :| Spans(p, s, i, j, k, e);
      MatchAtComplete(p, s, i, j, k, e);
    }
  }

  /** A leftmost match: where it is and what it captured. */
  datatype Hit = Hit(at: nat, word: string)

  /** What trying the pattern at each position 0 ..|s| gives. */
  function Attempts(p: Pattern, s: string): (ms: seq<Option<string>>)
    ensures |ms| == |s| + 1
    ensures forall t :: 0 <= t < |ms| ==> ms[t] == MatchAt(p, s, t)
  {
    seq(|s| + 1, t requires 0 <= t <= |s| => MatchAt(p, s, t))
  }

  /** The first attempt from `i` on that succeeded. */
  function FirstHit(ms: seq<Option<string>>, i: nat): (r: Option<Hit>)
    ensures r.Some? ==> i <= r.value.at < |ms| && ms[r.value.at] == Some(r.value.word)
    ensures r.Some? ==> forall t :: i <= t < r.value.at ==> ms[t].None?
    ensures r.None? ==> forall t :: i <= t < |ms| ==> ms[t].None?
    decreases |ms| - i
  {
    if i >= |ms| then None
    else
      match ms[i]
      case Some(w) => Some(Hit(i, w))
      case None => FirstHit(ms, i + 1)
  }

  /** `re.search`: the leftmost position where the pattern matches, with its group. */
  function Search(p: Pattern, s: string): (r: Option<Hit>)
    ensures r.Some? ==> r.value.at <= |s| && MatchAt(p, s, r.value.at) == Some(r.value.word)
    ensures r.Some? ==> forall t :: 0 <= t < r.value.at ==> MatchAt(p, s, t).None?
    ensures r.None? ==> forall t :: 0 <= t <= |s| ==> MatchAt(p, s, t).None?
  {
    var ms := Attempts(p, s);
    var r := FirstHit(ms, 0);
    assert r.Some? ==> ms[r.value.at] == MatchAt(p, s, r.value.at);
    r
  }

  /** Beyond the end of the text nothing matches. */
  lemma NoMatchPastEnd(p: Pattern, s: string, i: nat)
    requires i > |s|
    ensures !MatchesAt(p, s, i)
  {
    MatchAtIff(p, s, i);
  }

  /** `Search` finds no match exactly when the pattern matches nowhere. */
  lemma SearchNoneIff(p: Pattern, s: string)
    ensures Search(p, s).None? <==> forall t: nat :: !MatchesAt(p, s, t)
  {
    if Search(p, s).None? {
      forall t: nat ensures !MatchesAt(p, s, t) {
        if t <= |s| {
          MatchAtIff(p, s, t);
        } else {
          NoMatchPastEnd(p, s, t);
        }
      }
    } else {
      MatchAtIff(p, s, Search(p, s).value.at);
    }
  }

  /** `Search` returns exactly the leftmost match and its greedy group. */
  lemma SearchSomeIff(p: Pattern, s: string, i: nat, w: string)
    ensures Search(p, s) == Some(Hit(i, w)) <==> Leftmost(p, s, i, w)
  {
    if Search(p, s) == Some(Hit(i, w)) {
      MatchAtSound(p, s, i);
      forall t: nat | t < i ensures !MatchesAt(p, s, t) {
        MatchAtIff(p, s, t);
      }
    }
    if Leftmost(p, s, i, w) {
      var j: nat, k: nat, e: nat :| Spans(p, s, i, j, k, e) && Greedy(s, e) && w == s[k..e];
      MatchAtComplete(p, s, i, j, k, e);
      forall t: nat | t < i ensures MatchAt(p, s, t).None? {
        MatchAtIff(p, s, t);
      }
      var r := Search(p, s);
      assert r.Some?;
      assert r.value.at == i;
    }
  }

  /** The spans of a line that is exactly the head, one space, a separator, one space and a word. */
  lemma LineSpans(p: Pattern, c: char, w: string)
    requires Sep(p, c) && w != []
    requires forall t :: 0 <= t < |w| ==> IsWord(w[t])
    ensures var s := Head(p) + [' ', c, ' '] + w;
      Spans(p, s, 0, |Head(p)| + 1, |Head(p)| + 3, |s|) && s[|Head(p)| + 3..] == w
  {
    var h := |Head(p)|;
    var s := Head(p) + [' ', c, ' '] + w;
    assert s == Head(p) + ([' ', c, ' '] + w);
    TemplateSelf(Head(p), [' ', c, ' '] + w, 0);
    assert s[h] == ' ' && s[h + 1] == c && s[h + 2] == ' ';
    assert forall t :: h + 3 <= t < |s| ==> s[t] == w[t - (h + 3)];
    assert s[h + 3..] == w;
    assert AllIn(s, h + 3, |s|, Word);
  }

  /** Such a line is matched at its start, and the group is the whole word. */
  lemma LineMatches(p: Pattern, c: char, w: string)
    requires Sep(p, c) && w != []
    requires forall t :: 0 <= t < |w| ==> IsWord(w[t])
    ensures Leftmost(p, Head(p) + [' ', c, ' '] + w, 0, w)
  {
    var s := Head(p) + [' ', c, ' '] + w;
    LineSpans(p, c, w);
    assert Greedy(s, |s|);
  }

  /** A text shorter than the head matches nowhere. */
  lemma TooShort(p: Pattern, s: string)
    requires |s| < |Head(p)|
    ensures forall t: nat :: !MatchesAt(p, s, t)
  {
    forall t: nat ensures !MatchesAt(p, s, t) {
      TemplateIff(Head(p), s, t, 0);
    }
  }
}
