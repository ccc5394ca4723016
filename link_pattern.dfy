/** The pattern `^((\w+\/\w+)(\.\w+)?)` that `postValidate` classifies links with, matched by
    hand. `\w+` cannot consume `/` or `.`, so the greedy match needs no backtracking: the first
    word run must be followed by `/`, the second run is taken whole, and the optional member
    part is taken whole when a `.` and a word character follow. */
module LinkPattern {
  import opened Text

  /** `\w`: `[A-Za-z0-9_]`. */
  predicate IsWordChar(c: char)
  {
    ('a' <= c <= 'z') || ('A' <= c <= 'Z') || ('0' <= c <= '9') || c == '_'
  }

  /** The characters of `s` in `[from, to)` are all word characters. */
  predicate WordSpan(s: string, from: nat, to: nat)
  {
    from <= to <= |s| && forall k :: from <= k < to ==> IsWordChar(s[k])
  }

  /** Length of the longest run of word characters starting at `i`. */
  function WordRun(s: string, i: nat): (n: nat)
    requires i <= |s|
    ensures i + n <= |s|
    decreases |s| - i
  {
    if i < |s| && IsWordChar(s[i]) then 1 + WordRun(s, i + 1) else 0
  }

  /** The run is made of word characters and is not followed by one. */
  lemma {:induction false} WordRunSpec(s: string, i: nat)
    requires i <= |s|
    ensures WordSpan(s, i, i + WordRun(s, i))
    ensures i + WordRun(s, i) == |s| || !IsWordChar(s[i + WordRun(s, i)])
    decreases |s| - i
  {
    if i < |s| && IsWordChar(s[i]) {
      WordRunSpec(s, i + 1);
    }
  }

  /** A word span ending before a non-word character is the whole run. */
  lemma {:induction false} WordRunIs(s: string, i: nat, n: nat)
    requires WordSpan(s, i, i + n)
    requires i + n == |s| || !IsWordChar(s[i + n])
    ensures WordRun(s, i) == n
    decreases n
  {
    if n > 0 {
      WordRunIs(s, i + 1, n - 1);
    }
  }

  /** `^\w+\/\w+` can match `s[..j]` with the slash at `i`. */
  predicate PairAt(s: string, i: nat, j: nat)
  {
    0 < i && i + 1 < j <= |s| && WordSpan(s, 0, i) && s[i] == '/' && WordSpan(s, i + 1, j)
  }

  /** `match[0]`, `match[2]` and `match[3]` (the empty string when group 3 did not take part). */
  datatype LinkMatch = LinkMatch(whole: string, pair: string, member: string)

  /** `^\w+\/\w+` matches: a word run, a slash, and another word run. */
  predicate HasPair(s: string)
  {
    var a := WordRun(s, 0);
    0 < a < |s| && s[a] == '/' && WordRun(s, a + 1) > 0
  }

  /** Where the pair (`match[2]`) ends: both runs are taken whole. */
  function PairEnd(s: string): (e: nat)
    requires HasPair(s)
    ensures e <= |s|
  {
    var a := WordRun(s, 0);
    a + 1 + WordRun(s, a + 1)
  }

  /** The optional group `(\.\w+)` takes part: a `.` and a word character follow the pair. */
  predicate HasMember(s: string)
    requires HasPair(s)
  {
    var e := PairEnd(s);
    e + 1 < |s| && s[e] == '.' && IsWordChar(s[e + 1])
  }

  /** Where the whole match ends: after the member part's word run, or at the pair's end. */
  function WholeEnd(s: string): (m: nat)
    requires HasPair(s)
    ensures PairEnd(s) <= m <= |s|
  {
    if HasMember(s) then PairEnd(s) + 1 + WordRun(s, PairEnd(s) + 1) else PairEnd(s)
  }

  /** `moduleRegex.exec(link)`. */
  function MatchModuleRegex(s: string): Option<LinkMatch>
  {
    if HasPair(s) then Some(LinkMatch(s[..WholeEnd(s)], s[..PairEnd(s)], s[PairEnd(s)..WholeEnd(s)]))
    else None
  }

  /** The pattern matches iff `s` starts with a word run, a slash and a word run. */
  lemma {:induction false} MatchModuleRegexMatches(s: string)
    ensures MatchModuleRegex(s).None? <==> !exists i: nat, j: nat :: PairAt(s, i, j)
  {
    var a := WordRun(s, 0);
    WordRunSpec(s, 0);
    if a > 0 && a < |s| && s[a] == '/' {
      WordRunSpec(s, a + 1);
      if HasPair(s) {
        assert PairAt(s, a, PairEnd(s));
      }
    }
  }

  /** A match takes both runs whole, and takes the member part `.` plus a whole word run exactly
      when one follows the pair. */
  lemma {:induction false} MatchModuleRegexShape(s: string)
    requires MatchModuleRegex(s).Some?
    ensures var m := MatchModuleRegex(s).value;
      && m.whole == m.pair + m.member
      && |m.whole| <= |s| && s[..|m.whole|] == m.whole
      && (exists i: nat :: PairAt(s, i, |m.pair|))
      && (|m.pair| == |s| || !IsWordChar(s[|m.pair|]))
      && (m.member == "" ==> !(|m.pair| + 1 < |s| && s[|m.pair|] == '.' && IsWordChar(s[|m.pair| + 1])))
      && (m.member != "" ==>
            && |m.member| >= 2 && m.member[0] == '.' && WordSpan(m.member, 1, |m.member|)
            && (|m.whole| == |s| || !IsWordChar(s[|m.whole|])))
  {
    var a := WordRun(s, 0);
    WordRunSpec(s, 0);
    WordRunSpec(s, a + 1);
    var e, w := PairEnd(s), WholeEnd(s);
    assert PairAt(s, a, e);
    assert s[..w] == s[..e] + s[e..w];
    if HasMember(s) {
      WordRunSpec(s, e + 1);
      WordSpanSlice(s, e, w, e + 1, w);
    }
  }

  /** A word span stays one inside a slice around it. */
  lemma {:induction false} WordSpanSlice(s: string, lo: nat, hi: nat, from: nat, to: nat)
    requires lo <= from && to <= hi <= |s| && WordSpan(s, from, to)
    ensures WordSpan(s[lo..hi], from - lo, to - lo)
  {
    forall k | from - lo <= k < to - lo
      ensures IsWordChar(s[lo..hi][k])
    {
      assert s[lo..hi][k] == s[lo + k];
    }
  }
}
