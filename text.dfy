/** String operations the validator relies on, written out with the semantics of the
    JavaScript string methods they stand for (`indexOf`, `lastIndexOf`, `includes`,
    `split` with a string separator, `Array.prototype.join`). */
module Text {

  datatype Option<T> = None | Some(value: T)

  lemma {:induction false} AppendAssoc<T>(a: seq<T>, b: seq<T>, c: seq<T>)
    ensures a + (b + c) == a + b + c
  {
  }

  lemma {:induction false} AppendAssoc4<T>(a: seq<T>, b: seq<T>, c: seq<T>, d: seq<T>)
    ensures a + (b + c + d) == a + b + c + d
  {
  }

  lemma {:induction false} InitLast<T>(s: seq<T>)
    requires |s| > 0
    ensures s == s[..|s| - 1] + [s[|s| - 1]]
  {
  }

  /** `t` occurs in `s` starting at index `i`. */
  predicate OccursAt(s: string, t: string, i: nat)
  {
    i + |t| <= |s| && s[i..i + |t|] == t
  }

  lemma {:induction false} OccursAtTail(s: string, t: string, k: nat)
    requires |s| > 0
    ensures OccursAt(s[1..], t, k) <==> OccursAt(s, t, k + 1)
  {
    if k + 1 + |t| <= |s| {
      assert s[1..][k..k + |t|] == s[k + 1..k + 1 + |t|];
    }
  }

  lemma {:induction false} OccursAtPrefix(s: string, t: string, n: nat, k: nat)
    requires n <= |s|
    requires k + |t| <= n
    ensures OccursAt(s[..n], t, k) <==> OccursAt(s, t, k)
  {
    assert s[..n][k..k + |t|] == s[k..k + |t|];
  }

  /** `s.indexOf(t)`: the first index at which `t` occurs. */
  function IndexOf(s: string, t: string): (r: Option<nat>)
    ensures r.Some? ==> OccursAt(s, t, r.value)
    ensures r.Some? ==> forall j :: 0 <= j < r.value ==> !OccursAt(s, t, j)
    ensures r.None? ==> forall j: nat :: !OccursAt(s, t, j)
    decreases |s|
  {
    if |t| > |s| then None
    else if s[..|t|] == t then Some(0)
    else
      var rest := IndexOf(s[1..], t);
      assert forall k: nat :: OccursAt(s[1..], t, k) <==> OccursAt(s, t, k + 1) by {
        forall k: nat ensures OccursAt(s[1..], t, k) <==> OccursAt(s, t, k + 1) {
          OccursAtTail(s, t, k);
        }
      }
      assert !OccursAt(s, t, 0);
      match rest
      case None =>
        assert forall j: nat :: !OccursAt(s, t, j) by {
          forall j: nat ensures !OccursAt(s, t, j) {
            if j > 0 {
              assert !OccursAt(s[1..], t, j - 1);
            }
          }
        }
        None
      case Some(k) =>
        assert forall j :: 0 <= j < k + 1 ==> !OccursAt(s, t, j) by {
          forall j | 0 <= j < k + 1 ensures !OccursAt(s, t, j) {
            if j > 0 {
              assert !OccursAt(s[1..], t, j - 1);
            }
          }
        }
        Some(k + 1)
  }

  /** `s.indexOf(t, from)`: the search starts at `from`, clamped to the length of `s`. */
  function IndexOfFrom(s: string, t: string, from: nat): (r: Option<nat>)
    ensures r.Some? ==> Min(from, |s|) <= r.value && OccursAt(s, t, r.value)
    ensures r.Some? ==> forall j :: Min(from, |s|) <= j < r.value ==> !OccursAt(s, t, j)
    ensures r.None? ==> forall j: nat :: Min(from, |s|) <= j ==> !OccursAt(s, t, j)
  {
    var k := Min(from, |s|);
    var found := IndexOf(s[k..], t);
    assert forall j: nat :: OccursAt(s[k..], t, j) <==> OccursAt(s, t, k + j) by {
      forall j: nat ensures OccursAt(s[k..], t, j) <==> OccursAt(s, t, k + j) {
        if k + j + |t| <= |s| {
          assert s[k..][j..j + |t|] == s[k + j..k + j + |t|];
        }
      }
    }
    match found
    case None =>
      assert forall j: nat :: k <= j ==> !OccursAt(s, t, j) by {
        forall j: nat | k <= j ensures !OccursAt(s, t, j) {
          assert !OccursAt(s[k..], t, j - k);
        }
      }
      None
    case Some(i) =>
      assert forall j :: k <= j < k + i ==> !OccursAt(s, t, j) by {
        forall j | k <= j < k + i ensures !OccursAt(s, t, j) {
          assert !OccursAt(s[k..], t, j - k);
        }
      }
      Some(k + i)
  }

  function Min(a: nat, b: nat): nat
  {
    if a <= b then a else b
  }

  /** `s.lastIndexOf(t)`: the last index at which `t` occurs. */
  function LastIndexOf(s: string, t: string): (r: Option<nat>)
    ensures r.Some? ==> OccursAt(s, t, r.value)
    ensures r.Some? ==> forall j: nat :: r.value < j ==> !OccursAt(s, t, j)
    ensures r.None? ==> forall j: nat :: !OccursAt(s, t, j)
    decreases |s|
  {
    if |t| > |s| then None
    else if OccursAt(s, t, |s| - |t|) then Some(|s| - |t|)
    else
      var shorter := s[..|s| - 1];
      assert forall j: nat :: j + |t| <= |s| - 1 ==> (OccursAt(shorter, t, j) <==> OccursAt(s, t, j)) by {
        forall j: nat | j + |t| <= |s| - 1 ensures OccursAt(shorter, t, j) <==> OccursAt(s, t, j) {
          OccursAtPrefix(s, t, |s| - 1, j);
        }
      }
      LastIndexOf(shorter, t)
  }

  /** `s.includes(t)`, and the test of a regular expression without anchors made of one literal. */
  function Contains(s: string, t: string): (r: bool)
    ensures r <==> exists i: nat :: OccursAt(s, t, i)
  {
    IndexOf(s, t).Some?
  }

  /** `s.split(sep)` for a non-empty string separator: the pieces between the occurrences of
      `sep`, scanning from the left. */
  function Split(s: string, sep: string): (r: seq<string>)
    requires |sep| > 0
    ensures |r| >= 1
    decreases |s|
  {
    match IndexOf(s, sep)
    case None => [s]
    case Some(i) => [s[..i]] + Split(s[i + |sep|..], sep)
  }

  /** No piece of a split holds the separator. */
  lemma {:induction false} SplitPieces(s: string, sep: string)
    requires |sep| > 0
    ensures forall k :: 0 <= k < |Split(s, sep)| ==> !Contains(Split(s, sep)[k], sep)
    decreases |s|
  {
    match IndexOf(s, sep)
    case None =>
    case Some(i) =>
      IndexOfFits(s, sep);
      var rest := s[i + |sep|..];
      SplitStep(s, sep);
      SplitPieces(rest, sep);
      assert !Contains(s[..i], sep) by {
        forall j: nat ensures !OccursAt(s[..i], sep, j) {
          if j + |sep| <= i {
            OccursAtPrefix(s, sep, i, j);
          }
        }
      }
      assert forall k :: 1 <= k < |Split(s, sep)| ==> Split(s, sep)[k] == Split(rest, sep)[k - 1];
  }

  /** `pieces.join(sep)`. */
  function Join(pieces: seq<string>, sep: string): string
  {
    if |pieces| == 0 then ""
    else if |pieces| == 1 then pieces[0]
    else pieces[0] + sep + Join(pieces[1..], sep)
  }

  /** Splitting and joining again with the same separator gives back the string. */
  lemma {:induction false} JoinSplit(s: string, sep: string)
    requires |sep| > 0
    ensures Join(Split(s, sep), sep) == s
    decreases |s|
  {
    var found := IndexOf(s, sep);
    if found.Some? {
      var i := found.value;
      var rest := s[i + |sep|..];
      var tail := Split(rest, sep);
      assert Split(s, sep) == [s[..i]] + tail;
      JoinSplit(rest, sep);
      JoinCons(s[..i], tail, sep);
      assert s[i..i + |sep|] == sep;
      assert s == s[..i] + sep + rest;
    }
  }

  lemma {:induction false} JoinCons(head: string, tail: seq<string>, sep: string)
    requires |tail| > 0
    ensures Join([head] + tail, sep) == head + sep + Join(tail, sep)
  {
    assert ([head] + tail)[1..] == tail;
  }

  /** Joining a sequence with one more piece adds the separator and that piece. */
  lemma {:induction false} JoinSnoc(pieces: seq<string>, last: string, sep: string)
    requires |pieces| > 0
    ensures Join(pieces + [last], sep) == Join(pieces, sep) + sep + last
  {
    if |pieces| == 1 {
      assert pieces + [last] == [pieces[0], last];
    } else {
      assert (pieces + [last])[1..] == pieces[1..] + [last];
      JoinSnoc(pieces[1..], last, sep);
    }
  }

  lemma {:induction false} IndexOfFits(s: string, t: string)
    requires IndexOf(s, t).Some?
    ensures IndexOf(s, t).value + |t| <= |s|
  {
  }

  /** One step of `split`: the text before the first separator, then the split of the rest. */
  lemma {:induction false} SplitStep(s: string, sep: string)
    requires |sep| > 0 && IndexOf(s, sep).Some? && IndexOf(s, sep).value + |sep| <= |s|
    ensures var i := IndexOf(s, sep).value; Split(s, sep) == [s[..i]] + Split(s[i + |sep|..], sep)
  {
  }

  /** The first piece of a split is the text before the first separator. */
  lemma {:induction false} SplitHead(s: string, sep: string)
    requires |sep| > 0
    ensures IndexOf(s, sep).None? ==> Split(s, sep) == [s]
    ensures IndexOf(s, sep).Some? ==> Split(s, sep)[0] == s[..IndexOf(s, sep).value]
  {
  }

  /** `s.split(c)[0]`: the text before the first `c`, or all of `s`. */
  function Before(s: string, c: char): (r: string)
    ensures |r| <= |s| && r == s[..|r|]
    ensures forall k :: 0 <= k < |r| ==> r[k] != c
    ensures |r| == |s| || s[|r|] == c
  {
    var pieces := Split(s, [c]);
    SplitHead(s, [c]);
    match IndexOf(s, [c])
    case None =>
      assert forall k :: 0 <= k < |s| ==> s[k] != c by {
        forall k | 0 <= k < |s| ensures s[k] != c {
          assert !OccursAt(s, [c], k);
          assert s[k..k + 1] == [s[k]];
        }
      }
      pieces[0]
    case Some(i) =>
      assert s[i..i + 1] == [c];
      assert forall k :: 0 <= k < i ==> s[k] != c by {
        forall k | 0 <= k < i ensures s[k] != c {
          assert !OccursAt(s, [c], k);
          assert s[k..k + 1] == [s[k]];
        }
      }
      pieces[0]
  }

  function DigitChar(d: nat): char
    requires d < 10
  {
    "0123456789"[d]
  }

  /** Decimal rendering of a natural number, as template strings print line numbers. */
  function NatToString(n: nat): (r: string)
    ensures |r| > 0 && forall k :: 0 <= k < |r| ==> '0' <= r[k] <= '9'
  {
    if n < 10 then [DigitChar(n)] else NatToString(n / 10) + [DigitChar(n % 10)]
  }

  function DigitValue(c: char): nat
  {
    if '0' <= c <= '9' then (c as int - '0' as int) as nat else 0
  }

  /** Reads a decimal numeral back. */
  function ParseNat(s: string): nat
  {
    if s == [] then 0 else ParseNat(s[..|s| - 1]) * 10 + DigitValue(s[|s| - 1])
  }

  /** The rendering of a line number can be read back. */
  lemma {:induction false} ParseNatToString(n: nat)
    ensures ParseNat(NatToString(n)) == n
  {
    if n >= 10 {
      var s := NatToString(n / 10) + [DigitChar(n % 10)];
      assert s[..|s| - 1] == NatToString(n / 10);
      ParseNatToString(n / 10);
    }
  }
}
