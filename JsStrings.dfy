/**
 The JavaScript string operations the filter worker calls, for a plain string
 argument: `String.prototype.indexOf` (no start position),
 `String.prototype.split` with a non-empty string separator, and
 `String.prototype.replaceAll` with a non-empty string pattern (left-to-right,
 non-overlapping). `Join`, the inverse of `split` (`Array.prototype.join`), is
 not called by the worker; it is defined here to state their properties.
 Strings are sequences of characters, so positions and lengths count characters rather
 than UTF-16 code units, and a replacement string is inserted literally: the
 `$` substitution patterns of `replaceAll` are not expanded.
 */
module JsStrings {

  /** `pat` occurs in `s` starting at index `i`. */
  predicate MatchAt(s: string, pat: string, i: int) {
    0 <= i && i + |pat| <= |s| && s[i..i + |pat|] == pat
  }

  /** `pat` is a substring of `s`. */
  ghost predicate Contains(s: string, pat: string) {
    exists i :: MatchAt(s, pat, i)
  }

  /** A match in `s[1..]` is a match in `s`, one position further on. */
  lemma MatchAtTail(s: string, pat: string, i: int)
    requires |s| > 0 && i >= 0
    ensures MatchAt(s[1..], pat, i) <==> MatchAt(s, pat, i + 1)
  {
    if 0 <= i && i + |pat| <= |s| - 1 {
      assert s[1..][i..i + |pat|] == s[i + 1..i + 1 + |pat|];
    }
  }

  /** A match inside the prefix `s[..n]` is a match in `s` that ends by `n`. */
  lemma MatchAtPrefix(s: string, pat: string, n: nat, i: int)
    requires n <= |s|
    ensures MatchAt(s[..n], pat, i) <==> MatchAt(s, pat, i) && i + |pat| <= n
  {
    if 0 <= i && i + |pat| <= n {
      assert s[..n][i..i + |pat|] == s[i..i + |pat|];
    }
  }

  /**
   `s.indexOf(pat)`: the first index at which `pat` occurs in `s`, or -1 when
   it does not occur (see IndexOfSpec). A found match lies inside `s`.
   */
  function IndexOf(s: string, pat: string): (r: int)
    ensures -1 <= r && (r != -1 ==> r + |pat| <= |s|)
    decreases |s|
  {
    if |s| < |pat| then -1
    else if s[..|pat|] == pat then 0
    else
      var k := IndexOf(s[1..], pat);
      if k == -1 then -1 else k + 1
  }

  /**
   `IndexOf` is -1 exactly when `pat` is not a substring of `s`; otherwise it
   is an index where `pat` occurs, and no smaller index holds a match.
   */
  lemma {:induction false} IndexOfSpec(s: string, pat: string)
    ensures IndexOf(s, pat) == -1 <==> !Contains(s, pat)
    ensures IndexOf(s, pat) != -1 ==> MatchAt(s, pat, IndexOf(s, pat))
    ensures forall j :: 0 <= j < IndexOf(s, pat) ==> !MatchAt(s, pat, j)
    decreases |s|
  {
    if |s| < |pat| {
      assert forall i :: !MatchAt(s, pat, i);
    } else if s[..|pat|] == pat {
      assert IndexOf(s, pat) == 0;
      assert MatchAt(s, pat, 0);
    } else {
      var k := IndexOf(s[1..], pat);
      IndexOfSpec(s[1..], pat);
      assert !MatchAt(s, pat, 0);
      forall i | i > 0 ensures MatchAt(s, pat, i) <==> MatchAt(s[1..], pat, i - 1) {
        MatchAtTail(s, pat, i - 1);
      }
      assert IndexOf(s, pat) == if k == -1 then -1 else k + 1;
      if k == -1 {
        assert !Contains(s, pat) by {
          forall i ensures !MatchAt(s, pat, i) {
            if i > 0 { assert !MatchAt(s[1..], pat, i - 1); }
          }
        }
      } else {
        assert MatchAt(s, pat, k + 1);
      }
    }
  }

  /**
   `s.split(sep)` for a non-empty separator: the pieces of `s` between the
   occurrences of `sep` found scanning from the left. There is always at least
   one piece (and no piece contains the separator, see SplitOnPiecesFree).
   */
  function SplitOn(s: string, sep: string): (r: seq<string>)
    requires |sep| > 0
    ensures |r| >= 1
    decreases |s|
  {
    var i := IndexOf(s, sep);
    if i == -1 then [s] else [s[..i]] + SplitOn(s[i + |sep|..], sep)
  }

  /** No piece of a split contains the separator. */
  lemma {:induction false} SplitOnPiecesFree(s: string, sep: string)
    requires |sep| > 0
    ensures forall k :: 0 <= k < |SplitOn(s, sep)| ==> !Contains(SplitOn(s, sep)[k], sep)
    decreases |s|
  {
    var i := IndexOf(s, sep);
    IndexOfSpec(s, sep);
    if i != -1 {
      var rest := s[i + |sep|..];
      SplitOnPiecesFree(rest, sep);
      SplitOnFound(s, sep, i);
      assert !Contains(s[..i], sep) by {
        forall j ensures !MatchAt(s[..i], sep, j) {
          MatchAtPrefix(s, sep, i, j);
        }
      }
    }
  }

  /** `parts.join(sep)`: the parts with `sep` between each two neighbours. */
  function Join(parts: seq<string>, sep: string): string
  {
    if |parts| == 0 then ""
    else if |parts| == 1 then parts[0]
    else parts[0] + sep + Join(parts[1..], sep)
  }

  /** The number of occurrences of `pat` that a left-to-right scan finds. */
  function Occurrences(s: string, pat: string): nat
    requires |pat| > 0
  {
    |SplitOn(s, pat)| - 1
  }

  /**
   `s.replaceAll(pat, rep)` for a non-empty pattern and a replacement without
   `$` patterns: scanning from the left, each occurrence of `pat` is replaced
   by `rep`, taken literally, and the scan resumes after it.
   */
  function ReplaceAll(s: string, pat: string, rep: string): string
    requires |pat| > 0
    decreases |s|
  {
    if |s| < |pat| then s
    else if s[..|pat|] == pat then rep + ReplaceAll(s[|pat|..], pat, rep)
    else [s[0]] + ReplaceAll(s[1..], pat, rep)
  }

  /** A string in which the pattern does not occur is left unchanged. */
  lemma {:induction false} ReplaceAllUnchanged(s: string, pat: string, rep: string)
    requires |pat| > 0 && !Contains(s, pat)
    ensures ReplaceAll(s, pat, rep) == s
    decreases |s|
  {
    if |s| >= |pat| {
      assert !MatchAt(s, pat, 0);
      assert !Contains(s[1..], pat) by {
        forall i | MatchAt(s[1..], pat, i) ensures MatchAt(s, pat, i + 1) {
          MatchAtTail(s, pat, i);
        }
      }
      ReplaceAllUnchanged(s[1..], pat, rep);
      assert s == [s[0]] + s[1..];
    }
  }

  /** Joining the pieces of a split with the separator gives the string back. */
  lemma {:induction false} JoinSplitOn(s: string, sep: string)
    requires |sep| > 0
    ensures Join(SplitOn(s, sep), sep) == s
    decreases |s|
  {
    var i := IndexOf(s, sep);
    if i != -1 {
      var rest := s[i + |sep|..];
      JoinSplitOn(rest, sep);
      SplitOnFound(s, sep, i);
      JoinFirst(s[..i], SplitOn(rest, sep), sep);
      IndexOfSpec(s, sep);
      MatchAtSplits(s, sep, i);
    }
  }

  /** A match at `i` cuts `s` into the text before it, the pattern and the text after it. */
  lemma MatchAtSplits(s: string, pat: string, i: int)
    requires MatchAt(s, pat, i)
    ensures s == s[..i] + pat + s[i + |pat|..]
  {
    assert s == s[..i] + s[i..i + |pat|] + s[i + |pat|..];
  }

  /** Joining a first part in front of at least one more part. */
  lemma JoinFirst(first: string, parts: seq<string>, sep: string)
    requires |parts| >= 1
    ensures Join([first] + parts, sep) == first + sep + Join(parts, sep)
  {
    assert ([first] + parts)[1..] == parts;
  }

  /**
   For a one-character separator the split is the unique decomposition: any
   non-empty list of separator-free pieces is what splitting their join gives.
   */
  lemma {:induction false} SplitOnJoin(parts: seq<string>, sep: string)
    requires |sep| == 1 && |parts| >= 1
    requires forall k :: 0 <= k < |parts| ==> !Contains(parts[k], sep)
    ensures SplitOn(Join(parts, sep), sep) == parts
    decreases |parts|
  {
    if |parts| > 1 {
      var rest := Join(parts[1..], sep);
      SplitOnJoin(parts[1..], sep);
      SplitOnSeparatorFree(parts[0], sep, rest);
    } else {
      IndexOfSpec(parts[0], sep);
    }
  }

  /** Splitting `f + sep + rest` for a one-character `sep` absent from `f`. */
  lemma SplitOnSeparatorFree(f: string, sep: string, rest: string)
    requires |sep| == 1 && !Contains(f, sep)
    ensures SplitOn(f + sep + rest, sep) == [f] + SplitOn(rest, sep)
  {
    var s := f + sep + rest;
    assert MatchAt(s, sep, |f|) by {
      assert s[|f|..|f| + 1] == sep;
    }
    forall j | 0 <= j < |f| ensures !MatchAt(s, sep, j) {
      MatchAtPrefix(s, sep, |f|, j);
      assert s[..|f|] == f;
    }
    var i := IndexOf(s, sep);
    IndexOfSpec(s, sep);
    assert i == |f|;
    assert s[..i] == f;
    assert s[i + |sep|..] == rest;
  }

  /** Replacing occurrences is splitting on the pattern and joining with the replacement. */
  lemma {:induction false} ReplaceAllIsSplitJoin(s: string, pat: string, rep: string)
    requires |pat| > 0
    ensures ReplaceAll(s, pat, rep) == Join(SplitOn(s, pat), rep)
    decreases |s|
  {
    if |s| < |pat| {
      assert IndexOf(s, pat) == -1;
    } else if s[..|pat|] == pat {
      assert MatchAt(s, pat, 0);
      assert IndexOf(s, pat) == 0;
      ReplaceAllIsSplitJoin(s[|pat|..], pat, rep);
      assert SplitOn(s, pat) == [""] + SplitOn(s[|pat|..], pat);
    } else {
      ReplaceAllIsSplitJoin(s[1..], pat, rep);
      SplitOnCons(s, pat);
      JoinCons(s[0], SplitOn(s[1..], pat), rep);
    }
  }

  /** `[c] + parts[0]` followed by the other parts. */
  function ConsFirst(c: char, parts: seq<string>): seq<string>
    requires |parts| >= 1
  {
    [[c] + parts[0]] + parts[1..]
  }

  /** Without a match at index 0, the first character of `s` heads the first piece. */
  lemma SplitOnCons(s: string, sep: string)
    requires |sep| > 0 && |s| >= |sep| && s[..|sep|] != sep
    ensures SplitOn(s, sep) == ConsFirst(s[0], SplitOn(s[1..], sep))
  {
    var k := IndexOf(s[1..], sep);
    if k == -1 {
      assert SplitOn(s, sep) == [s] && SplitOn(s[1..], sep) == [s[1..]];
      assert [s[0]] + s[1..] == s;
    } else {
      var i := IndexOf(s, sep);
      assert i == k + 1;
      SplitOnFound(s, sep, i);
      SplitOnFound(s[1..], sep, k);
      SplitOnShift(s, sep, i, k);
      ConsFirstOfCons(s[0], s[1..][..k], SplitOn(s[i + |sep|..], sep));
    }
  }

  /** One step of the split once `indexOf` found the separator at `i`. */
  lemma SplitOnFound(s: string, sep: string, i: int)
    requires |sep| > 0 && i == IndexOf(s, sep) && i != -1
    ensures SplitOn(s, sep) == [s[..i]] + SplitOn(s[i + |sep|..], sep)
  {
  }

  /** The pieces of `s` and of `s[1..]` after a match found at `i` and `i - 1`. */
  lemma SplitOnShift(s: string, sep: string, i: int, k: int)
    requires |sep| > 0 && |s| > 0 && 0 <= k && i == k + 1 && i + |sep| <= |s|
    ensures s[1..][k + |sep|..] == s[i + |sep|..]
    ensures [s[0]] + s[1..][..k] == s[..i]
  {
  }

  /** `ConsFirst` on a list built with a known first part. */
  lemma ConsFirstOfCons(c: char, a: string, rest: seq<string>)
    ensures ConsFirst(c, [a] + rest) == [[c] + a] + rest
  {
    assert ([a] + rest)[1..] == rest;
  }

  /** Joining after putting `c` in front of the first part puts `c` in front of the join. */
  lemma JoinCons(c: char, parts: seq<string>, sep: string)
    requires |parts| >= 1
    ensures Join(ConsFirst(c, parts), sep) == [c] + Join(parts, sep)
  {
    if |parts| > 1 {
      assert ConsFirst(c, parts)[1..] == parts[1..];
    }
  }

  /** Swapping the separator of a join changes its length by one difference per gap. */
  lemma {:induction false} JoinLengthChange(parts: seq<string>, a: string, b: string)
    requires |parts| >= 1
    ensures |Join(parts, a)| == |Join(parts, b)| + (|parts| - 1) * (|a| - |b|)
    decreases |parts|
  {
    if |parts| > 1 {
      JoinLengthChange(parts[1..], a, b);
      calc {
        |Join(parts, a)|;
        |parts[0]| + |a| + |Join(parts[1..], a)|;
        |parts[0]| + |a| + |Join(parts[1..], b)| + (|parts| - 2) * (|a| - |b|);
        |Join(parts, b)| + (|parts| - 1) * (|a| - |b|);
      }
    }
  }

  /**
   The replaced string is longer than the original by `|rep| - |pat|` for each
   occurrence the scan finds.
   */
  lemma ReplaceAllLength(s: string, pat: string, rep: string)
    requires |pat| > 0
    ensures |ReplaceAll(s, pat, rep)| == |s| + Occurrences(s, pat) * (|rep| - |pat|)
  {
    ReplaceAllIsSplitJoin(s, pat, rep);
    JoinSplitOn(s, pat);
    JoinLengthChange(SplitOn(s, pat), rep, pat);
  }

  /** The scan finds an occurrence exactly when the pattern is a substring. */
  lemma OccurrencesPositive(s: string, pat: string)
    requires |pat| > 0
    ensures Occurrences(s, pat) > 0 <==> Contains(s, pat)
  {
    IndexOfSpec(s, pat);
  }

  /** A join of at least two parts contains the separator after the first part. */
  lemma JoinContainsSeparator(parts: seq<string>, sep: string)
    requires |parts| >= 2
    ensures MatchAt(Join(parts, sep), sep, |parts[0]|)
  {
    var j := Join(parts, sep);
    assert j == parts[0] + sep + Join(parts[1..], sep);
    assert j[|parts[0]|..|parts[0]| + |sep|] == sep;
  }
}
