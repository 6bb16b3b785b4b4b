/**
  Leftmost, non-overlapping find-and-replace-all over a byte sequence, as
  performed by `replace` in src/c-string.c: a scan that claims a match at
  the earliest position, resumes right after it, and writes into a separate
  result so that substituted text is never scanned again.
 */
module Matching {
  import opened Buffer

  /** `strstr(&data[i], pat) == &data[i]`: the pattern occurs at the very start of `s`. */
  predicate StartsWith(s: seq<char>, pat: seq<char>) {
    |pat| <= |s| && s[..|pat|] == pat
  }

  /** `pat` occurs somewhere in `s`. */
  predicate Occurs(pat: seq<char>, s: seq<char>) {
    exists i :: 0 <= i <= |s| && StartsWith(s[i..], pat)
  }

  /** Number of matches the scan claims: leftmost first, no overlaps. */
  function CountMatches(s: seq<char>, pat: seq<char>): (n: nat)
    requires |pat| > 0
    ensures n <= |s|
    ensures StartsWith(s, pat) ==> 0 < n
    decreases |s|
  {
    if |s| == 0 then 0
    else if StartsWith(s, pat) then 1 + CountMatches(s[|pat|..], pat)
    else CountMatches(s[1..], pat)
  }

  /** The result of the scan: every claimed match is replaced by `rep`, every other byte is copied. */
  function ReplaceAll(s: seq<char>, pat: seq<char>, rep: seq<char>): seq<char>
    requires |pat| > 0
    decreases |s|
  {
    if |s| == 0 then []
    else if StartsWith(s, pat) then rep + ReplaceAll(s[|pat|..], pat, rep)
    else [s[0]] + ReplaceAll(s[1..], pat, rep)
  }

  /** Matched text never exceeds the input, and the new length is len − k·|pat| + k·|rep|. */
  lemma {:induction false} ReplaceAllLength(s: seq<char>, pat: seq<char>, rep: seq<char>)
    requires |pat| > 0
    ensures CountMatches(s, pat) * |pat| <= |s|
    ensures |ReplaceAll(s, pat, rep)| == |s| - CountMatches(s, pat) * |pat| + CountMatches(s, pat) * |rep|
    decreases |s|
  {
    if |s| == 0 {
    } else if StartsWith(s, pat) {
      var rest := s[|pat|..];
      ReplaceAllLength(rest, pat, rep);
      var k := CountMatches(rest, pat);
      assert CountMatches(s, pat) == k + 1;
      assert |ReplaceAll(s, pat, rep)| == |rep| + |ReplaceAll(rest, pat, rep)|;
      MulSucc(k, |pat|);
      MulSucc(k, |rep|);
    } else {
      ReplaceAllLength(s[1..], pat, rep);
    }
  }

  lemma MulSucc(k: nat, a: nat)
    ensures (k + 1) * a == k * a + a
  {
  }

  /** The scan claims no match exactly when the pattern does not occur at all. */
  lemma {:induction false} CountZeroIffAbsent(s: seq<char>, pat: seq<char>)
    requires |pat| > 0
    ensures CountMatches(s, pat) == 0 <==> !Occurs(pat, s)
    decreases |s|
  {
    if |s| == 0 {
    } else if StartsWith(s, pat) {
      assert s[0..] == s;
    } else {
      CountZeroIffAbsent(s[1..], pat);
      if Occurs(pat, s) {
        var i :| 0 <= i <= |s| && StartsWith(s[i..], pat);
        assert i != 0 by { assert s[0..] == s; }
        assert s[1..][i - 1..] == s[i..];
      }
      if Occurs(pat, s[1..]) {
        var j :| 0 <= j <= |s[1..]| && StartsWith(s[1..][j..], pat);
        assert s[1..][j..] == s[j + 1..];
      }
    }
  }

  /** When the pattern does not occur, the result is the input byte for byte. */
  lemma {:induction false} ReplaceAllAbsent(s: seq<char>, pat: seq<char>, rep: seq<char>)
    requires |pat| > 0
    requires !Occurs(pat, s)
    ensures ReplaceAll(s, pat, rep) == s
    decreases |s|
  {
    if |s| > 0 {
      assert s[0..] == s;
      assert !Occurs(pat, s[1..]) by {
        forall j | 0 <= j <= |s[1..]|
          ensures !StartsWith(s[1..][j..], pat)
        {
          assert s[1..][j..] == s[j + 1..];
        }
      }
      ReplaceAllAbsent(s[1..], pat, rep);
      assert s == [s[0]] + s[1..];
    }
  }

  /** Replacing a pattern by itself changes nothing. */
  lemma {:induction false} ReplaceAllSelf(s: seq<char>, pat: seq<char>)
    requires |pat| > 0
    ensures ReplaceAll(s, pat, pat) == s
    decreases |s|
  {
    if |s| == 0 {
    } else if StartsWith(s, pat) {
      ReplaceAllSelf(s[|pat|..], pat);
      assert s == s[..|pat|] + s[|pat|..];
    } else {
      ReplaceAllSelf(s[1..], pat);
      assert s == [s[0]] + s[1..];
    }
  }

  /** A NUL-free input and replacement give a NUL-free result, so `strcpy` copies all of it. */
  lemma {:induction false} ReplaceAllNoNul(s: seq<char>, pat: seq<char>, rep: seq<char>)
    requires |pat| > 0 && NoNul(s) && NoNul(rep)
    ensures NoNul(ReplaceAll(s, pat, rep))
    decreases |s|
  {
    if |s| == 0 {
    } else if StartsWith(s, pat) {
      ReplaceAllNoNul(s[|pat|..], pat, rep);
      NoNulAppend(rep, ReplaceAll(s[|pat|..], pat, rep));
    } else {
      ReplaceAllNoNul(s[1..], pat, rep);
      NoNulAppend([s[0]], ReplaceAll(s[1..], pat, rep));
    }
  }

  /** One mismatching byte is enough to reject a match. */
  lemma MismatchAt(s: seq<char>, pat: seq<char>, j: nat)
    requires j < |pat| && j < |s| && s[j] != pat[j]
    ensures !StartsWith(s, pat)
  {
  }

  /**
    The skip of the scan: when no position inside the prefix `a` starts a
    match, the scan copies `a` verbatim and counts nothing in it.
   */
  lemma {:induction false} ReplaceAllSkips(a: seq<char>, b: seq<char>, pat: seq<char>, rep: seq<char>)
    requires |pat| > 0
    requires forall i :: 0 <= i < |a| ==> !StartsWith((a + b)[i..], pat)
    ensures ReplaceAll(a + b, pat, rep) == a + ReplaceAll(b, pat, rep)
    ensures CountMatches(a + b, pat) == CountMatches(b, pat)
    decreases |a|
  {
    if |a| == 0 {
      assert a + b == b;
    } else {
      assert (a + b)[0..] == a + b;
      assert (a + b)[1..] == a[1..] + b;
      forall i | 0 <= i < |a[1..]|
        ensures !StartsWith((a[1..] + b)[i..], pat)
      {
        assert (a[1..] + b)[i..] == (a + b)[i + 1..];
      }
      ReplaceAllSkips(a[1..], b, pat, rep);
    }
  }

  /** A prefix without the pattern's first byte is copied verbatim. */
  lemma {:induction false} ReplaceAllCopies(a: seq<char>, b: seq<char>, pat: seq<char>, rep: seq<char>)
    requires |pat| > 0 && pat[0] !in a
    ensures ReplaceAll(a + b, pat, rep) == a + ReplaceAll(b, pat, rep)
    decreases |a|
  {
    if |a| == 0 {
      assert a + b == b;
    } else {
      MismatchAt(a + b, pat, 0);
      assert (a + b)[1..] == a[1..] + b;
      ReplaceAllCopies(a[1..], b, pat, rep);
    }
  }

  /** A match at the front is replaced, and the scan resumes right after it. */
  lemma ReplaceAllMatch(b: seq<char>, pat: seq<char>, rep: seq<char>)
    requires |pat| > 0
    ensures ReplaceAll(pat + b, pat, rep) == rep + ReplaceAll(b, pat, rep)
    ensures CountMatches(pat + b, pat) == 1 + CountMatches(b, pat)
  {
    assert (pat + b)[..|pat|] == pat;
    assert (pat + b)[|pat|..] == b;
  }

  /** Substituted text is not scanned again: the result may still contain the pattern. */
  lemma SinglePass()
    ensures ReplaceAll("aab", "ab", "b") == "ab"
    ensures StartsWith(ReplaceAll("aab", "ab", "b"), "ab")
  {
    MismatchAt("aab", "ab", 1);
    assert "aab"[1..] == "ab";
    ReplaceAllMatch([], "ab", "b");
    assert "ab" + [] == "ab";
  }

  /** The unit test's input, split around the bytes the scan looks at. */
  lemma InterestingSplit()
    ensures " text with long and " == " text w" + ("i" + "th long and ")
    ensures "Some long and " + "interesting" + " text with long and " + "interesting" + " words"
         == "Some long and " + ("interesting" + (" text w" + ("i" + ("th long and " + ("interesting" + " words")))))
  {
    assert " text with long and " == " text w" + ("i" + "th long and ");
  }

  /** The unit test's expected output, split the same way. */
  lemma FunSplit()
    ensures "Some long and " + "fun" + " text with long and " + "fun" + " words"
         == "Some long and " + ("fun" + (" text w" + ("i" + ("th long and " + ("fun" + " words")))))
  {
    InterestingSplit();
  }

  /**
    The replacement checked by the unit test of `replace`
    (tests/unit_test.c:59-64), with input and expected output written as
    the concatenation of the text around the two matches.
   */
  lemma InterestingToFun()
    ensures ReplaceAll("Some long and " + "interesting" + " text with long and " + "interesting" + " words", "interesting", "fun")
         == "Some long and " + "fun" + " text with long and " + "fun" + " words"
  {
    var pat, rep := "interesting", "fun";
    var a, b1, b2, c := "Some long and ", " text w", "th long and ", " words";
    var tail := pat + c;
    var mid := b1 + ("i" + (b2 + tail));
    InterestingSplit();
    FunSplit();
    // From the back: " words" holds no match.
    ReplaceAllCopies(c, [], pat, rep);
    assert c + [] == c;
    ReplaceAllMatch(c, pat, rep);
    ReplaceAllCopies(b2, tail, pat, rep);
    // The 'i' of "with" starts no match.
    MismatchAt("i" + (b2 + tail), pat, 1);
    assert ("i" + (b2 + tail))[1..] == b2 + tail;
    ReplaceAllCopies(b1, "i" + (b2 + tail), pat, rep);
    ReplaceAllMatch(mid, pat, rep);
    ReplaceAllCopies(a, pat + mid, pat, rep);
  }

  /** The unit test's input holds exactly two matches. */
  lemma InterestingCount()
    ensures CountMatches("Some long and " + "interesting" + " text with long and " + "interesting" + " words", "interesting") == 2
  {
    var pat := "interesting";
    var a, b1, b2, c := "Some long and ", " text w", "th long and ", " words";
    var tail := pat + c;
    var mid := b1 + ("i" + (b2 + tail));
    InterestingSplit();
    CountCopies(c, [], pat);
    assert c + [] == c;
    ReplaceAllMatch(c, pat, "");
    CountCopies(b2, tail, pat);
    MismatchAt("i" + (b2 + tail), pat, 1);
    assert ("i" + (b2 + tail))[1..] == b2 + tail;
    CountCopies(b1, "i" + (b2 + tail), pat);
    ReplaceAllMatch(mid, pat, "");
    CountCopies(a, pat + mid, pat);
  }

  lemma {:induction false} CountCopies(a: seq<char>, b: seq<char>, pat: seq<char>)
    requires |pat| > 0 && pat[0] !in a
    ensures CountMatches(a + b, pat) == CountMatches(b, pat)
    decreases |a|
  {
    if |a| == 0 {
      assert a + b == b;
    } else {
      MismatchAt(a + b, pat, 0);
      assert (a + b)[1..] == a[1..] + b;
      CountCopies(a[1..], b, pat);
    }
  }

  /**
    The counting loop of `replace`: `i` walks the data and, on a match,
    jumps to the byte right after it (`i += strlen(old_str) - 1` followed
    by the loop's own `i++`).
   */
  method CountOccurrences(data: seq<char>, pat: seq<char>) returns (count: nat)
    requires |pat| > 0
    ensures count == CountMatches(data, pat)
  {
    count := 0;
    var i := 0;
    while i < |data|
      invariant 0 <= i <= |data|
      invariant count + CountMatches(data[i..], pat) == CountMatches(data, pat)
    {
      if StartsWith(data[i..], pat) {
        assert data[i..][|pat|..] == data[i + |pat|..];
        count := count + 1;
        i := i + |pat|;
      } else {
        assert data[i..][1..] == data[i + 1..];
        i := i + 1;
      }
    }
  }

  /**
    The rebuilding loop of `replace`: matched spans are replaced by `rep`,
    copied byte by byte, and every other byte is copied; `resultI` is the
    write position.
   */
  method BuildReplacement(data: seq<char>, pat: seq<char>, rep: seq<char>) returns (result: seq<char>, resultI: nat)
    requires |pat| > 0
    ensures result == ReplaceAll(data, pat, rep)
    ensures resultI == |result|
  {
    result, resultI := [], 0;
    var dataI := 0;
    while dataI < |data|
      invariant 0 <= dataI <= |data|
      invariant resultI == |result|
      invariant result + ReplaceAll(data[dataI..], pat, rep) == ReplaceAll(data, pat, rep)
    {
      if StartsWith(data[dataI..], pat) {
        ghost var before := result;
        for i := 0 to |rep|
          invariant result == before + rep[..i]
          invariant resultI == |result|
        {
          result := result + [rep[i]];
          resultI := resultI + 1;
        }
        assert rep[..|rep|] == rep;
        assert data[dataI..][|pat|..] == data[dataI + |pat|..];
        dataI := dataI + |pat|;
      } else {
        assert data[dataI..][1..] == data[dataI + 1..];
        result := result + [data[dataI]];
        resultI := resultI + 1;
        dataI := dataI + 1;
      }
    }
    assert result + [] == result;
  }
}
