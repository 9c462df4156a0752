/**
 Python's `str.replace(old, new)` (no count argument) over arbitrary sequences.

 The text is scanned left to right; wherever `old` starts, `new` is emitted and
 the scan resumes right after that occurrence, so occurrences never overlap.
 An empty `old` matches before every element and once at the end, as in Python
 (`"ab".replace("", "-") == "-a-b-"`).

 Next to the scanner sits an independent description of the same result:
 cut the text at the occurrences (`Split`, like `str.split`) and glue the
 pieces back together with `new` (`Join`, like `str.join`).
 */
module Replace {

  /** `pat` starts at index `i` of `s`. */
  predicate OccursAt<T(==)>(s: seq<T>, pat: seq<T>, i: int)
  {
    0 <= i && i + |pat| <= |s| && s[i..i + |pat|] == pat
  }

  /** `pat` is a contiguous part of `s` somewhere. */
  predicate Occurs<T(==)>(s: seq<T>, pat: seq<T>)
  {
    exists i | 0 <= i <= |s| :: OccursAt(s, pat, i)
  }

  /** The result of `s.replace(pat, rep)`. */
  function ReplaceAll<T(==)>(s: seq<T>, pat: seq<T>, rep: seq<T>): seq<T>
    decreases |s|
  {
    if |pat| == 0 then
      if |s| == 0 then rep else rep + [s[0]] + ReplaceAll(s[1..], pat, rep)
    else if |s| < |pat| then s
    else if s[..|pat|] == pat then rep + ReplaceAll(s[|pat|..], pat, rep)
    else [s[0]] + ReplaceAll(s[1..], pat, rep)
  }

  /** The number of replacements `ReplaceAll` performs, i.e. `s.count(pat)`. */
  function Count<T(==)>(s: seq<T>, pat: seq<T>): nat
    decreases |s|
  {
    if |pat| == 0 then |s| + 1
    else if |s| < |pat| then 0
    else if s[..|pat|] == pat then 1 + Count(s[|pat|..], pat)
    else Count(s[1..], pat)
  }

  /** `str.split(sep)`: the pieces between the non-overlapping occurrences.
      Python refuses an empty separator, hence the precondition. */
  function Split<T(==)>(s: seq<T>, pat: seq<T>): (parts: seq<seq<T>>)
    requires |pat| > 0
    ensures |parts| == Count(s, pat) + 1
    ensures parts[0] <= s
    decreases |s|
  {
    if |s| < |pat| then [s]
    else if s[..|pat|] == pat then [[]] + Split(s[|pat|..], pat)
    else
      var rest := Split(s[1..], pat);
      [[s[0]] + rest[0]] + rest[1..]
  }

  /** `sep.join(parts)`. */
  function Join<T>(parts: seq<seq<T>>, sep: seq<T>): seq<T>
  {
    if |parts| == 0 then []
    else if |parts| == 1 then parts[0]
    else parts[0] + sep + Join(parts[1..], sep)
  }

  /** Each replacement swaps |pat| elements for |rep| elements. */
  lemma {:induction false} ReplaceAllLength<T>(s: seq<T>, pat: seq<T>, rep: seq<T>)
    ensures |ReplaceAll(s, pat, rep)| == |s| + Count(s, pat) * (|rep| - |pat|)
    decreases |s|
  {
    var d := |rep| - |pat|;
    if |pat| == 0 {
      if |s| > 0 {
        ReplaceAllLength(s[1..], pat, rep);
        assert |ReplaceAll(s, pat, rep)| == |rep| + 1 + |ReplaceAll(s[1..], pat, rep)|;
        MulStep(Count(s[1..], pat), d);
      }
    } else if |s| < |pat| {
    } else if s[..|pat|] == pat {
      ReplaceAllLength(s[|pat|..], pat, rep);
      assert |ReplaceAll(s, pat, rep)| == |rep| + |ReplaceAll(s[|pat|..], pat, rep)|;
      MulStep(Count(s[|pat|..], pat), d);
    } else {
      ReplaceAllLength(s[1..], pat, rep);
      assert |ReplaceAll(s, pat, rep)| == 1 + |ReplaceAll(s[1..], pat, rep)|;
    }
  }

  lemma MulStep(c: int, d: int)
    ensures (c + 1) * d == c * d + d
  {
  }

  /** Dropping the first element of `s` shifts every occurrence past index 0
      down by one. */
  lemma OccursInTail<T>(s: seq<T>, pat: seq<T>)
    requires |s| > 0
    ensures Occurs(s, pat) <==> OccursAt(s, pat, 0) || Occurs(s[1..], pat)
  {
    forall i | OccursAt(s[1..], pat, i) ensures OccursAt(s, pat, i + 1) {
      assert s[1..][i..i + |pat|] == s[i + 1..i + 1 + |pat|];
    }
    forall i | 1 <= i && OccursAt(s, pat, i) ensures OccursAt(s[1..], pat, i - 1) {
      assert s[1..][i - 1..i - 1 + |pat|] == s[i..i + |pat|];
    }
  }

  /** A non-empty pattern is counted at least once exactly when it occurs. */
  lemma {:induction false} CountZeroIffAbsent<T>(s: seq<T>, pat: seq<T>)
    requires |pat| > 0
    ensures Count(s, pat) == 0 <==> !Occurs(s, pat)
    decreases |s|
  {
    if |s| < |pat| {
    } else if s[..|pat|] == pat {
      assert OccursAt(s, pat, 0);
    } else {
      CountZeroIffAbsent(s[1..], pat);
      OccursInTail(s, pat);
    }
  }

  /** Without an occurrence of a non-empty pattern, replacing changes nothing. */
  lemma {:induction false} ReplaceAbsent<T>(s: seq<T>, pat: seq<T>, rep: seq<T>)
    requires |pat| > 0 && !Occurs(s, pat)
    ensures ReplaceAll(s, pat, rep) == s
    decreases |s|
  {
    if |s| >= |pat| {
      assert !OccursAt(s, pat, 0);
      OccursInTail(s, pat);
      ReplaceAbsent(s[1..], pat, rep);
    }
  }

  /** Replacing a pattern by itself changes nothing, the empty pattern
      included. */
  lemma {:induction false} ReplaceBySelf<T>(s: seq<T>, pat: seq<T>)
    ensures ReplaceAll(s, pat, pat) == s
    decreases |s|
  {
    if |pat| == 0 {
      if |s| > 0 {
        ReplaceBySelf(s[1..], pat);
        assert s == [s[0]] + s[1..];
      }
    } else if |s| >= |pat| {
      if s[..|pat|] == pat {
        ReplaceBySelf(s[|pat|..], pat);
        assert s == s[..|pat|] + s[|pat|..];
      } else {
        ReplaceBySelf(s[1..], pat);
        assert s == [s[0]] + s[1..];
      }
    }
  }

  /** Replacing one element by one element is an element-wise substitution. */
  lemma {:induction false} ReplaceSingle<T>(s: seq<T>, a: T, b: T)
    ensures |ReplaceAll(s, [a], [b])| == |s|
    ensures forall i :: 0 <= i < |s| ==>
      ReplaceAll(s, [a], [b])[i] == (if s[i] == a then b else s[i])
    decreases |s|
  {
    if |s| > 0 {
      ReplaceSingle(s[1..], a, b);
      assert s[..1] == [s[0]];
    }
  }

  /** Everything in the result comes from the text or from the replacement. */
  lemma {:induction false} ReplaceAllElements<T>(s: seq<T>, pat: seq<T>, rep: seq<T>)
    ensures forall x :: x in ReplaceAll(s, pat, rep) ==> x in s || x in rep
    decreases |s|
  {
    if |pat| == 0 {
      if |s| > 0 {
        ReplaceAllElements(s[1..], pat, rep);
      }
    } else if |s| < |pat| {
    } else if s[..|pat|] == pat {
      ReplaceAllElements(s[|pat|..], pat, rep);
      forall x | x in s[|pat|..] ensures x in s {
        var j :| 0 <= j < |s[|pat|..]| && s[|pat|..][j] == x;
        assert s[|pat| + j] == x;
      }
    } else {
      ReplaceAllElements(s[1..], pat, rep);
      forall x | x in s[1..] ensures x in s {
        var j :| 0 <= j < |s[1..]| && s[1..][j] == x;
        assert s[1 + j] == x;
      }
    }
  }

  /** Gluing `x` onto the front of the first piece glues it onto the front of
      the joined text. */
  lemma JoinPrepend<T>(x: seq<T>, parts: seq<seq<T>>, sep: seq<T>)
    requires |parts| > 0
    ensures Join([x + parts[0]] + parts[1..], sep) == x + Join(parts, sep)
  {
    var glued := [x + parts[0]] + parts[1..];
    assert glued[1..] == parts[1..];
  }

  /** The scanner agrees with split-then-join: `s.replace(p, r) == r.join(s.split(p))`. */
  lemma {:induction false} ReplaceIsJoinOfSplit<T>(s: seq<T>, pat: seq<T>, rep: seq<T>)
    requires |pat| > 0
    ensures ReplaceAll(s, pat, rep) == Join(Split(s, pat), rep)
    decreases |s|
  {
    if |s| < |pat| {
    } else if s[..|pat|] == pat {
      ReplaceIsJoinOfSplit(s[|pat|..], pat, rep);
      var rest := Split(s[|pat|..], pat);
      assert ([[]] + rest)[1..] == rest;
    } else {
      ReplaceIsJoinOfSplit(s[1..], pat, rep);
      JoinPrepend([s[0]], Split(s[1..], pat), rep);
    }
  }

  /** Splitting and joining with the same separator gives the text back. */
  lemma {:induction false} SplitJoinRoundTrip<T>(s: seq<T>, pat: seq<T>)
    requires |pat| > 0
    ensures Join(Split(s, pat), pat) == s
  {
    ReplaceIsJoinOfSplit(s, pat, pat);
    ReplaceBySelf(s, pat);
  }

  /** No piece of a split contains the separator: every occurrence of the
      pattern overlaps one that was cut out. */
  lemma {:induction false} SplitPiecesAvoidPattern<T>(s: seq<T>, pat: seq<T>)
    requires |pat| > 0
    ensures forall k :: 0 <= k < |Split(s, pat)| ==> !Occurs(Split(s, pat)[k], pat)
    decreases |s|
  {
    var parts := Split(s, pat);
    if |s| < |pat| {
    } else if s[..|pat|] == pat {
      SplitPiecesAvoidPattern(s[|pat|..], pat);
      var rest := Split(s[|pat|..], pat);
      assert parts == [[]] + rest;
      forall k | 0 <= k < |parts| ensures !Occurs(parts[k], pat) {
        if k > 0 {
          assert parts[k] == rest[k - 1];
        }
      }
    } else {
      SplitPiecesAvoidPattern(s[1..], pat);
      var rest := Split(s[1..], pat);
      var head := [s[0]] + rest[0];
      assert parts == [head] + rest[1..];
      forall k | 0 <= k < |parts| ensures !Occurs(parts[k], pat) {
        if k == 0 {
          assert !Occurs(rest[0], pat);
          assert head[1..] == rest[0];
          OccursInTail(head, pat);
        } else {
          assert parts[k] == rest[k];
        }
      }
    }
  }

  /** The pattern starts nowhere inside the first piece of a split. */
  lemma {:induction false} SplitFirstPieceClean<T>(s: seq<T>, pat: seq<T>)
    requires |pat| > 0
    ensures forall j :: 0 <= j < |Split(s, pat)[0]| ==> !OccursAt(s, pat, j)
    decreases |s|
  {
    if |s| >= |pat| && s[..|pat|] != pat {
      SplitFirstPieceClean(s[1..], pat);
      forall j | 0 < j < |Split(s, pat)[0]| ensures !OccursAt(s, pat, j) {
        assert !OccursAt(s[1..], pat, j - 1);
        if j + |pat| <= |s| {
          assert s[1..][j - 1..j - 1 + |pat|] == s[j..j + |pat|];
        }
      }
    }
  }

  /** When a split cuts at all, the pattern starts right after the first piece. */
  lemma {:induction false} SplitFirstCut<T>(s: seq<T>, pat: seq<T>)
    requires |pat| > 0
    ensures |Split(s, pat)| > 1 ==> OccursAt(s, pat, |Split(s, pat)[0]|)
    decreases |s|
  {
    if |s| < |pat| {
    } else if s[..|pat|] == pat {
      assert OccursAt(s, pat, 0);
    } else {
      SplitFirstCut(s[1..], pat);
      var rest := Split(s[1..], pat);
      if |rest| > 1 {
        var k := |rest[0]|;
        assert s[1..][k..k + |pat|] == s[k + 1..k + 1 + |pat|];
      }
    }
  }

  /** The first cut is at the leftmost occurrence of the pattern, as
      `str.split` and `str.replace` choose it. */
  lemma SplitAtLeftmost<T>(s: seq<T>, pat: seq<T>)
    requires |pat| > 0
    ensures forall j :: 0 <= j < |Split(s, pat)[0]| ==> !OccursAt(s, pat, j)
    ensures |Split(s, pat)| > 1 ==> OccursAt(s, pat, |Split(s, pat)[0]|)
  {
    SplitFirstPieceClean(s, pat);
    SplitFirstCut(s, pat);
  }
}
