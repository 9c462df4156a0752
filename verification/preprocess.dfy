/**
 The summariser's punctuation normaliser, `text_preprocess`: every `;` and then
 every `:` becomes a full stop, and afterwards every `...` becomes a single
 full stop. Each step is one Python `str.replace` over the whole text, so the
 last step collapses non-overlapping runs of three stops, left to right, and
 also catches stops that the first two steps produced.
 */
module Preprocess {
  import opened Replace

  /** The characters the normaliser treats as sentence stops. */
  predicate IsStop(c: char)
  {
    c == '.' || c == ';' || c == ':'
  }

  /** Steps one and two: semicolons, then colons, become full stops. */
  function DotPunctuation(text: string): string
  {
    ReplaceAll(ReplaceAll(text, ";", "."), ":", ".")
  }

  /** `text_preprocess`: the two substitutions, then the `...` collapse. */
  function TextPreprocess(text: string): string
  {
    ReplaceAll(DotPunctuation(text), "...", ".")
  }

  /** `s` with every character of `drop` deleted. */
  function Without(s: string, drop: set<char>): string
    decreases |s|
  {
    if |s| == 0 then []
    else (if s[0] in drop then [] else [s[0]]) + Without(s[1..], drop)
  }

  /** Three stops of any kind in a row, somewhere in the text. */
  predicate HasThreeStops(text: string)
  {
    exists i | 0 <= i < |text| :: i + 3 <= |text| && IsStop(text[i]) && IsStop(text[i + 1]) && IsStop(text[i + 2])
  }

  /** The substitutions touch only `;` and `:`, one character each. */
  lemma DotPunctuationPointwise(text: string)
    ensures |DotPunctuation(text)| == |text|
    ensures forall i :: 0 <= i < |text| ==>
      DotPunctuation(text)[i] == (if text[i] == ';' || text[i] == ':' then '.' else text[i])
  {
    ReplaceSingle(text, ';', '.');
    ReplaceSingle(ReplaceAll(text, ";", "."), ':', '.');
  }

  /** Three stops of any kind start at index `i` of the text. */
  predicate ThreeStopsAt(text: string, i: int)
  {
    0 <= i && i + 3 <= |text| && IsStop(text[i]) && IsStop(text[i + 1]) && IsStop(text[i + 2])
  }

  /** After the substitutions a `...` starts at exactly the positions where the
      input has three stops of any kind in a row. */
  lemma EllipsisAtThreeStops(text: string)
    ensures forall i :: OccursAt(DotPunctuation(text), "...", i) <==> ThreeStopsAt(text, i)
  {
    var t := DotPunctuation(text);
    DotPunctuationPointwise(text);
    forall i ensures OccursAt(t, "...", i) <==> ThreeStopsAt(text, i) {
      if 0 <= i && i + 3 <= |t| {
        assert t[i..i + 3][0] == t[i] && t[i..i + 3][1] == t[i + 1] && t[i..i + 3][2] == t[i + 2];
        if ThreeStopsAt(text, i) {
          assert t[i..i + 3] == "...";
        }
      }
    }
  }

  /** Hence a `...` is left after the substitutions exactly when the input
      has three stops of any kind in a row somewhere. */
  lemma EllipsisIffThreeStops(text: string)
    ensures Occurs(DotPunctuation(text), "...") <==> HasThreeStops(text)
  {
    EllipsisAtThreeStops(text);
    if Occurs(DotPunctuation(text), "...") {
      var i :| 0 <= i <= |DotPunctuation(text)| && OccursAt(DotPunctuation(text), "...", i);
      assert ThreeStopsAt(text, i);
    }
    if HasThreeStops(text) {
      var i :| 0 <= i < |text| && i + 3 <= |text| && IsStop(text[i]) && IsStop(text[i + 1]) && IsStop(text[i + 2]);
      assert ThreeStopsAt(text, i);
      assert OccursAt(DotPunctuation(text), "...", i);
    }
  }

  /** The output never contains `;` or `:`. */
  lemma NoClausePunctuation(text: string)
    ensures ';' !in TextPreprocess(text) && ':' !in TextPreprocess(text)
  {
    var t := DotPunctuation(text);
    DotPunctuationPointwise(text);
    ReplaceAllElements(t, "...", ".");
    assert ';' !in t by {
      forall i | 0 <= i < |t| ensures t[i] != ';' { }
    }
    assert ':' !in t by {
      forall i | 0 <= i < |t| ensures t[i] != ':' { }
    }
  }

  /** Every collapse shortens the text by two; it is never longer than the
      input, and exactly as long when the input has no three stops in a row. */
  lemma LengthBound(text: string)
    ensures |TextPreprocess(text)| == |text| - 2 * Count(DotPunctuation(text), "...")
    ensures |TextPreprocess(text)| <= |text|
    ensures |TextPreprocess(text)| == |text| <==> !HasThreeStops(text)
  {
    DotPunctuationPointwise(text);
    ReplaceAllLength(DotPunctuation(text), "...", ".");
    CountZeroIffAbsent(DotPunctuation(text), "...");
    EllipsisIffThreeStops(text);
  }

  /** A text without `;`, `:` and `...` is left alone. */
  lemma FixedPointIfClean(text: string)
    requires ';' !in text && ':' !in text && !Occurs(text, "...")
    ensures TextPreprocess(text) == text
  {
    DotPunctuationPointwise(text);
    assert DotPunctuation(text) == text;
    ReplaceAbsent(text, "...", ".");
  }

  /** A text the normaliser leaves alone has no `;`, no `:` and no `...`. */
  lemma CleanIfFixedPoint(text: string)
    requires TextPreprocess(text) == text
    ensures ';' !in text && ':' !in text && !Occurs(text, "...")
  {
    var t := DotPunctuation(text);
    DotPunctuationPointwise(text);
    ReplaceAllLength(t, "...", ".");
    CountZeroIffAbsent(t, "...");
    ReplaceAbsent(t, "...", ".");
    assert t == text;
    forall i | 0 <= i < |text| ensures text[i] != ';' && text[i] != ':' {
      assert t[i] == text[i];
    }
  }

  /** The normaliser leaves a text alone exactly when it has no `;`, no `:`
      and no `...`. */
  lemma FixedPointIff(text: string)
    ensures TextPreprocess(text) == text <==> ';' !in text && ':' !in text && !Occurs(text, "...")
  {
    if ';' !in text && ':' !in text && !Occurs(text, "...") {
      FixedPointIfClean(text);
    }
    if TextPreprocess(text) == text {
      CleanIfFixedPoint(text);
    }
  }

  /** A text without any stop character, the empty text among them, comes
      back unchanged. */
  lemma PlainTextUnchanged(text: string)
    requires forall i :: 0 <= i < |text| ==> !IsStop(text[i])
    ensures TextPreprocess(text) == text
    ensures TextPreprocess([]) == []
  {
    forall i | 0 <= i <= |text| ensures !OccursAt(text, "...", i) {
      if i + 3 <= |text| {
        assert text[i..i + 3][0] == text[i];
      }
    }
    FixedPointIff(text);
  }

  /** Deleting from `a + b` is deleting from each part. */
  lemma {:induction false} WithoutConcat(a: string, b: string, drop: set<char>)
    ensures Without(a + b, drop) == Without(a, drop) + Without(b, drop)
    decreases |a|
  {
    if |a| == 0 {
      assert a + b == b;
    } else {
      WithoutConcat(a[1..], b, drop);
      assert (a + b)[0] == a[0];
      assert (a + b)[1..] == a[1..] + b;
    }
  }

  /** A replacement that only trades deleted characters for deleted characters
      is invisible once they are deleted. */
  lemma {:induction false} WithoutReplace(s: string, pat: string, rep: string, drop: set<char>)
    requires |pat| > 0
    requires forall c :: c in pat ==> c in drop
    requires forall c :: c in rep ==> c in drop
    ensures Without(ReplaceAll(s, pat, rep), drop) == Without(s, drop)
    decreases |s|
  {
    if |s| < |pat| {
    } else if s[..|pat|] == pat {
      WithoutReplace(s[|pat|..], pat, rep, drop);
      WithoutConcat(rep, ReplaceAll(s[|pat|..], pat, rep), drop);
      WithoutAll(rep, drop);
      WithoutConcat(pat, s[|pat|..], drop);
      WithoutAll(pat, drop);
      assert s == pat + s[|pat|..];
    } else {
      WithoutReplace(s[1..], pat, rep, drop);
      WithoutConcat([s[0]], ReplaceAll(s[1..], pat, rep), drop);
      WithoutConcat([s[0]], s[1..], drop);
      assert s == [s[0]] + s[1..];
    }
  }

  /** Deleting every character of a text leaves nothing. */
  lemma {:induction false} WithoutAll(s: string, drop: set<char>)
    requires forall c :: c in s ==> c in drop
    ensures Without(s, drop) == []
    decreases |s|
  {
    if |s| > 0 {
      assert s[0] in s;
      WithoutAll(s[1..], drop);
    }
  }

  /** Two deletion sets that agree on the characters of `s` delete the same. */
  lemma {:induction false} WithoutAgree(s: string, d1: set<char>, d2: set<char>)
    requires forall c :: c in s ==> (c in d1 <==> c in d2)
    ensures Without(s, d1) == Without(s, d2)
    decreases |s|
  {
    if |s| > 0 {
      assert s[0] in s;
      WithoutAgree(s[1..], d1, d2);
    }
  }

  /** Non-punctuation content survives in order: the output without its full
      stops is the input without its stops of any kind. */
  lemma ContentPreserved(text: string)
    ensures Without(TextPreprocess(text), {'.'}) == Without(text, {'.', ';', ':'})
  {
    var stops := {'.', ';', ':'};
    var r1 := ReplaceAll(text, ";", ".");
    var t := DotPunctuation(text);
    WithoutReplace(text, ";", ".", stops);
    WithoutReplace(r1, ":", ".", stops);
    WithoutReplace(t, "...", ".", stops);
    NoClausePunctuation(text);
    WithoutAgree(TextPreprocess(text), {'.'}, stops);
  }

  /** Reapplying the normaliser changes the text again exactly when a `...`
      survived the first pass; the collapse is a single pass. */
  lemma ReapplyIff(text: string)
    ensures TextPreprocess(TextPreprocess(text)) == TextPreprocess(text)
        <==> !Occurs(TextPreprocess(text), "...")
  {
    NoClausePunctuation(text);
    FixedPointIff(TextPreprocess(text));
  }

  /** The collapse runs after both substitutions, so stops produced from `;`
      and `:` are collapsed too; collapsing first would have kept them. */
  lemma CollapseAfterSubstitution()
    ensures TextPreprocess("a;:.") == "a."
    ensures ReplaceAll(ReplaceAll(ReplaceAll("a;:.", "...", "."), ";", "."), ":", ".") == "a..."
  {
    assert DotPunctuation("a;:.") == "a..." by {
      DotPunctuationPointwise("a;:.");
    }
    assert "a..."[..3][0] == 'a';
    assert "a..."[1..][..3] == "...";
    assert "a..."[1..][3..] == [];
    assert ReplaceAll("a;:.", "...", ".") == "a;:." by {
      assert "a;:."[..3] != "...";
      assert "a;:."[1..][..3] != "...";
    }
    ReplaceSingle("a;:.", ';', '.');
    ReplaceSingle("a.:.", ':', '.');
  }

  /** The normaliser is not idempotent: five stops become three, and those
      three become one. */
  lemma NotIdempotent()
    ensures TextPreprocess(".....") == "..."
    ensures TextPreprocess("...") == "."
    ensures TextPreprocess(TextPreprocess(".....")) != TextPreprocess(".....")
  {
  }

  /** Steps one and two as one left-to-right pass. */
  method DotPunctuate(text: string) returns (t: string)
    ensures t == DotPunctuation(text)
  {
    DotPunctuationPointwise(text);
    t := [];
    var i := 0;
    while i < |text|
      invariant 0 <= i <= |text|
      invariant t == DotPunctuation(text)[..i]
    {
      var c := if text[i] == ';' || text[i] == ':' then '.' else text[i];
      t := t + [c];
      i := i + 1;
    }
  }

  /** A `...` starts at index `i` of `t`. */
  predicate EllipsisAt(t: string, i: nat)
  {
    i + 3 <= |t| && t[i] == '.' && t[i + 1] == '.' && t[i + 2] == '.'
  }

  /** The `...` collapse of `t[i..]`, described by index: a `...` at `i`
      becomes one stop and the scan resumes after it, any other character is
      copied. */
  function CollapseFrom(t: string, i: nat): string
    decreases |t| - i
  {
    if i >= |t| then []
    else if EllipsisAt(t, i) then "." + CollapseFrom(t, i + 3)
    else [t[i]] + CollapseFrom(t, i + 1)
  }

  /** The index-wise collapse is the third `str.replace` call on the suffix. */
  lemma {:induction false} CollapseFromIsReplace(t: string, i: nat)
    requires i <= |t|
    ensures CollapseFrom(t, i) == ReplaceAll(t[i..], "...", ".")
    decreases |t| - i
  {
    if i < |t| {
      var u := t[i..];
      assert u[1..] == t[i + 1..];
      if i + 3 <= |t| {
        assert u[..3][0] == t[i] && u[..3][1] == t[i + 1] && u[..3][2] == t[i + 2];
        assert u[3..] == t[i + 3..];
      }
      if EllipsisAt(t, i) {
        CollapseFromIsReplace(t, i + 3);
      } else {
        CollapseFromIsReplace(t, i + 1);
      }
    }
  }

  /** Step three as one left-to-right pass: at each `...` emit a stop and jump
      past it, otherwise copy one character. */
  method CollapseEllipses(t: string) returns (r: string)
    ensures r == ReplaceAll(t, "...", ".")
  {
    r := [];
    var i := 0;
    while i < |t|
      invariant 0 <= i <= |t|
      invariant r + CollapseFrom(t, i) == CollapseFrom(t, 0)
      decreases |t| - i
    {
      var out: string, next: nat;
      if EllipsisAt(t, i) {
        out, next := ".", i + 3;
      } else {
        out, next := [t[i]], i + 1;
      }
      assert CollapseFrom(t, i) == out + CollapseFrom(t, next);
      assert r + (out + CollapseFrom(t, next)) == (r + out) + CollapseFrom(t, next);
      r, i := r + out, next;
    }
    CollapseFromIsReplace(t, 0);
    assert t[0..] == t;
  }

  /** An executable normaliser built from the two passes. */
  method Normalize(text: string) returns (r: string)
    ensures r == TextPreprocess(text)
  {
    var t := DotPunctuate(text);
    r := CollapseEllipses(t);
  }
}
