// Prefix-existence check of src/check_patterns.cpp: for every pattern, does at
// least one of the reference strings (`mainstrs`) start with it?

module PatternCheck {

  /** `s` starts with `p`: boost's `starts_with` with its default exact,
      case-sensitive character comparison. */
  predicate StartsWith(s: string, p: string)
  {
    |p| <= |s| && s[..|p|] == p
  }

  /** The prefix test is the usual notion of a prefix: `s` is `p` followed by something. */
  lemma StartsWithIffConcat(s: string, p: string)
    ensures StartsWith(s, p) <==> exists t :: s == p + t
  {
    if StartsWith(s, p) {
      assert s == p + s[|p|..];
    }
    if exists t :: s == p + t {
      var t :| s == p + t;
      assert s[..|p|] == p;
    }
  }

  /** `std::any_of` with the predicate `i == true`: false on an empty range. */
  function AnyOf(bs: seq<bool>): (r: bool)
    ensures r <==> exists i :: 0 <= i < |bs| && bs[i]
  {
    if bs == [] then false
    else if bs[0] then true
    else
      var rest := AnyOf(bs[1..]);
      assert forall i :: 1 <= i < |bs| ==> bs[i] == bs[1..][i - 1];
      rest
  }

  /** Some reference string starts with `p`. */
  ghost predicate SomeStartsWith(mainstrs: seq<string>, p: string)
  {
    exists j :: 0 <= j < |mainstrs| && StartsWith(mainstrs[j], p)
  }

  /** Reference result of the check, built one pattern at a time. */
  ghost function Matched(mainstrs: seq<string>, patterns: seq<string>): seq<bool>
  {
    if patterns == [] then []
    else [SomeStartsWith(mainstrs, patterns[0])] + Matched(mainstrs, patterns[1..])
  }

  /** One entry per pattern, and entry `k` answers the question for `patterns[k]` alone. */
  lemma {:induction false} MatchedAt(mainstrs: seq<string>, patterns: seq<string>)
    ensures |Matched(mainstrs, patterns)| == |patterns|
    ensures forall k :: 0 <= k < |patterns| ==>
              Matched(mainstrs, patterns)[k] == SomeStartsWith(mainstrs, patterns[k])
  {
    if patterns != [] {
      MatchedAt(mainstrs, patterns[1..]);
      forall k | 1 <= k < |patterns|
        ensures Matched(mainstrs, patterns)[k] == SomeStartsWith(mainstrs, patterns[k])
      {
        assert patterns[k] == patterns[1..][k - 1];
      }
    }
  }

  /**
   * check_patterns: the inner loop fills `logicalInner` with one prefix test per
   * reference string, `any_of` reduces it, and the outer loop stores the answer
   * for pattern `k` in `logicalOuter[k]`.
   */
  method CheckPatterns(mainstrs: seq<string>, patterns: seq<string>) returns (r: seq<bool>)
    ensures |r| == |patterns|
    ensures forall k :: 0 <= k < |patterns| ==>
              (r[k] <==> exists j :: 0 <= j < |mainstrs| && StartsWith(mainstrs[j], patterns[k]))
    ensures r == Matched(mainstrs, patterns)
  {
    var logicalInner := new bool[|mainstrs|];
    var logicalOuter := new bool[|patterns|];
    var nPattern := |patterns|;
    var nMainstrs := |mainstrs|;
    for k := 0 to nPattern
      invariant forall k' :: 0 <= k' < k ==> logicalOuter[k'] == SomeStartsWith(mainstrs, patterns[k'])
    {
      for j := 0 to nMainstrs
        modifies logicalInner
        invariant forall j' :: 0 <= j' < j ==> logicalInner[j'] == StartsWith(mainstrs[j'], patterns[k])
      {
        var matched := StartsWith(mainstrs[j], patterns[k]);
        logicalInner[j] := matched;
      }
      var anyMatched := AnyOf(logicalInner[..]);
      assert anyMatched ==> SomeStartsWith(mainstrs, patterns[k]) by {
        if anyMatched {
          var j :| 0 <= j < nMainstrs && logicalInner[..][j];
          assert StartsWith(mainstrs[j], patterns[k]);
        }
      }
      assert SomeStartsWith(mainstrs, patterns[k]) ==> anyMatched by {
        if SomeStartsWith(mainstrs, patterns[k]) {
          var j :| 0 <= j < nMainstrs && StartsWith(mainstrs[j], patterns[k]);
          assert logicalInner[..][j];
        }
      }
      logicalOuter[k] := anyMatched;
    }
    r := logicalOuter[..];
    MatchedAt(mainstrs, patterns);
  }

  /** With no reference strings every pattern fails: `any_of` of an empty range is false. */
  lemma EmptyMainstrsAllFalse(patterns: seq<string>)
    ensures Matched([], patterns) == seq(|patterns|, _ => false)
  {
    MatchedAt([], patterns);
  }

  /** With no patterns the result is empty. */
  lemma EmptyPatternsEmpty(mainstrs: seq<string>)
    ensures Matched(mainstrs, []) == []
  {
  }

  /** The empty pattern matches exactly when there is at least one reference string. */
  lemma EmptyPatternMatches(mainstrs: seq<string>, patterns: seq<string>, k: nat)
    requires k < |patterns| && patterns[k] == []
    ensures |Matched(mainstrs, patterns)| == |patterns|
    ensures Matched(mainstrs, patterns)[k] <==> mainstrs != []
  {
    MatchedAt(mainstrs, patterns);
    if mainstrs != [] {
      assert StartsWith(mainstrs[0], patterns[k]);
    }
  }

  /** A pattern longer than every reference string never matches. */
  lemma LongPatternFails(mainstrs: seq<string>, patterns: seq<string>, k: nat)
    requires k < |patterns|
    requires forall j :: 0 <= j < |mainstrs| ==> |mainstrs[j]| < |patterns[k]|
    ensures |Matched(mainstrs, patterns)| == |patterns|
    ensures !Matched(mainstrs, patterns)[k]
  {
    MatchedAt(mainstrs, patterns);
  }

  /** A reference string matches a pattern equal to itself. */
  lemma SelfMatch(p: string, rest: seq<string>)
    ensures Matched([p] + rest, [p]) == [true]
  {
    assert StartsWith(([p] + rest)[0], p);
  }

  /** Only which strings occur in `mainstrs` matters, not their order or multiplicity. */
  lemma MainstrsOrderIrrelevant(ms1: seq<string>, ms2: seq<string>, patterns: seq<string>)
    requires forall x :: x in ms1 <==> x in ms2
    ensures Matched(ms1, patterns) == Matched(ms2, patterns)
  {
    MatchedAt(ms1, patterns);
    MatchedAt(ms2, patterns);
    forall k | 0 <= k < |patterns|
      ensures SomeStartsWith(ms1, patterns[k]) == SomeStartsWith(ms2, patterns[k])
    {
      SameElementsSameAnswer(ms1, ms2, patterns[k]);
      SameElementsSameAnswer(ms2, ms1, patterns[k]);
    }
  }

  lemma SameElementsSameAnswer(ms1: seq<string>, ms2: seq<string>, p: string)
    requires forall x :: x in ms1 ==> x in ms2
    ensures SomeStartsWith(ms1, p) ==> SomeStartsWith(ms2, p)
  {
    if SomeStartsWith(ms1, p) {
      var j :| 0 <= j < |ms1| && StartsWith(ms1[j], p);
      assert ms1[j] in ms2;
      var j2 :| 0 <= j2 < |ms2| && ms2[j2] == ms1[j];
    }
  }

  /** In particular, permuting `mainstrs` never changes the result. */
  lemma MainstrsPermutationIrrelevant(ms1: seq<string>, ms2: seq<string>, patterns: seq<string>)
    requires multiset(ms1) == multiset(ms2)
    ensures Matched(ms1, patterns) == Matched(ms2, patterns)
  {
    forall x ensures x in ms1 <==> x in ms2 {
      assert x in ms1 <==> x in multiset(ms1);
      assert x in ms2 <==> x in multiset(ms2);
    }
    MainstrsOrderIrrelevant(ms1, ms2, patterns);
  }

  /**
   * Rearranging, selecting or repeating patterns rearranges the result the same
   * way: if `ps2[i]` is `ps1[f[i]]`, the answer for `ps2[i]` is the answer for `ps1[f[i]]`.
   */
  lemma PatternsReindexed(mainstrs: seq<string>, ps1: seq<string>, ps2: seq<string>, f: seq<nat>)
    requires |f| == |ps2|
    requires forall i :: 0 <= i < |f| ==> f[i] < |ps1| && ps2[i] == ps1[f[i]]
    ensures |Matched(mainstrs, ps1)| == |ps1| && |Matched(mainstrs, ps2)| == |ps2|
    ensures forall i :: 0 <= i < |f| ==> Matched(mainstrs, ps2)[i] == Matched(mainstrs, ps1)[f[i]]
  {
    MatchedAt(mainstrs, ps1);
    MatchedAt(mainstrs, ps2);
  }

  /** Matching is case-sensitive, and a pattern longer than the candidate fails. */
  lemma CaseAndLengthExamples()
    ensures Matched(["ABC"], ["abc"]) == [false]
    ensures Matched(["abc"], ["abcd"]) == [false]
  {
    MatchedAt(["ABC"], ["abc"]);
    assert !StartsWith("ABC", "abc") by { assert "ABC"[0] != "abc"[0]; }
    MatchedAt(["abc"], ["abcd"]);
  }

  /** Column-name prefixes: two patterns are valid, "profit" is not. */
  lemma ColumnPrefixExample()
    ensures Matched(["revenue_q1", "revenue_q2", "cost_total"], ["revenue", "cost", "profit"])
            == [true, true, false]
  {
    var ms := ["revenue_q1", "revenue_q2", "cost_total"];
    MatchedAt(ms, ["revenue", "cost", "profit"]);
    assert StartsWith(ms[0], "revenue");
    assert StartsWith(ms[2], "cost");
    assert !StartsWith(ms[0], "profit") by { assert ms[0][0] != "profit"[0]; }
    assert !StartsWith(ms[1], "profit") by { assert ms[1][0] != "profit"[0]; }
    assert !StartsWith(ms[2], "profit") by { assert ms[2][0] != "profit"[0]; }
  }
}
