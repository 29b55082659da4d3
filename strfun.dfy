/**
 * Model of msra::strfun::split and msra::strfun::join (basetypes.h).
 * split tokenises a string the way strtok() would: the delimiter argument is a
 * set of characters, and the tokens are the maximal runs of characters outside
 * that set. join concatenates strings with a delimiter string between them.
 */
module StrFun {
  import opened Wrappers

  // ---------------------------------------------------------------------------
  // The std::basic_string searches that split is written with
  // ---------------------------------------------------------------------------

  /** s.find_first_not_of(delim, pos); None stands for npos. */
  function FindFirstNotOf(s: string, delim: string, pos: nat): (r: Option<nat>)
    decreases |s| - pos
    ensures r.None? <==> forall i :: pos <= i < |s| ==> s[i] in delim
    ensures r.Some? ==> pos <= r.value < |s| && s[r.value] !in delim
    ensures r.Some? ==> forall i :: pos <= i < r.value ==> s[i] in delim
  {
    if pos >= |s| then None
    else if s[pos] !in delim then Some(pos)
    else FindFirstNotOf(s, delim, pos + 1)
  }

  /** s.find_first_of(delim, pos); None stands for npos. */
  function FindFirstOf(s: string, delim: string, pos: nat): (r: Option<nat>)
    decreases |s| - pos
    ensures r.None? <==> forall i :: pos <= i < |s| ==> s[i] !in delim
    ensures r.Some? ==> pos <= r.value < |s| && s[r.value] in delim
    ensures r.Some? ==> forall i :: pos <= i < r.value ==> s[i] !in delim
  {
    if pos >= |s| then None
    else if s[pos] in delim then Some(pos)
    else FindFirstOf(s, delim, pos + 1)
  }

  // ---------------------------------------------------------------------------
  // Specification of split
  // ---------------------------------------------------------------------------

  /** Length of the longest prefix of s that holds no delimiter character. */
  function RunLength(s: string, delim: string): (k: nat)
    ensures k <= |s|
    ensures forall i :: 0 <= i < k ==> s[i] !in delim
    ensures k == |s| || s[k] in delim
  {
    if s == [] || s[0] in delim then 0 else 1 + RunLength(s[1..], delim)
  }

  /** The tokens of s: its maximal runs of non-delimiter characters, left to right. */
  function Tokens(s: string, delim: string): (r: seq<string>)
    ensures 2 * |r| <= |s| + 1
    ensures s != [] && s[0] in delim ==> 2 * |r| <= |s|
    decreases |s|
  {
    if s == [] then []
    else if s[0] in delim then Tokens(s[1..], delim)
    else
      var k := RunLength(s, delim);
      [s[..k]] + Tokens(s[k..], delim)
  }

  /** The characters of s that are not delimiters, in order. */
  function NonDelims(s: string, delim: string): string
  {
    if s == [] then []
    else (if s[0] in delim then [] else [s[0]]) + NonDelims(s[1..], delim)
  }

  /** Concatenation of all strings of a. */
  function Concat(a: seq<string>): string
  {
    if a == [] then [] else a[0] + Concat(a[1..])
  }

  /** gaps[0] + toks[0] + gaps[1] + ... + toks[n-1] + gaps[n]. */
  function Interleave(gaps: seq<string>, toks: seq<string>): string
    requires |gaps| == |toks| + 1
  {
    if toks == [] then gaps[0]
    else gaps[0] + toks[0] + Interleave(gaps[1..], toks[1..])
  }

  /** The runs of delimiter characters around and between the tokens of s. */
  function Separators(s: string, delim: string): (g: seq<string>)
    decreases |s|
    ensures |g| == |Tokens(s, delim)| + 1
  {
    if s == [] then [[]]
    else if s[0] in delim then
      var g := Separators(s[1..], delim);
      [[s[0]] + g[0]] + g[1..]
    else
      [[]] + Separators(s[RunLength(s, delim)..], delim)
  }

  predicate AllDelims(s: string, delim: string)
  {
    forall i :: 0 <= i < |s| ==> s[i] in delim
  }

  /** Each string of a is non-empty and holds no delimiter character. */
  predicate WellFormedTokens(a: seq<string>, delim: string)
  {
    forall k :: 0 <= k < |a| ==> |a[k]| > 0 && forall i :: 0 <= i < |a[k]| ==> a[k][i] !in delim
  }

  // ---------------------------------------------------------------------------
  // split, as the loop of the source
  // ---------------------------------------------------------------------------

  method Split(s: string, delim: string) returns (res: seq<string>)
    ensures res == Tokens(s, delim)
  {
    res := [];
    var st := FindFirstNotOf(s, delim, 0);
    SplitStart(s, delim, st);
    while st.Some?
      invariant Pending(s, delim, st, res)
      decreases |s| + 1 - (if st.Some? then st.value else |s| + 1)
    {
      var i := st.value;
      var found := FindFirstOf(s, delim, i + 1);
      var en := if found.Some? then found.value else |s|;
      var res' := res + [s[i..en]];
      st := FindFirstNotOf(s, delim, en + 1);   // may exceed |s|
      SplitStep(s, delim, res, i, en, st);
      res := res';
    }
  }

  /**
   * Loop invariant of split: res holds the tokens before the next start st,
   * and the tokens from st on are the rest of Tokens(s).
   */
  predicate Pending(s: string, delim: string, st: Option<nat>, res: seq<string>)
  {
    match st
    case None => res == Tokens(s, delim)
    case Some(i) => i < |s| && s[i] !in delim && res + Tokens(s[i..], delim) == Tokens(s, delim)
  }

  lemma SplitStart(s: string, delim: string, st: Option<nat>)
    requires st == FindFirstNotOf(s, delim, 0)
    ensures Pending(s, delim, st, [])
  {
    TokensSkip(s, delim, 0, if st.Some? then st.value else |s|);
    assert s[0..] == s && s[|s|..] == [];
  }

  /** One turn of split's loop: the token at i, then the tokens from the next start. */
  lemma SplitStep(s: string, delim: string, res: seq<string>, i: nat, en: nat, next: Option<nat>)
    requires Pending(s, delim, Some(i), res)
    requires en == (if FindFirstOf(s, delim, i + 1).Some? then FindFirstOf(s, delim, i + 1).value else |s|)
    requires next == FindFirstNotOf(s, delim, en + 1)
    ensures i < en <= |s|
    ensures next.Some? ==> en < next.value
    ensures Pending(s, delim, next, res + [s[i..en]])
  {
    var tok := s[i..en];
    var after := if next.Some? then Tokens(s[next.value..], delim) else [];
    TokensFrom(s, delim, i, en);
    TokensAfterToken(s, delim, en, next);
    PendingStep(s, delim, res, i, tok, next, after);
  }

  lemma PendingStep(s: string, delim: string, res: seq<string>, i: nat, tok: string, next: Option<nat>, after: seq<string>)
    requires Pending(s, delim, Some(i), res)
    requires Tokens(s[i..], delim) == [tok] + after
    requires next.Some? ==> next.value < |s| && s[next.value] !in delim
    requires after == if next.Some? then Tokens(s[next.value..], delim) else []
    ensures Pending(s, delim, next, res + [tok])
  {
    assert (res + [tok]) + after == res + ([tok] + after);
  }

  /** After a token ends at en, the next tokens start at the next non-delimiter. */
  lemma TokensAfterToken(s: string, delim: string, en: nat, next: Option<nat>)
    requires en <= |s| && (en == |s| || s[en] in delim)
    requires next == FindFirstNotOf(s, delim, en + 1)
    ensures Tokens(s[en..], delim) == if next.Some? then Tokens(s[next.value..], delim) else []
  {
    if en < |s| {
      TokensSkip(s, delim, en, if next.Some? then next.value else |s|);
    }
    assert s[|s|..] == [];
  }

  // ---------------------------------------------------------------------------
  // join
  // ---------------------------------------------------------------------------

  /** a[0] + delim + a[1] + ... + delim + a[n-1]; empty for an empty a. */
  function Joined(a: seq<string>, delim: string): (r: string)
    ensures |a| > 0 ==> a[0] <= r
    decreases |a|
  {
    if |a| == 0 then []
    else if |a| == 1 then a[0]
    else Joined(a[..|a| - 1], delim) + delim + a[|a| - 1]
  }

  /** Sum of the lengths of the strings of a. */
  function TotalLength(a: seq<string>): nat
    decreases |a|
  {
    if a == [] then 0 else TotalLength(a[..|a| - 1]) + |a[|a| - 1]|
  }

  method Join(a: seq<string>, delim: string) returns (res: string)
    ensures res == Joined(a, delim)
  {
    res := [];
    var i := 0;
    while i < |a|
      invariant 0 <= i <= |a|
      invariant res == Joined(a[..i], delim)
    {
      if i > 0 {
        res := res + delim;
      }
      res := res + a[i];
      assert a[..i + 1][..i] == a[..i];
      i := i + 1;
    }
    assert a[..|a|] == a;
  }

  // ---------------------------------------------------------------------------
  // Lemmas
  // ---------------------------------------------------------------------------

  /** Delimiters ahead of a position do not change the tokens that follow. */
  lemma {:induction false} TokensSkip(s: string, delim: string, a: nat, b: nat)
    requires a <= b <= |s|
    requires forall i :: a <= i < b ==> s[i] in delim
    ensures Tokens(s[a..], delim) == Tokens(s[b..], delim)
    decreases b - a
  {
    if a < b {
      assert s[a..][1..] == s[a + 1..];
      TokensSkip(s, delim, a + 1, b);
    }
  }

  /** A token starts at st and ends at the next delimiter (or the end of s). */
  lemma TokensFrom(s: string, delim: string, st: nat, en: nat)
    requires st < en <= |s| && s[st] !in delim
    requires forall i :: st < i < en ==> s[i] !in delim
    requires en == |s| || s[en] in delim
    ensures Tokens(s[st..], delim) == [s[st..en]] + Tokens(s[en..], delim)
  {
    var t := s[st..];
    var k := RunLength(t, delim);
    assert k == en - st;
    assert t[..k] == s[st..en];
    assert t[k..] == s[en..];
  }

  lemma {:induction false} TokensWellFormed(s: string, delim: string)
    ensures WellFormedTokens(Tokens(s, delim), delim)
    decreases |s|
  {
    if s != [] {
      if s[0] in delim {
        TokensWellFormed(s[1..], delim);
      } else {
        var k := RunLength(s, delim);
        TokensWellFormed(s[k..], delim);
      }
    }
  }

  /** A string yields no token exactly when it is made only of delimiters. */
  lemma {:induction false} TokensEmptyIff(s: string, delim: string)
    ensures Tokens(s, delim) == [] <==> AllDelims(s, delim)
    decreases |s|
  {
    if s != [] && s[0] in delim {
      TokensEmptyIff(s[1..], delim);
      assert AllDelims(s, delim) <==> AllDelims(s[1..], delim) by {
        if AllDelims(s[1..], delim) {
          forall i | 0 <= i < |s| ensures s[i] in delim {
            if i > 0 { assert s[i] == s[1..][i - 1]; }
          }
        }
      }
    }
  }

  lemma {:induction false} NonDelimsAppend(x: string, y: string, delim: string)
    ensures NonDelims(x + y, delim) == NonDelims(x, delim) + NonDelims(y, delim)
    decreases |x|
  {
    if x != [] {
      assert (x + y)[1..] == x[1..] + y;
      NonDelimsAppend(x[1..], y, delim);
    } else {
      assert x + y == y;
    }
  }

  lemma {:induction false} NonDelimsOfRun(t: string, delim: string)
    requires forall i :: 0 <= i < |t| ==> t[i] !in delim
    ensures NonDelims(t, delim) == t
    decreases |t|
  {
    if t != [] {
      NonDelimsOfRun(t[1..], delim);
    }
  }

  /** The tokens, put back together, are the non-delimiter characters of s in order. */
  lemma {:induction false} TokensConcat(s: string, delim: string)
    ensures Concat(Tokens(s, delim)) == NonDelims(s, delim)
    decreases |s|
  {
    if s != [] {
      if s[0] in delim {
        TokensConcat(s[1..], delim);
      } else {
        var k := RunLength(s, delim);
        TokensConcat(s[k..], delim);
        assert s == s[..k] + s[k..];
        NonDelimsAppend(s[..k], s[k..], delim);
        NonDelimsOfRun(s[..k], delim);
        var t := Tokens(s, delim);
        assert t[1..] == Tokens(s[k..], delim);
      }
    }
  }

  lemma InterleavePrefix(x: string, g: seq<string>, toks: seq<string>)
    requires |g| == |toks| + 1
    ensures Interleave([x + g[0]] + g[1..], toks) == x + Interleave(g, toks)
  {
    var g' := [x + g[0]] + g[1..];
    if toks != [] {
      assert g'[1..] == g[1..];
    }
  }

  /** The shape of a decomposition of s into gaps and tokens. */
  predicate IsDecomposition(s: string, delim: string, g: seq<string>, toks: seq<string>)
  {
    && |g| == |toks| + 1
    && Interleave(g, toks) == s
    && GoodGaps(g, delim)
  }

  /**
   * s splits as gap, token, gap, ..., token, gap: every gap is made of
   * delimiters and every gap strictly between two tokens is non-empty. With
   * TokensWellFormed this says the tokens are exactly the maximal runs.
   */
  lemma {:induction false} TokensAreMaximalRuns(s: string, delim: string)
    ensures IsDecomposition(s, delim, Separators(s, delim), Tokens(s, delim))
    decreases |s|
  {
    if s == [] {
    } else if s[0] in delim {
      TokensAreMaximalRuns(s[1..], delim);
      MaximalRunsDelim(s, delim);
    } else {
      var k := RunLength(s, delim);
      TokensAreMaximalRuns(s[k..], delim);
      MaximalRunsToken(s, delim);
    }
  }

  lemma InterleaveCons(t: string, g: seq<string>, toks: seq<string>)
    requires |g| == |toks| + 1
    ensures Interleave([[]] + g, [t] + toks) == t + Interleave(g, toks)
  {
    var g', toks' := [[]] + g, [t] + toks;
    assert g'[0] == [] && toks'[0] == t;
    assert g'[1..] == g && toks'[1..] == toks;
    assert Interleave(g', toks') == g'[0] + toks'[0] + Interleave(g, toks);
    assert [] + t == t;
  }

  /** Gaps made of delimiters, with the inner ones non-empty. */
  predicate GoodGaps(g: seq<string>, delim: string)
  {
    && (forall k :: 0 <= k < |g| ==> AllDelims(g[k], delim))
    && (forall k :: 0 < k < |g| - 1 ==> g[k] != [])
  }

  lemma GoodGapsPrefix(x: string, g: seq<string>, delim: string)
    requires |g| > 0 && GoodGaps(g, delim) && AllDelims(x, delim)
    ensures GoodGaps([x + g[0]] + g[1..], delim)
  {
    var g' := [x + g[0]] + g[1..];
    forall k | 0 <= k < |g'| ensures AllDelims(g'[k], delim) {
      if k == 0 {
        assert AllDelims(g[0], delim);
      } else {
        assert g'[k] == g[k];
      }
    }
    forall k | 0 < k < |g'| - 1 ensures g'[k] != [] {
      assert g'[k] == g[k];
    }
  }

  lemma GoodGapsCons(g: seq<string>, delim: string)
    requires |g| > 0 && GoodGaps(g, delim) && (|g| > 1 ==> g[0] != [])
    ensures GoodGaps([[]] + g, delim)
  {
    var g' := [[]] + g;
    forall i | 0 <= i < |g'| ensures AllDelims(g'[i], delim) {
      if i > 0 { assert g'[i] == g[i - 1]; }
    }
    forall i | 0 < i < |g'| - 1 ensures g'[i] != [] {
      assert g'[i] == g[i - 1];
    }
  }

  /** Step of TokensAreMaximalRuns for a leading delimiter: it joins the first gap. */
  lemma MaximalRunsDelim(s: string, delim: string)
    requires s != [] && s[0] in delim
    requires IsDecomposition(s[1..], delim, Separators(s[1..], delim), Tokens(s[1..], delim))
    ensures IsDecomposition(s, delim, Separators(s, delim), Tokens(s, delim))
  {
    var g := Separators(s[1..], delim);
    var toks := Tokens(s[1..], delim);
    assert Separators(s, delim) == [[s[0]] + g[0]] + g[1..];
    assert Tokens(s, delim) == toks;
    InterleavePrefix([s[0]], g, toks);
    assert s == [s[0]] + s[1..];
    assert GoodGaps(g, delim);
    GoodGapsPrefix([s[0]], g, delim);
  }

  /** Step of TokensAreMaximalRuns for a leading token: an empty gap, then the token. */
  lemma MaximalRunsToken(s: string, delim: string)
    requires s != [] && s[0] !in delim
    requires var k := RunLength(s, delim);
      IsDecomposition(s[k..], delim, Separators(s[k..], delim), Tokens(s[k..], delim))
    ensures IsDecomposition(s, delim, Separators(s, delim), Tokens(s, delim))
  {
    var k := RunLength(s, delim);
    var g := Separators(s[k..], delim);
    var rest := Tokens(s[k..], delim);
    assert Separators(s, delim) == [[]] + g;
    assert Tokens(s, delim) == [s[..k]] + rest;
    if k < |s| {
      SeparatorsHead(s[k..], delim);
    }
    DecompositionCons(s, delim, k, g, rest);
  }

  lemma SeparatorsHead(u: string, delim: string)
    requires u != [] && u[0] in delim
    ensures Separators(u, delim)[0] != []
  {
  }

  lemma DecompositionCons(s: string, delim: string, k: nat, g: seq<string>, rest: seq<string>)
    requires k <= |s|
    requires IsDecomposition(s[k..], delim, g, rest)
    requires |g| > 1 ==> g[0] != []
    ensures IsDecomposition(s, delim, [[]] + g, [s[..k]] + rest)
  {
    InterleaveCons(s[..k], g, rest);
    assert s[..k] + s[k..] == s;
    GoodGapsCons(g, delim);
  }

  /** A delimiter between x and y separates their tokens. */
  lemma {:induction false} TokensAppendDelim(x: string, c: char, y: string, delim: string)
    requires c in delim
    ensures Tokens(x + [c] + y, delim) == Tokens(x, delim) + Tokens(y, delim)
    decreases |x|
  {
    var s := x + [c] + y;
    if x == [] {
      assert s[1..] == y;
    } else if x[0] in delim {
      assert s[1..] == x[1..] + [c] + y;
      TokensAppendDelim(x[1..], c, y, delim);
    } else {
      var k := RunLength(x, delim);
      assert RunLength(s, delim) == k by {
        assert k < |x| ==> s[k] == x[k];
        assert k == |x| ==> s[k] == c;
      }
      assert s[..k] == x[..k];
      assert s[k..] == x[k..] + [c] + y;
      TokensAppendDelim(x[k..], c, y, delim);
    }
  }

  /** A non-empty delimiter-free string is its own single token. */
  lemma SingleToken(t: string, delim: string)
    requires |t| > 0 && forall i :: 0 <= i < |t| ==> t[i] !in delim
    ensures Tokens(t, delim) == [t]
  {
    var k := RunLength(t, delim);
    assert k == |t|;
    assert t[..k] == t && t[k..] == [];
  }

  /** Length of a join: the lengths of the parts plus one delimiter between each pair. */
  lemma {:induction false} JoinedLength(a: seq<string>, delim: string)
    ensures |Joined(a, delim)| == if a == [] then 0 else TotalLength(a) + (|a| - 1) * |delim|
    decreases |a|
  {
    if |a| == 1 {
      assert a[..0] == [];
    } else if |a| > 1 {
      var init := a[..|a| - 1];
      JoinedLength(init, delim);
      assert (|a| - 1) * |delim| == (|a| - 2) * |delim| + |delim|;
    }
  }

  /** Splitting a join on a one-character delimiter gives back the parts. */
  lemma {:induction false} SplitJoinRoundTrip(a: seq<string>, c: char)
    requires WellFormedTokens(a, [c])
    ensures Tokens(Joined(a, [c]), [c]) == a
    decreases |a|
  {
    if |a| == 1 {
      SingleToken(a[0], [c]);
    } else if |a| > 1 {
      var init := a[..|a| - 1];
      var last := a[|a| - 1];
      WellFormedPrefix(a, [c]);
      SplitJoinRoundTrip(init, c);
      assert Joined(a, [c]) == Joined(init, [c]) + [c] + last;
      TokensAppendDelim(Joined(init, [c]), c, last, [c]);
      SingleToken(last, [c]);
      assert init + [last] == a;
    }
  }

  /** Dropping the last string keeps a list of tokens well formed. */
  lemma WellFormedPrefix(a: seq<string>, delim: string)
    requires |a| > 0 && WellFormedTokens(a, delim)
    ensures WellFormedTokens(a[..|a| - 1], delim)
  {
    var init := a[..|a| - 1];
    forall k | 0 <= k < |init|
      ensures |init[k]| > 0 && forall i :: 0 <= i < |init[k]| ==> init[k][i] !in delim
    {
      assert init[k] == a[k];
    }
  }
}
