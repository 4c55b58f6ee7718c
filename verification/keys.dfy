/**
 * Object-key tests and rewriting: the `.csv` suffix filter
 * (src/LambdaFunction/Function.cs line 76) and the destination key
 * `csvKey.Replace(".csv", ".json").Replace(inputPath, outputPath)` (line 52,
 * constants at lines 13-14).
 */
module Keys {
  import opened Fields

  const SourceSuffix: string := ".csv"
  const TargetSuffix: string := ".json"
  const InputPath: string := "inputs"
  const OutputPath: string := "outputs"

  /** `s.EndsWith(suffix)`, compared character by character. */
  predicate EndsWith(s: string, suffix: string)
  {
    |suffix| <= |s| && s[|s| - |suffix|..] == suffix
  }

  /** `pat` occurs somewhere in `s` (an independent reference for the scan below). */
  predicate Occurs(s: string, pat: string)
  {
    exists i :: 0 <= i <= |s| && MatchesAt(s, pat, i)
  }

  /** `pat` occurs in `s` starting at position `i`. */
  predicate MatchesAt(s: string, pat: string, i: nat)
  {
    i + |pat| <= |s| && s[i..i + |pat|] == pat
  }

  /** The number of matches `ReplaceAll` rewrites: left to right, never overlapping. */
  function MatchCount(s: string, pat: string): nat
    requires |pat| > 0
    decreases |s|
  {
    if |s| < |pat| then 0
    else if s[..|pat|] == pat then 1 + MatchCount(s[|pat|..], pat)
    else MatchCount(s[1..], pat)
  }

  /**
   * `s.Replace(pat, rep)`: scans left to right, rewrites every non-overlapping
   * match and resumes after it. An empty `pat` makes .NET throw, so the model
   * asks for a non-empty one; the source only passes non-empty constants.
   */
  function ReplaceAll(s: string, pat: string, rep: string): string
    requires |pat| > 0
    decreases |s|
  {
    if |s| < |pat| then s
    else if s[..|pat|] == pat then rep + ReplaceAll(s[|pat|..], pat, rep)
    else [s[0]] + ReplaceAll(s[1..], pat, rep)
  }

  /** A window of `s[1..]` is the window of `s` one position further on. */
  lemma DropFirstSlice(s: string, i: nat, m: nat)
    requires i + m < |s|
    ensures s[1..][i..i + m] == s[i + 1..i + 1 + m]
  {
    var a, b := s[1..][i..i + m], s[i + 1..i + 1 + m];
    forall k | 0 <= k < m
      ensures a[k] == b[k]
    {
      assert a[k] == s[1..][i + k] == s[i + 1 + k];
    }
  }

  /** A match at the start is rewritten and the scan resumes after it. */
  lemma ReplaceAllRewrites(s: string, pat: string, rep: string)
    requires |pat| > 0 && MatchesAt(s, pat, 0)
    ensures ReplaceAll(s, pat, rep) == rep + ReplaceAll(s[|pat|..], pat, rep)
  {
    assert s[..|pat|] == pat;
  }

  /** Without a match at the start, the scan copies the first character. */
  lemma ReplaceAllCopies(s: string, pat: string, rep: string)
    requires |pat| > 0 && |s| > 0 && !MatchesAt(s, pat, 0)
    ensures ReplaceAll(s, pat, rep) == [s[0]] + ReplaceAll(s[1..], pat, rep)
  {
    if |s| < |pat| {
      assert s == [s[0]] + s[1..];
    }
  }

  /** A match in `s[1..]` is a match in `s` one position further on, and back. */
  lemma MatchesAtShift(s: string, pat: string, j: nat)
    requires |s| > 0
    ensures MatchesAt(s[1..], pat, j) <==> MatchesAt(s, pat, j + 1)
  {
    if j + |pat| < |s| {
      DropFirstSlice(s, j, |pat|);
    }
  }

  /** The scan finds a match exactly when the pattern occurs. */
  lemma {:induction false} MatchCountOccurs(s: string, pat: string)
    requires |pat| > 0
    ensures MatchCount(s, pat) > 0 <==> Occurs(s, pat)
    decreases |s|
  {
    if |s| < |pat| {
    } else if s[..|pat|] == pat {
      assert MatchesAt(s, pat, 0);
    } else {
      MatchCountOccurs(s[1..], pat);
      if Occurs(s, pat) {
        var i :| 0 <= i <= |s| && MatchesAt(s, pat, i);
        assert i > 0;
        DropFirstSlice(s, i - 1, |pat|);
        assert MatchesAt(s[1..], pat, i - 1);
      }
      if Occurs(s[1..], pat) {
        var i :| 0 <= i <= |s| - 1 && MatchesAt(s[1..], pat, i);
        DropFirstSlice(s, i, |pat|);
        assert MatchesAt(s, pat, i + 1);
      }
    }
  }

  /** Every match rewritten changes the length by the difference of the two lengths. */
  lemma {:induction false} ReplaceAllLength(s: string, pat: string, rep: string)
    requires |pat| > 0
    ensures |ReplaceAll(s, pat, rep)| == |s| + MatchCount(s, pat) * (|rep| - |pat|)
    decreases |s|
  {
    if |s| < |pat| {
    } else if s[..|pat|] == pat {
      var rest := s[|pat|..];
      var c := MatchCount(rest, pat);
      var d := |rep| - |pat|;
      ReplaceAllLength(rest, pat, rep);
      assert MatchCount(s, pat) == c + 1;
      assert |ReplaceAll(s, pat, rep)| == |rep| + |ReplaceAll(rest, pat, rep)|;
      SuccessorProduct(c, d);
    } else {
      ReplaceAllLength(s[1..], pat, rep);
      assert MatchCount(s, pat) == MatchCount(s[1..], pat);
      assert |ReplaceAll(s, pat, rep)| == 1 + |ReplaceAll(s[1..], pat, rep)|;
    }
  }

  /** One more match adds one more change. */
  lemma SuccessorProduct(c: int, d: int)
    ensures (c + 1) * d == c * d + d
  {
  }

  /** A positive count of a non-zero change is a non-zero change. */
  lemma NonZeroProduct(c: int, d: int)
    requires c >= 1 && d != 0
    ensures c * d != 0
  {
    if d > 0 {
      assert c * d >= d;
    } else {
      assert c * d <= d;
    }
  }

  /**
   * A replacement whose length differs from the pattern's leaves the key
   * unchanged exactly when the pattern does not occur in it.
   */
  lemma ReplaceAllUnchanged(s: string, pat: string, rep: string)
    requires |pat| > 0 && |rep| != |pat|
    ensures ReplaceAll(s, pat, rep) == s <==> !Occurs(s, pat)
  {
    MatchCountOccurs(s, pat);
    if Occurs(s, pat) {
      ReplaceAllLength(s, pat, rep);
      NonZeroProduct(MatchCount(s, pat), |rep| - |pat|);
    } else {
      NoMatchUnchanged(s, pat, rep);
    }
  }

  /** Without a match the scan copies its input. */
  lemma {:induction false} NoMatchUnchanged(s: string, pat: string, rep: string)
    requires |pat| > 0 && MatchCount(s, pat) == 0
    ensures ReplaceAll(s, pat, rep) == s
    decreases |s|
  {
    if |s| >= |pat| {
      NoMatchUnchanged(s[1..], pat, rep);
      assert s == [s[0]] + s[1..];
    }
  }

  /**
   * When `t` starts with a character that the pattern does not contain, no
   * match can straddle the boundary, so the two halves are rewritten apart.
   */
  lemma {:induction false} ReplaceAllSplits(x: string, t: string, pat: string, rep: string)
    requires |pat| > 0 && |t| > 0 && t[0] !in pat
    ensures ReplaceAll(x + t, pat, rep) == ReplaceAll(x, pat, rep) + ReplaceAll(t, pat, rep)
    decreases |x|
  {
    var s := x + t;
    if |x| == 0 {
      assert s == t;
    } else if |s| < |pat| {
    } else if s[..|pat|] == pat {
      assert |x| >= |pat| by {
        PatternReachesInto(x, t, pat);
      }
      assert x[..|pat|] == pat;
      assert s[|pat|..] == x[|pat|..] + t;
      ReplaceAllSplits(x[|pat|..], t, pat, rep);
    } else {
      assert s[1..] == x[1..] + t;
      ReplaceAllSplits(x[1..], t, pat, rep);
      if |x| >= |pat| {
        assert x[..|pat|] == s[..|pat|];
      } else {
        assert ReplaceAll(x[1..], pat, rep) == x[1..];
        assert x == [x[0]] + x[1..];
      }
    }
  }

  /** A match at the start of `x + t` that is longer than `x` contains `t[0]`. */
  lemma PatternReachesInto(x: string, t: string, pat: string)
    ensures |x| < |pat| <= |x + t| && (x + t)[..|pat|] == pat ==> t[0] in pat
  {
    if |x| < |pat| <= |x + t| && (x + t)[..|pat|] == pat {
      assert pat[|x|] == (x + t)[|x|] == t[0];
    }
  }

  /**
   * A key shorter than twice the pattern that both starts and ends with it
   * makes their overlap a border of the pattern.
   */
  lemma BorderOfShortKey(s: string, pat: string)
    ensures |pat| < |s| < 2 * |pat| && s[..|pat|] == pat && s[|s| - |pat|..] == pat ==>
              pat[..2 * |pat| - |s|] == pat[|s| - |pat|..]
  {
    if |pat| < |s| < 2 * |pat| && s[..|pat|] == pat && s[|s| - |pat|..] == pat {
      var k := 2 * |pat| - |s|;
      forall m | 0 <= m < k
        ensures pat[..k][m] == pat[|s| - |pat|..][m]
      {
        assert s[|s| - |pat|..][m] == pat[m];
        assert s[..|pat|][|s| - |pat| + m] == pat[|s| - |pat| + m];
      }
    }
  }

  /** No non-empty proper prefix of `pat` is also a suffix of it, so matches cannot overlap. */
  predicate Borderless(pat: string)
  {
    forall k :: 0 < k < |pat| ==> pat[..k] != pat[|pat| - k..]
  }

  /** Prepending keeps a suffix. */
  lemma EndsWithPrepend(a: string, b: string, suffix: string)
    requires EndsWith(b, suffix)
    ensures EndsWith(a + b, suffix)
  {
    assert (a + b)[|a + b| - |suffix|..] == b[|b| - |suffix|..];
  }

  /** A key that ends with a borderless pattern ends with the replacement after rewriting. */
  lemma {:induction false} ReplaceAllKeepsSuffix(s: string, pat: string, rep: string)
    requires |pat| > 0 && Borderless(pat) && EndsWith(s, pat)
    ensures EndsWith(ReplaceAll(s, pat, rep), rep)
    decreases |s|
  {
    if |s| == |pat| {
      assert s[..|pat|] == s;
      assert ReplaceAll(s, pat, rep) == rep + ReplaceAll(s[|pat|..], pat, rep);
      assert ReplaceAll(s[|pat|..], pat, rep) == [];
      assert rep + [] == rep;
    } else if s[..|pat|] == pat {
      var u := s[|pat|..];
      assert |u| >= |pat| by {
        BorderOfShortKey(s, pat);
      }
      assert u[|u| - |pat|..] == s[|s| - |pat|..];
      ReplaceAllKeepsSuffix(u, pat, rep);
      assert ReplaceAll(s, pat, rep) == rep + ReplaceAll(u, pat, rep);
      EndsWithPrepend(rep, ReplaceAll(u, pat, rep), rep);
    } else {
      var u := s[1..];
      assert u[|u| - |pat|..] == s[|s| - |pat|..];
      ReplaceAllKeepsSuffix(u, pat, rep);
      assert ReplaceAll(s, pat, rep) == [s[0]] + ReplaceAll(u, pat, rep);
      EndsWithPrepend([s[0]], ReplaceAll(u, pat, rep), rep);
    }
  }

  /** The destination key of an uploaded object (line 52 of the handler). */
  function DestinationKey(csvKey: string): string
  {
    ReplaceAll(ReplaceAll(csvKey, SourceSuffix, TargetSuffix), InputPath, OutputPath)
  }

  /** A `.csv` key is rewritten to a `.json` key. */
  lemma DestinationKeySuffix(csvKey: string)
    requires EndsWith(csvKey, SourceSuffix)
    ensures EndsWith(DestinationKey(csvKey), TargetSuffix)
  {
    SourceSuffixBorderless();
    ReplaceAllKeepsSuffix(csvKey, SourceSuffix, TargetSuffix);
    var mid := ReplaceAll(csvKey, SourceSuffix, TargetSuffix);
    var x := mid[..|mid| - |TargetSuffix|];
    assert mid == x + TargetSuffix;
    assert TargetSuffix[0] !in InputPath;
    ReplaceAllSplits(x, TargetSuffix, InputPath, OutputPath);
  }

  /**
   * The destination of a processed object is never itself a `.csv` key, so an
   * upload can never replace an object that a later record of the same batch reads.
   */
  lemma DestinationNotSource(csvKey: string)
    requires EndsWith(csvKey, SourceSuffix)
    ensures !EndsWith(DestinationKey(csvKey), SourceSuffix)
  {
    DestinationKeySuffix(csvKey);
    var d := DestinationKey(csvKey);
    assert d[|d| - 1] == TargetSuffix[4];
  }

  /** A prefix free of the pattern's first character is copied as it is. */
  lemma {:induction false} ReplaceAllSkipsPrefix(x: string, t: string, pat: string, rep: string)
    requires |pat| > 0 && pat[0] !in x
    ensures ReplaceAll(x + t, pat, rep) == x + ReplaceAll(t, pat, rep)
    decreases |x|
  {
    if |x| == 0 {
      assert x + t == t;
    } else {
      var s := x + t;
      var tail := x[1..];
      assert s[1..] == tail + t;
      assert pat[0] !in tail;
      ReplaceAllSkipsPrefix(tail, t, pat, rep);
      if |s| < |pat| {
        assert ReplaceAll(t, pat, rep) == t;
        assert ReplaceAll(s, pat, rep) == s;
      } else {
        assert s[..|pat|] != pat by {
          assert s[..|pat|][0] == x[0];
        }
        calc {
          ReplaceAll(s, pat, rep);
          [x[0]] + ReplaceAll(tail + t, pat, rep);
          [x[0]] + (tail + ReplaceAll(t, pat, rep));
          ([x[0]] + tail) + ReplaceAll(t, pat, rep);
          { assert [x[0]] + tail == x; }
          x + ReplaceAll(t, pat, rep);
        }
      }
    }
  }

  /** Up to the first match the scan copies its input. */
  lemma {:induction false} ReplaceAllCopiesPrefix(s: string, pat: string, rep: string, i: nat)
    requires |pat| > 0 && i <= |s|
    requires forall j :: 0 <= j < i ==> !MatchesAt(s, pat, j)
    ensures ReplaceAll(s, pat, rep) == s[..i] + ReplaceAll(s[i..], pat, rep)
    decreases i
  {
    if i > 0 {
      FirstMatchShift(s, pat, i);
      ReplaceAllCopiesPrefix(s[1..], pat, rep, i - 1);
      ReplaceAllCopies(s, pat, rep);
      ConsPrefix(s, i, ReplaceAll(s[i..], pat, rep));
    }
  }

  /**
   * The scan rewrites the first match: everything before it is copied and the
   * scan resumes right after it.
   */
  lemma ReplaceAllFirstMatch(s: string, pat: string, rep: string, i: nat)
    requires |pat| > 0 && MatchesAt(s, pat, i)
    requires forall j :: 0 <= j < i ==> !MatchesAt(s, pat, j)
    ensures ReplaceAll(s, pat, rep) == s[..i] + rep + ReplaceAll(s[i + |pat|..], pat, rep)
  {
    var y := ReplaceAll(s[i..], pat, rep);
    var z := ReplaceAll(s[i + |pat|..], pat, rep);
    assert ReplaceAll(s, pat, rep) == s[..i] + y by {
      ReplaceAllCopiesPrefix(s, pat, rep, i);
    }
    assert y == rep + z by {
      var u := s[i..];
      assert MatchesAt(u, pat, 0) by {
        assert u[..|pat|] == s[i..i + |pat|];
      }
      ReplaceAllRewrites(u, pat, rep);
      assert u[|pat|..] == s[i + |pat|..];
    }
    assert s[..i] + (rep + z) == s[..i] + rep + z;
  }

  /** The positions before the first match of `s`, seen from `s[1..]`. */
  lemma FirstMatchShift(s: string, pat: string, i: nat)
    requires 0 < i <= |s|
    requires forall j :: 0 <= j < i ==> !MatchesAt(s, pat, j)
    ensures !MatchesAt(s, pat, 0)
    ensures forall j :: 0 <= j < i - 1 ==> !MatchesAt(s[1..], pat, j)
  {
    forall j | 0 <= j < i - 1
      ensures !MatchesAt(s[1..], pat, j)
    {
      MatchesAtShift(s, pat, j);
    }
  }

  /** Putting the first character back in front of what follows it. */
  lemma ConsPrefix(s: string, i: nat, y: string)
    requires 0 < i <= |s|
    ensures [s[0]] + (s[1..][..i - 1] + y) == s[..i] + y
    ensures s[1..][i - 1..] == s[i..]
  {
    assert [s[0]] + s[1..][..i - 1] == s[..i];
  }

  /**
   * A window of `a + pat + b` that starts inside `a` and ends inside the
   * copy of `pat` overlaps that copy in a border of the pattern.
   */
  lemma StraddleIsBorder(a: string, b: string, pat: string, j: nat)
    ensures j < |a| < j + |pat| && MatchesAt(a + pat + b, pat, j) ==>
              pat[..j + |pat| - |a|] == pat[|a| - j..]
  {
    var s := a + pat + b;
    if j < |a| < j + |pat| && MatchesAt(s, pat, j) {
      var m := j + |pat| - |a|;
      forall x | 0 <= x < m
        ensures pat[..m][x] == pat[|a| - j..][x]
      {
        assert s[|a| + x] == pat[x];
        assert s[j..j + |pat|][|a| - j + x] == s[|a| + x];
      }
    }
  }

  /** Before a borderless pattern that follows a match-free `a`, nothing matches. */
  lemma NoMatchBefore(a: string, b: string, pat: string)
    requires |pat| > 0 && Borderless(pat) && !Occurs(a, pat)
    ensures forall j :: 0 <= j < |a| ==> !MatchesAt(a + pat + b, pat, j)
  {
    var s := a + pat + b;
    forall j | 0 <= j < |a|
      ensures !MatchesAt(s, pat, j)
    {
      if j + |pat| <= |a| {
        assert s[j..j + |pat|] == a[j..j + |pat|];
        assert !MatchesAt(a, pat, j);
      } else {
        StraddleIsBorder(a, b, pat, j);
        var m := j + |pat| - |a|;
        assert pat[..m] != pat[|pat| - m..];
      }
    }
  }

  /**
   * With `a` free of a borderless pattern, the copy of the pattern right
   * after `a` is rewritten and `a` is kept.
   */
  lemma ReplaceAllAfterFree(a: string, b: string, pat: string, rep: string)
    requires |pat| > 0 && Borderless(pat) && !Occurs(a, pat)
    ensures ReplaceAll(a + pat + b, pat, rep) == a + rep + ReplaceAll(b, pat, rep)
  {
    var s := a + pat + b;
    NoMatchBefore(a, b, pat);
    assert s[|a|..|a| + |pat|] == pat;
    ReplaceAllFirstMatch(s, pat, rep, |a|);
    assert s[..|a|] == a;
    assert s[|a| + |pat|..] == b;
  }

  /** No part contains `pat`. */
  predicate FreeOf(parts: seq<string>, pat: string)
  {
    forall i :: 0 <= i < |parts| ==> !Occurs(parts[i], pat)
  }

  /**
   * For a borderless pattern, every occurrence is rewritten and nothing else
   * changes: a key made of match-free parts joined by the pattern becomes the
   * same parts joined by the replacement.
   */
  lemma {:induction false} ReplaceAllGlue(parts: seq<string>, pat: string, rep: string)
    requires |parts| > 0 && |pat| > 0 && Borderless(pat) && FreeOf(parts, pat)
    ensures ReplaceAll(Glue(parts, pat), pat, rep) == Glue(parts, rep)
    decreases |parts|
  {
    if |parts| == 1 {
      MatchCountOccurs(parts[0], pat);
      NoMatchUnchanged(parts[0], pat, rep);
    } else {
      assert !Occurs(parts[0], pat);
      ReplaceAllAfterFree(parts[0], Glue(parts[1..], pat), pat, rep);
      assert FreeOf(parts[1..], pat) by {
        forall i | 0 <= i < |parts| - 1
          ensures !Occurs(parts[1..][i], pat)
        {
          assert parts[1..][i] == parts[i + 1];
        }
      }
      ReplaceAllGlue(parts[1..], pat, rep);
    }
  }

  /**
   * The cut of `s` at the matches the left-to-right scan finds: the stretches
   * between them, in order.
   */
  function Pieces(s: string, pat: string): (pieces: seq<string>)
    requires |pat| > 0
    ensures |pieces| > 0
    decreases |s|
  {
    if |s| < |pat| then [s]
    else if s[..|pat|] == pat then [[]] + Pieces(s[|pat|..], pat)
    else
      var p := Pieces(s[1..], pat);
      [[s[0]] + p[0]] + p[1..]
  }

  /** Every key is its pieces joined by the pattern. */
  lemma {:induction false} PiecesGlue(s: string, pat: string)
    requires |pat| > 0
    ensures Glue(Pieces(s, pat), pat) == s
    decreases |s|
  {
    if |s| < |pat| {
    } else if s[..|pat|] == pat {
      var rest := s[|pat|..];
      assert Pieces(s, pat) == [[]] + Pieces(rest, pat);
      assert Glue(Pieces(rest, pat), pat) == rest by {
        PiecesGlue(rest, pat);
      }
      assert Glue([[]] + Pieces(rest, pat), pat) == [] + pat + Glue(Pieces(rest, pat), pat) by {
        GlueCons([], Pieces(rest, pat), pat);
      }
      assert s == [] + pat + rest;
    } else {
      var p := Pieces(s[1..], pat);
      assert Pieces(s, pat) == [[s[0]] + p[0]] + p[1..];
      assert Glue(p, pat) == s[1..] by {
        PiecesGlue(s[1..], pat);
      }
      assert Glue([[s[0]] + p[0]] + p[1..], pat) == [s[0]] + Glue(p, pat) by {
        GlueFrontChar(s[0], p, pat);
      }
      assert s == [s[0]] + s[1..];
    }
  }

  /** A character put in front of the first part comes first in the glued string. */
  lemma GlueFrontChar(c: char, p: seq<string>, sep: string)
    requires |p| > 0
    ensures Glue([[c] + p[0]] + p[1..], sep) == [c] + Glue(p, sep)
  {
    if |p| > 1 {
      GlueCons([c] + p[0], p[1..], sep);
      GlueCons(p[0], p[1..], sep);
      assert p == [p[0]] + p[1..];
    }
  }

  /** Gluing a first part in front of the rest. */
  lemma GlueCons(first: string, rest: seq<string>, sep: string)
    requires |rest| > 0
    ensures Glue([first] + rest, sep) == first + sep + Glue(rest, sep)
  {
    assert ([first] + rest)[1..] == rest;
  }

  /** No piece contains the pattern. */
  lemma {:induction false} PiecesFree(s: string, pat: string)
    requires |pat| > 0
    ensures FreeOf(Pieces(s, pat), pat)
    decreases |s|
  {
    var pieces := Pieces(s, pat);
    if |s| < |pat| {
      assert forall j :: 0 <= j <= |s| ==> !MatchesAt(s, pat, j);
    } else if s[..|pat|] == pat {
      var rest := s[|pat|..];
      PiecesFree(rest, pat);
      assert forall j :: 0 <= j <= 0 ==> !MatchesAt([], pat, j);
      forall i | 0 <= i < |pieces|
        ensures !Occurs(pieces[i], pat)
      {
        if i > 0 {
          assert pieces[i] == Pieces(rest, pat)[i - 1];
        }
      }
    } else {
      var p := Pieces(s[1..], pat);
      PiecesFree(s[1..], pat);
      PiecesGlue(s[1..], pat);
      GluePrefix(p, pat);
      FirstPieceFree(s, p[0], pat);
      forall i | 0 <= i < |pieces|
        ensures !Occurs(pieces[i], pat)
      {
        if i > 0 {
          assert pieces[i] == p[i];
        }
      }
    }
  }

  /** The first part begins the glued string. */
  lemma GluePrefix(parts: seq<string>, sep: string)
    requires |parts| > 0
    ensures |parts[0]| <= |Glue(parts, sep)| && Glue(parts, sep)[..|parts[0]|] == parts[0]
  {
  }

  /**
   * The stretch before the scan's first match does not contain the pattern:
   * a match inside it would be one in `p0`, or one at the start of `s`.
   */
  lemma FirstPieceFree(s: string, p0: string, pat: string)
    requires |pat| > 0 && |s| >= |pat| && s[..|pat|] != pat
    requires !Occurs(p0, pat) && |p0| < |s| && s[1..][..|p0|] == p0
    ensures !Occurs([s[0]] + p0, pat)
  {
    var first := [s[0]] + p0;
    assert first == s[..|p0| + 1];
    forall j | 0 <= j <= |first|
      ensures !MatchesAt(first, pat, j)
    {
      if j == 0 {
        if |pat| <= |first| {
          assert first[..|pat|] == s[..|pat|];
        }
      } else if j + |pat| <= |first| {
        assert first[j..j + |pat|] == p0[j - 1..j - 1 + |pat|];
        assert !MatchesAt(p0, pat, j - 1);
      }
    }
  }

  /** `.csv` cannot overlap itself. */
  lemma SourceSuffixBorderless()
    ensures Borderless(SourceSuffix)
  {
    forall m | 0 < m < |SourceSuffix|
      ensures SourceSuffix[..m] != SourceSuffix[|SourceSuffix| - m..]
    {
      assert SourceSuffix[..m][0] != SourceSuffix[|SourceSuffix| - m..][0];
    }
  }

  /** `inputs` cannot overlap itself. */
  lemma InputPathBorderless()
    ensures Borderless(InputPath)
  {
    forall m | 0 < m < |InputPath|
      ensures InputPath[..m] != InputPath[|InputPath| - m..]
    {
      assert InputPath[..m][0] != InputPath[|InputPath| - m..][0];
    }
  }

  /**
   * Every `.csv` in a key becomes `.json`, wherever it stands, and every other
   * character is kept: the key's `.csv`-free parts are joined by `.json`.
   */
  lemma RepeatedSuffixRewrite(parts: seq<string>)
    requires |parts| > 0 && FreeOf(parts, SourceSuffix)
    ensures ReplaceAll(Glue(parts, SourceSuffix), SourceSuffix, TargetSuffix) == Glue(parts, TargetSuffix)
  {
    SourceSuffixBorderless();
    ReplaceAllGlue(parts, SourceSuffix, TargetSuffix);
  }

  /**
   * While the scan copies characters, a prefix of its output without the
   * replacement's first character is a prefix of its input.
   */
  lemma {:induction false} PrefixUntouched(s: string, pat: string, rep: string, q: string)
    requires |pat| > 0 && |rep| > 0 && rep[0] !in q
    ensures |q| <= |ReplaceAll(s, pat, rep)| && ReplaceAll(s, pat, rep)[..|q|] == q ==>
              |q| <= |s| && s[..|q|] == q
    decreases |s|
  {
    var r := ReplaceAll(s, pat, rep);
    if |q| == 0 || |s| < |pat| {
    } else if s[..|pat|] == pat {
      assert r[0] == rep[0];
    } else {
      var r1 := ReplaceAll(s[1..], pat, rep);
      assert r == [s[0]] + r1;
      PrefixUntouched(s[1..], pat, rep, q[1..]);
      if |q| <= |r| && r[..|q|] == q {
        assert r1[..|q| - 1] == r[1..|q|] == q[1..];
        assert s[..|q|] == [s[0]] + s[1..][..|q| - 1];
      }
    }
  }

  /**
   * The rewrite creates no occurrence of a word `q` that does not start with
   * a character of the replacement and does not hold its first character.
   */
  lemma {:induction false} RewriteCreatesNoMatch(s: string, pat: string, rep: string, q: string, i: nat)
    requires |pat| > 0 && |rep| > 0 && |q| > 0 && q[0] !in rep && rep[0] !in q
    ensures MatchesAt(ReplaceAll(s, pat, rep), q, i) ==> Occurs(s, q)
    decreases |s|
  {
    var r := ReplaceAll(s, pat, rep);
    if |s| < |pat| {
      assert r == s;
    } else if s[..|pat|] == pat {
      var rest := s[|pat|..];
      var r1 := ReplaceAll(rest, pat, rep);
      assert r == rep + r1;
      if i < |rep| {
        assert r[i] == rep[i];
      } else {
        assert MatchesAt(r, q, i) ==> MatchesAt(r1, q, i - |rep|) by {
          MatchesAtAppend(rep, r1, q, i);
        }
        assert Occurs(rest, q) ==> Occurs(s, q) by {
          OccursInSuffix(s, |pat|, q);
        }
        RewriteCreatesNoMatch(rest, pat, rep, q, i - |rep|);
      }
    } else if i == 0 {
      PrefixUntouched(s, pat, rep, q);
      if MatchesAt(r, q, 0) {
        assert r[..|q|] == q;
        assert MatchesAt(s, q, 0);
      }
    } else {
      var rest := s[1..];
      var r1 := ReplaceAll(rest, pat, rep);
      assert r == [s[0]] + r1;
      assert MatchesAt(r, q, i) ==> MatchesAt(r1, q, i - 1) by {
        MatchesAtAppend([s[0]], r1, q, i);
      }
      assert Occurs(rest, q) ==> Occurs(s, q) by {
        OccursInSuffix(s, 1, q);
      }
      RewriteCreatesNoMatch(rest, pat, rep, q, i - 1);
    }
  }

  /** A match past the end of `a` in `a + b` is a match in `b`. */
  lemma MatchesAtAppend(a: string, b: string, q: string, i: nat)
    requires i >= |a|
    ensures MatchesAt(a + b, q, i) ==> MatchesAt(b, q, i - |a|)
  {
    if MatchesAt(a + b, q, i) {
      assert (a + b)[i..i + |q|] == b[i - |a|..i - |a| + |q|];
    }
  }

  /** What occurs in a suffix occurs in the whole. */
  lemma OccursInSuffix(s: string, k: nat, q: string)
    requires k <= |s|
    ensures Occurs(s[k..], q) ==> Occurs(s, q)
  {
    if Occurs(s[k..], q) {
      var j :| 0 <= j <= |s[k..]| && MatchesAt(s[k..], q, j);
      assert s[k..][j..j + |q|] == s[j + k..j + k + |q|];
      assert MatchesAt(s, q, j + k);
    }
  }

  /** Turning `.csv` into `.json` never creates an `inputs`. */
  lemma CsvRewriteAddsNoInputs(s: string)
    ensures Occurs(ReplaceAll(s, SourceSuffix, TargetSuffix), InputPath) ==> Occurs(s, InputPath)
  {
    var r := ReplaceAll(s, SourceSuffix, TargetSuffix);
    assert InputPath[0] !in TargetSuffix;
    assert TargetSuffix[0] !in InputPath;
    forall i | 0 <= i <= |r|
      ensures MatchesAt(r, InputPath, i) ==> Occurs(s, InputPath)
    {
      RewriteCreatesNoMatch(s, SourceSuffix, TargetSuffix, InputPath, i);
    }
  }

  /** A key with no `inputs` anywhere only has its `.csv` turned into `.json`. */
  lemma KeyWithoutInputsRewrite(csvKey: string)
    requires !Occurs(csvKey, InputPath)
    ensures DestinationKey(csvKey) == ReplaceAll(csvKey, SourceSuffix, TargetSuffix)
  {
    var mid := ReplaceAll(csvKey, SourceSuffix, TargetSuffix);
    CsvRewriteAddsNoInputs(csvKey);
    MatchCountOccurs(mid, InputPath);
    NoMatchUnchanged(mid, InputPath, OutputPath);
  }

  /** Each part with its `.csv` rewritten. */
  function CsvRewritten(parts: seq<string>): (out: seq<string>)
    ensures |out| == |parts|
  {
    seq(|parts|, i requires 0 <= i < |parts| => ReplaceAll(parts[i], SourceSuffix, TargetSuffix))
  }

  /** Rewriting `.csv` leaves every `inputs` in place and works on the parts between them. */
  lemma {:induction false} CsvRewriteAcrossInputs(parts: seq<string>)
    requires |parts| > 0
    ensures ReplaceAll(Glue(parts, InputPath), SourceSuffix, TargetSuffix) == Glue(CsvRewritten(parts), InputPath)
    decreases |parts|
  {
    if |parts| > 1 {
      var g := Glue(parts[1..], InputPath);
      assert Glue(parts, InputPath) == parts[0] + (InputPath + g);
      assert (InputPath + g)[0] !in SourceSuffix;
      ReplaceAllSplits(parts[0], InputPath + g, SourceSuffix, TargetSuffix);
      assert SourceSuffix[0] !in InputPath;
      ReplaceAllSkipsPrefix(InputPath, g, SourceSuffix, TargetSuffix);
      CsvRewriteAcrossInputs(parts[1..]);
      assert CsvRewritten(parts)[1..] == CsvRewritten(parts[1..]);
    }
  }

  /**
   * `inputs` becomes `outputs` wherever it stands in the key, whole path
   * segment or not, and the stretches between the `inputs` only have their
   * `.csv` turned into `.json`.
   */
  lemma EmbeddedInputsRewrite(parts: seq<string>)
    requires |parts| > 0 && FreeOf(parts, InputPath)
    ensures DestinationKey(Glue(parts, InputPath)) == Glue(CsvRewritten(parts), OutputPath)
  {
    var rewritten := CsvRewritten(parts);
    CsvRewriteAcrossInputs(parts);
    forall i | 0 <= i < |rewritten|
      ensures !Occurs(rewritten[i], InputPath)
    {
      CsvRewriteAddsNoInputs(parts[i]);
    }
    InputPathBorderless();
    ReplaceAllGlue(rewritten, InputPath, OutputPath);
  }

  /**
   * For a borderless pattern and any key: the key is its pattern-free pieces
   * joined by the pattern, and the rewrite joins the same pieces with the
   * replacement.
   */
  lemma ReplaceAllEveryMatch(s: string, pat: string, rep: string)
    requires |pat| > 0 && Borderless(pat)
    ensures Glue(Pieces(s, pat), pat) == s && FreeOf(Pieces(s, pat), pat)
    ensures ReplaceAll(s, pat, rep) == Glue(Pieces(s, pat), rep)
  {
    PiecesGlue(s, pat);
    PiecesFree(s, pat);
    ReplaceAllGlue(Pieces(s, pat), pat, rep);
  }

  /**
   * The destination of any key: cut the key at every `inputs`, turn each
   * piece's `.csv` into `.json`, and join the pieces with `outputs`.
   */
  lemma DestinationKeyPieces(csvKey: string)
    ensures DestinationKey(csvKey) == Glue(CsvRewritten(Pieces(csvKey, InputPath)), OutputPath)
  {
    PiecesGlue(csvKey, InputPath);
    PiecesFree(csvKey, InputPath);
    EmbeddedInputsRewrite(Pieces(csvKey, InputPath));
  }

  /** A string missing the pattern's first character does not contain the pattern. */
  lemma FirstCharAbsent(s: string, pat: string)
    requires |pat| > 0 && pat[0] !in s
    ensures !Occurs(s, pat)
  {
    forall j | 0 <= j <= |s|
      ensures !MatchesAt(s, pat, j)
    {
      if j + |pat| <= |s| {
        assert s[j..j + |pat|][0] == s[j];
      }
    }
  }

  /** A stem without `.` followed by `.csv` becomes the stem followed by `.json`. */
  lemma StemRewrite(stem: string)
    requires SourceSuffix[0] !in stem
    ensures ReplaceAll(stem + SourceSuffix, SourceSuffix, TargetSuffix) == stem + TargetSuffix
  {
    FirstCharAbsent(stem, SourceSuffix);
    FirstCharAbsent([], SourceSuffix);
    RepeatedSuffixRewrite([stem, []]);
    assert [stem, []] == [stem] + [[]];
    GlueCons(stem, [[]], SourceSuffix);
    GlueCons(stem, [[]], TargetSuffix);
    assert stem + SourceSuffix + [] == stem + SourceSuffix;
    assert stem + TargetSuffix + [] == stem + TargetSuffix;
  }

  /**
   * A key with a single `inputs`, and `.csv` only at its end, moves to
   * `outputs` with the `.json` suffix, whatever surrounds the `inputs`.
   */
  lemma SingleInputsRewrite(pre: string, tail: string)
    requires InputPath[0] !in pre && SourceSuffix[0] !in pre
    requires InputPath[0] !in tail && SourceSuffix[0] !in tail
    ensures DestinationKey(pre + InputPath + tail + SourceSuffix) == pre + OutputPath + tail + TargetSuffix
  {
    var last := tail + SourceSuffix;
    var parts := [pre] + [last];
    assert InputPath[0] !in last;
    FirstCharAbsent(pre, InputPath);
    FirstCharAbsent(last, InputPath);
    assert FreeOf(parts, InputPath);
    EmbeddedInputsRewrite(parts);
    GlueCons(pre, [last], InputPath);
    FirstCharAbsent(pre, SourceSuffix);
    MatchCountOccurs(pre, SourceSuffix);
    NoMatchUnchanged(pre, SourceSuffix, TargetSuffix);
    StemRewrite(tail);
    assert CsvRewritten(parts) == [pre] + [tail + TargetSuffix];
    GlueCons(pre, [tail + TargetSuffix], OutputPath);
    assert Glue([last], InputPath) == last;
    assert Glue([tail + TargetSuffix], OutputPath) == tail + TargetSuffix;
    assert pre + InputPath + tail + SourceSuffix == pre + InputPath + last;
    assert pre + OutputPath + tail + TargetSuffix == pre + OutputPath + (tail + TargetSuffix);
  }

  /** A key under `inputs/` moves to `outputs/` and takes the `.json` suffix. */
  lemma InputsKeyExample()
    ensures DestinationKey("inputs/data.csv") == "outputs/data.json"
  {
    SingleInputsRewrite([], "/data");
    assert "inputs/data.csv" == [] + InputPath + "/data" + SourceSuffix;
    assert "outputs/data.json" == [] + OutputPath + "/data" + TargetSuffix;
  }

  /** A key outside `inputs/` keeps its path and only takes the `.json` suffix. */
  lemma ArchiveKeyExample()
    ensures DestinationKey("archive/data.csv") == "archive/data.json"
  {
    var stem := "archive/data";
    var key := stem + SourceSuffix;
    forall j | 0 <= j <= |key|
      ensures !MatchesAt(key, InputPath, j)
    {
      if j + |InputPath| <= |key| {
        assert key[j..j + |InputPath|][0] == key[j];
        assert key[j..j + |InputPath|][1] == key[j + 1];
      }
    }
    KeyWithoutInputsRewrite(key);
    StemRewrite(stem);
    assert "archive/data.csv" == key;
    assert "archive/data.json" == stem + TargetSuffix;
  }

  /** The code as written rewrites `inputs` inside a longer path segment. */
  lemma EmbeddedInputsExample()
    ensures DestinationKey("my-inputs-2/x.csv") == "my-outputs-2/x.json"
  {
    SingleInputsRewrite("my-", "-2/x");
    assert "my-inputs-2/x.csv" == "my-" + InputPath + "-2/x" + SourceSuffix;
    assert "my-outputs-2/x.json" == "my-" + OutputPath + "-2/x" + TargetSuffix;
  }

  /** A stem without `.` followed by `.csv` twice gets `.json` twice. */
  lemma DoubleSuffixRewrite(stem: string)
    requires SourceSuffix[0] !in stem
    ensures ReplaceAll(stem + SourceSuffix + SourceSuffix, SourceSuffix, TargetSuffix) ==
              stem + TargetSuffix + TargetSuffix
  {
    var parts := [stem] + ([[]] + [[]]);
    assert FreeOf(parts, SourceSuffix) by {
      FirstCharAbsent(stem, SourceSuffix);
      FirstCharAbsent([], SourceSuffix);
    }
    RepeatedSuffixRewrite(parts);
    assert Glue(parts, SourceSuffix) == stem + SourceSuffix + SourceSuffix by {
      GlueCons(stem, [[]] + [[]], SourceSuffix);
      GlueCons([], [[]], SourceSuffix);
    }
    assert Glue(parts, TargetSuffix) == stem + TargetSuffix + TargetSuffix by {
      GlueCons(stem, [[]] + [[]], TargetSuffix);
      GlueCons([], [[]], TargetSuffix);
    }
  }

  /** The code as written rewrites every `.csv`, not only the trailing one. */
  lemma RepeatedSuffixExample()
    ensures ReplaceAll("inputs/a.csv.csv", SourceSuffix, TargetSuffix) == "inputs/a.json.json"
  {
    DoubleSuffixRewrite("inputs/a");
    assert "inputs/a.csv.csv" == "inputs/a" + SourceSuffix + SourceSuffix;
    assert "inputs/a.json.json" == "inputs/a" + TargetSuffix + TargetSuffix;
  }
}
