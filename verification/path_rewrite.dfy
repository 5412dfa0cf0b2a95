/** The output-path derivation of `decrypt_img` in
    autodecrypt/decrypt_img.py: three chained Python `str.replace` calls,
    each replacing every non-overlapping occurrence, scanning left to right.

    The reference definition that `ReplaceAll` is proved against is the
    identity `s.replace(p, r) == r.join(s.split(p))`, which holds for every
    non-empty `p`. */
module PathRewrite {

  /** `pat` occurs in `s` starting at index `i`. */
  predicate OccursAt(s: string, pat: string, i: nat) {
    i + |pat| <= |s| && s[i..i + |pat|] == pat
  }

  /** `pat` occurs somewhere in `s` (Python's `pat in s`). */
  ghost predicate Contains(s: string, pat: string) {
    exists i: nat :: OccursAt(s, pat, i)
  }

  /** Python's `s.replace("", rep)`: `rep` before every character and at the
      end. */
  function InsertEverywhere(s: string, rep: string): (r: string)
    ensures |r| >= |s|
    ensures |rep| == 0 ==> r == s
  {
    if |s| == 0 then rep else rep + [s[0]] + InsertEverywhere(s[1..], rep)
  }

  /** Python's `s.replace(pat, rep)`: scanning from the left, every
      occurrence of `pat` that does not overlap an earlier replaced one
      becomes `rep`. A shorter replacement never lengthens the string and a
      longer one never shortens it. */
  function ReplaceAll(s: string, pat: string, rep: string): (r: string)
    ensures |rep| <= |pat| ==> |r| <= |s|
    ensures |pat| <= |rep| ==> |s| <= |r|
    decreases |s|
  {
    if |pat| == 0 then InsertEverywhere(s, rep)
    else if |s| == 0 then []
    else if OccursAt(s, pat, 0) then rep + ReplaceAll(s[|pat|..], pat, rep)
    else [s[0]] + ReplaceAll(s[1..], pat, rep)
  }

  /** Python's `s.split(pat)` for a non-empty separator: the pieces between
      the non-overlapping occurrences found scanning from the left. There is
      always at least one piece, and the first is a prefix of `s`. */
  function Split(s: string, pat: string): (parts: seq<string>)
    requires |pat| > 0
    ensures |parts| >= 1
    ensures parts[0] <= s
    decreases |s|
  {
    if |s| == 0 then [[]]
    else if OccursAt(s, pat, 0) then [[]] + Split(s[|pat|..], pat)
    else
      var rest := Split(s[1..], pat);
      [[s[0]] + rest[0]] + rest[1..]
  }

  /** Python's `sep.join(parts)`. */
  function Join(parts: seq<string>, sep: string): string {
    if |parts| == 0 then []
    else if |parts| == 1 then parts[0]
    else parts[0] + sep + Join(parts[1..], sep)
  }

  /** Placing `pat` at offset `d` against `rep` (so that they overlap),
      some character of `pat` differs from the character of `rep` under it. */
  ghost predicate Clashes(pat: string, rep: string, d: int) {
    exists t :: 0 <= t < |pat| && 0 <= d + t < |rep| && rep[d + t] != pat[t]
  }

  /** No occurrence of `pat` can overlap an inserted copy of `rep`, whatever
      surrounds it. */
  ghost predicate NoPartialMatch(pat: string, rep: string) {
    forall d :: -|pat| < d < |rep| ==> Clashes(pat, rep, d)
  }

  /** No occurrence of `pat` in `a + b` starts inside `a` and ends inside `b`. */
  ghost predicate NoStraddle(a: string, b: string, pat: string) {
    forall i: nat :: i < |a| < i + |pat| ==> !OccursAt(a + b, pat, i)
  }

  /** The output path `decrypt_img` writes to: "im4p", then "dfu", then
      "img3" replaced by "bin". */
  function OutputPath(infile: string): (out: string)
    ensures !Contains(out, "im4p")
    ensures !Contains(out, "dfu")
    ensures !Contains(out, "img3")
  {
    var s1 := ReplaceAll(infile, "im4p", "bin");
    var s2 := ReplaceAll(s1, "dfu", "bin");
    BinCannotHostPatterns();
    ReplaceAllRemoves(infile, "im4p", "bin");
    ReplaceAllRemoves(s1, "dfu", "bin");
    ReplaceAllPreservesAbsence(s1, "dfu", "bin", "im4p");
    ReplaceAllRemoves(s2, "img3", "bin");
    ReplaceAllPreservesAbsence(s2, "img3", "bin", "im4p");
    ReplaceAllPreservesAbsence(s2, "img3", "bin", "dfu");
    ReplaceAll(s2, "img3", "bin")
  }

  // ----- Substrings -----

  /** A slice of a string avoiding `q` avoids `q` too. */
  lemma SliceAvoids(s: string, a: nat, b: nat, q: string)
    requires a <= b <= |s|
    requires !Contains(s, q)
    ensures !Contains(s[a..b], q)
  {
    forall i: nat
      ensures !OccursAt(s[a..b], q, i)
    {
      if i + |q| <= b - a {
        var w := s[a..b][i..i + |q|];
        assert forall k :: 0 <= k < |w| ==> w[k] == s[a + i + k];
        assert w == s[a + i..a + i + |q|];
        assert !OccursAt(s, q, a + i);
      }
    }
  }

  // ----- ReplaceAll against its reference definition -----

  lemma JoinOntoFirst(x: string, parts: seq<string>, sep: string)
    requires |parts| >= 1
    ensures Join([x + parts[0]] + parts[1..], sep) == x + Join(parts, sep)
  {
    var ps := [x + parts[0]] + parts[1..];
    if |parts| > 1 {
      assert ps[1..] == parts[1..];
    }
  }

  /** `s.replace(pat, rep) == rep.join(s.split(pat))` for every non-empty
      `pat`. */
  lemma {:induction false} ReplaceAllIsJoinOfSplit(s: string, pat: string, rep: string)
    requires |pat| > 0
    ensures ReplaceAll(s, pat, rep) == Join(Split(s, pat), rep)
    decreases |s|
  {
    if |s| == 0 {
    } else if OccursAt(s, pat, 0) {
      ReplaceAllIsJoinOfSplit(s[|pat|..], pat, rep);
      var ps := Split(s[|pat|..], pat);
      assert Split(s, pat) == [[]] + ps;
      assert ([[]] + ps)[1..] == ps;
    } else {
      ReplaceAllIsJoinOfSplit(s[1..], pat, rep);
      JoinOntoFirst([s[0]], Split(s[1..], pat), rep);
    }
  }

  // ----- When ReplaceAll leaves its input alone -----

  /** Without an occurrence of `pat` there is nothing to replace. */
  lemma {:induction false} ReplaceAllAbsent(s: string, pat: string, rep: string)
    requires |pat| > 0
    requires !Contains(s, pat)
    ensures ReplaceAll(s, pat, rep) == s
    decreases |s|
  {
    if |s| > 0 {
      assert !OccursAt(s, pat, 0);
      SliceAvoids(s, 1, |s|, pat);
      assert s[1..|s|] == s[1..];
      ReplaceAllAbsent(s[1..], pat, rep);
    }
  }

  /** Replacing a string by itself changes nothing. */
  lemma {:induction false} ReplaceAllSelf(s: string, pat: string)
    ensures ReplaceAll(s, pat, pat) == s
    decreases |s|
  {
    if |pat| > 0 && |s| > 0 {
      if OccursAt(s, pat, 0) {
        ReplaceAllSelf(s[|pat|..], pat);
        assert s == pat + s[|pat|..];
      } else {
        ReplaceAllSelf(s[1..], pat);
      }
    }
  }

  /** An occurrence of `pat` and a different `rep` always change the string. */
  lemma {:induction false} ReplaceAllChanges(s: string, pat: string, rep: string)
    requires |pat| > 0 && rep != pat
    requires Contains(s, pat)
    ensures ReplaceAll(s, pat, rep) != s
    decreases |s|
  {
    var i: nat :| OccursAt(s, pat, i);
    var r := ReplaceAll(s, pat, rep);
    if OccursAt(s, pat, 0) {
      var tail := ReplaceAll(s[|pat|..], pat, rep);
      assert r == rep + tail;
      if |rep| == |pat| {
        assert r[..|pat|] == rep;
        assert s[..|pat|] == pat;
      } else if |rep| < |pat| {
        assert |tail| <= |s| - |pat|;
      } else {
        assert |tail| >= |s| - |pat|;
      }
    } else {
      assert i > 0;
      assert s[1..][i - 1..i - 1 + |pat|] == s[i..i + |pat|];
      assert OccursAt(s[1..], pat, i - 1);
      ReplaceAllChanges(s[1..], pat, rep);
      assert r == [s[0]] + ReplaceAll(s[1..], pat, rep);
      assert r[1..] == ReplaceAll(s[1..], pat, rep);
    }
  }

  /** For a non-empty `pat` and a different `rep`, the string is a fixed
      point of the replacement exactly when `pat` does not occur in it. */
  lemma ReplaceAllFixedIff(s: string, pat: string, rep: string)
    requires |pat| > 0 && rep != pat
    ensures ReplaceAll(s, pat, rep) == s <==> !Contains(s, pat)
  {
    if Contains(s, pat) {
      ReplaceAllChanges(s, pat, rep);
    } else {
      ReplaceAllAbsent(s, pat, rep);
    }
  }

  /** A shorter replacement strictly shortens a string that contains `pat`. */
  lemma {:induction false} ReplaceAllShrinks(s: string, pat: string, rep: string)
    requires |rep| < |pat|
    requires Contains(s, pat)
    ensures |ReplaceAll(s, pat, rep)| < |s|
    decreases |s|
  {
    var i: nat :| OccursAt(s, pat, i);
    if !OccursAt(s, pat, 0) {
      assert s[1..][i - 1..i - 1 + |pat|] == s[i..i + |pat|];
      assert OccursAt(s[1..], pat, i - 1);
      ReplaceAllShrinks(s[1..], pat, rep);
    }
  }

  // ----- Replacing in a concatenation -----

  /** Dropping a prefix of `a` keeps the boundary with `b` unstraddled. */
  lemma NoStraddleShift(a: string, b: string, pat: string, n: nat)
    requires n <= |a|
    requires NoStraddle(a, b, pat)
    ensures NoStraddle(a[n..], b, pat)
  {
    var a' := a[n..];
    assert a' + b == (a + b)[n..];
    forall i: nat | i < |a'| < i + |pat|
      ensures !OccursAt(a' + b, pat, i)
    {
      if i + |pat| <= |a' + b| {
        assert (a' + b)[i..i + |pat|] == (a + b)[i + n..i + n + |pat|];
        assert !OccursAt(a + b, pat, i + n);
      }
    }
  }

  lemma AppendAssoc(x: string, y: string, z: string)
    ensures x + (y + z) == (x + y) + z
  {
  }

  /** `ReplaceAll` on a string that starts with `pat`. */
  lemma ReplaceAllAtMatch(s: string, pat: string, rep: string)
    requires |pat| > 0 && OccursAt(s, pat, 0)
    ensures ReplaceAll(s, pat, rep) == rep + ReplaceAll(s[|pat|..], pat, rep)
  {
  }

  /** `ReplaceAll` on a non-empty string that does not start with `pat`. */
  lemma ReplaceAllAtMiss(s: string, pat: string, rep: string)
    requires |pat| > 0 && |s| > 0 && !OccursAt(s, pat, 0)
    ensures ReplaceAll(s, pat, rep) == [s[0]] + ReplaceAll(s[1..], pat, rep)
  {
  }

  /** Whether `pat` starts `a + b` is decided within `a` when `a` is at least
      as long as `pat`; a longer `pat` cannot start `a` at all. */
  lemma OccursAtFrontOfAppend(a: string, b: string, pat: string)
    ensures |pat| <= |a| ==> (OccursAt(a + b, pat, 0) <==> OccursAt(a, pat, 0))
    ensures |a| < |pat| ==> !OccursAt(a, pat, 0)
  {
    if |pat| <= |a| {
      assert (a + b)[..|pat|] == a[..|pat|];
    }
  }

  lemma DropOfAppend(a: string, b: string, n: nat)
    requires n <= |a|
    ensures (a + b)[n..] == a[n..] + b
  {
  }

  /** Without straddling, an occurrence at the front of `a + b` lies in `a`. */
  lemma MatchAtFrontFits(a: string, b: string, pat: string)
    requires |a| > 0 && NoStraddle(a, b, pat) && OccursAt(a + b, pat, 0)
    ensures |pat| <= |a|
  {
  }

  /** The inductive step of `ReplaceAllAppend` when `pat` occurs at the
      front of `a + b`: that occurrence lies in `a` and is replaced there. */
  lemma AppendStepAtMatch(a: string, b: string, pat: string, rep: string)
    requires |pat| > 0 && |pat| <= |a|
    requires OccursAt(a + b, pat, 0)
    requires ReplaceAll(a[|pat|..] + b, pat, rep) == ReplaceAll(a[|pat|..], pat, rep) + ReplaceAll(b, pat, rep)
    ensures ReplaceAll(a + b, pat, rep) == ReplaceAll(a, pat, rep) + ReplaceAll(b, pat, rep)
  {
    OccursAtFrontOfAppend(a, b, pat);
    DropOfAppend(a, b, |pat|);
    ReplaceAllAtMatch(a + b, pat, rep);
    ReplaceAllAtMatch(a, pat, rep);
    AppendAssoc(rep, ReplaceAll(a[|pat|..], pat, rep), ReplaceAll(b, pat, rep));
  }

  /** The inductive step of `ReplaceAllAppend` when `pat` does not occur at
      the front of `a + b`: the first character of `a` is kept. */
  lemma AppendStepAtMiss(a: string, b: string, pat: string, rep: string)
    requires |a| > 0 && |pat| > 0
    requires !OccursAt(a + b, pat, 0)
    requires ReplaceAll(a[1..] + b, pat, rep) == ReplaceAll(a[1..], pat, rep) + ReplaceAll(b, pat, rep)
    ensures ReplaceAll(a + b, pat, rep) == ReplaceAll(a, pat, rep) + ReplaceAll(b, pat, rep)
  {
    OccursAtFrontOfAppend(a, b, pat);
    DropOfAppend(a, b, 1);
    assert (a + b)[0] == a[0];
    ReplaceAllAtMiss(a + b, pat, rep);
    ReplaceAllAtMiss(a, pat, rep);
    AppendAssoc([a[0]], ReplaceAll(a[1..], pat, rep), ReplaceAll(b, pat, rep));
  }

  /** When no occurrence of `pat` straddles the boundary, replacing in `a + b`
      is replacing in `a` and in `b` separately. */
  lemma {:induction false} ReplaceAllAppend(a: string, b: string, pat: string, rep: string)
    requires |pat| > 0
    requires NoStraddle(a, b, pat)
    ensures ReplaceAll(a + b, pat, rep) == ReplaceAll(a, pat, rep) + ReplaceAll(b, pat, rep)
    decreases |a|
  {
    if |a| == 0 {
      assert a + b == b;
    } else if OccursAt(a + b, pat, 0) {
      MatchAtFrontFits(a, b, pat);
      NoStraddleShift(a, b, pat, |pat|);
      ReplaceAllAppend(a[|pat|..], b, pat, rep);
      AppendStepAtMatch(a, b, pat, rep);
    } else {
      NoStraddleShift(a, b, pat, 1);
      ReplaceAllAppend(a[1..], b, pat, rep);
      AppendStepAtMiss(a, b, pat, rep);
    }
  }

  /** A boundary followed by a character that `pat` does not use cannot be
      straddled. */
  lemma ForeignCharSeparates(a: string, b: string, pat: string)
    requires |b| > 0
    requires forall k :: 0 <= k < |pat| ==> pat[k] != b[0]
    ensures NoStraddle(a, b, pat)
  {
    forall i: nat | i < |a| < i + |pat|
      ensures !OccursAt(a + b, pat, i)
    {
      if i + |pat| <= |a + b| {
        assert (a + b)[i..i + |pat|][|a| - i] == b[0] != pat[|a| - i];
      }
    }
  }

  // ----- Which occurrences survive -----

  lemma {:induction false} SplitPiecesFree(s: string, pat: string)
    requires |pat| > 0
    ensures forall k :: 0 <= k < |Split(s, pat)| ==> !Contains(Split(s, pat)[k], pat)
    decreases |s|
  {
    var parts := Split(s, pat);
    if |s| == 0 {
      assert !OccursAt([], pat, 0);
    } else if OccursAt(s, pat, 0) {
      SplitPiecesFree(s[|pat|..], pat);
      assert !OccursAt([], pat, 0);
      assert parts == [[]] + Split(s[|pat|..], pat);
    } else {
      var rest := Split(s[1..], pat);
      SplitPiecesFree(s[1..], pat);
      var p0 := [s[0]] + rest[0];
      assert p0 == s[..|p0|];
      forall i: nat
        ensures !OccursAt(p0, pat, i)
      {
        if i + |pat| <= |p0| {
          if i == 0 {
            assert p0[..|pat|] == s[..|pat|];
          } else {
            assert rest[0][i - 1..i - 1 + |pat|] == p0[i..i + |pat|];
            assert !OccursAt(rest[0], pat, i - 1);
          }
        }
      }
      assert parts == [p0] + rest[1..];
    }
  }

  lemma {:induction false} SplitPiecesAvoid(s: string, pat: string, q: string)
    requires |pat| > 0 && |q| > 0
    requires !Contains(s, q)
    ensures forall k :: 0 <= k < |Split(s, pat)| ==> !Contains(Split(s, pat)[k], q)
    decreases |s|
  {
    var parts := Split(s, pat);
    assert !OccursAt([], q, 0);
    if |s| == 0 {
    } else if OccursAt(s, pat, 0) {
      SliceAvoids(s, |pat|, |s|, q);
      assert s[|pat|..|s|] == s[|pat|..];
      SplitPiecesAvoid(s[|pat|..], pat, q);
      assert parts == [[]] + Split(s[|pat|..], pat);
    } else {
      var rest := Split(s[1..], pat);
      SliceAvoids(s, 1, |s|, q);
      assert s[1..|s|] == s[1..];
      SplitPiecesAvoid(s[1..], pat, q);
      var p0 := [s[0]] + rest[0];
      assert p0 == s[..|p0|];
      SliceAvoids(s, 0, |p0|, q);
      assert s[0..|p0|] == p0;
      assert parts == [p0] + rest[1..];
    }
  }

  /** Joining pieces that avoid `q` with a separator that no occurrence of `q`
      can overlap gives a string that avoids `q`. */
  lemma {:induction false} JoinAvoids(parts: seq<string>, sep: string, q: string)
    requires |q| > 0
    requires forall k :: 0 <= k < |parts| ==> !Contains(parts[k], q)
    requires NoPartialMatch(q, sep)
    ensures !Contains(Join(parts, sep), q)
    decreases |parts|
  {
    if |parts| == 0 {
      assert !OccursAt([], q, 0);
    } else if |parts| > 1 {
      JoinAvoids(parts[1..], sep, q);
      var rest := Join(parts[1..], sep);
      var j := Join(parts, sep);
      var len := |parts[0]|;
      assert j == parts[0] + sep + rest;
      forall i: nat
        ensures !OccursAt(j, q, i)
      {
        if i + |q| <= |j| {
          if i + |q| <= len {
            assert parts[0][i..i + |q|] == j[i..i + |q|];
            assert !OccursAt(parts[0], q, i);
          } else if len + |sep| <= i {
            var i' := i - len - |sep|;
            assert rest[i'..i' + |q|] == j[i..i + |q|];
            assert !OccursAt(rest, q, i');
          } else {
            assert Clashes(q, sep, i - len);
            var t :| 0 <= t < |q| && 0 <= i - len + t < |sep| && sep[i - len + t] != q[t];
            assert j[i..i + |q|][t] == sep[i - len + t];
          }
        }
      }
    }
  }

  /** A replacement that cannot host a partial occurrence of `pat` removes
      every occurrence of `pat`. */
  lemma ReplaceAllRemoves(s: string, pat: string, rep: string)
    requires |pat| > 0
    requires NoPartialMatch(pat, rep)
    ensures !Contains(ReplaceAll(s, pat, rep), pat)
  {
    ReplaceAllIsJoinOfSplit(s, pat, rep);
    SplitPiecesFree(s, pat);
    JoinAvoids(Split(s, pat), rep, pat);
  }

  /** A replacement that cannot host a partial occurrence of `q` does not
      create an occurrence of `q` where there was none. */
  lemma ReplaceAllPreservesAbsence(s: string, pat: string, rep: string, q: string)
    requires |pat| > 0 && |q| > 0
    requires !Contains(s, q)
    requires NoPartialMatch(q, rep)
    ensures !Contains(ReplaceAll(s, pat, rep), q)
  {
    ReplaceAllIsJoinOfSplit(s, pat, rep);
    SplitPiecesAvoid(s, pat, q);
    JoinAvoids(Split(s, pat), rep, q);
  }

  // ----- The three rules of the output path -----

  lemma BinCannotHostPatterns()
    ensures NoPartialMatch("im4p", "bin")
    ensures NoPartialMatch("dfu", "bin")
    ensures NoPartialMatch("img3", "bin")
  {
    var bin := "bin";
    forall d | -4 < d < 3
      ensures Clashes("im4p", bin, d) && Clashes("img3", bin, d)
    {
      var t := if d < 0 then -d else if d == 1 then 1 else 0;
      assert 0 <= d + t < 3 && bin[d + t] != "im4p"[t] && bin[d + t] != "img3"[t];
    }
    forall d | -3 < d < 3
      ensures Clashes("dfu", bin, d)
    {
      var t := if d < 0 then -d else 0;
      assert 0 <= d + t < 3 && bin[d + t] != "dfu"[t];
    }
  }

  /** The derived path contains none of the three rewritten substrings. */
  lemma OutputPathIsClean(infile: string)
    ensures !Contains(OutputPath(infile), "im4p")
    ensures !Contains(OutputPath(infile), "dfu")
    ensures !Contains(OutputPath(infile), "img3")
  {
  }

  /** The output path equals the input path exactly when the input contains
      none of "im4p", "dfu" and "img3": in that case the decrypted file would
      overwrite its source. */
  lemma OutputPathUnchangedIff(infile: string)
    ensures OutputPath(infile) == infile
        <==> !Contains(infile, "im4p") && !Contains(infile, "dfu") && !Contains(infile, "img3")
  {
    var s1 := ReplaceAll(infile, "im4p", "bin");
    var s2 := ReplaceAll(s1, "dfu", "bin");
    var s3 := ReplaceAll(s2, "img3", "bin");
    if Contains(infile, "im4p") {
      ReplaceAllShrinks(infile, "im4p", "bin");
      assert |s3| < |infile|;
    } else {
      ReplaceAllAbsent(infile, "im4p", "bin");
      if Contains(infile, "dfu") {
        ReplaceAllChanges(infile, "dfu", "bin");
        if Contains(s2, "img3") {
          ReplaceAllShrinks(s2, "img3", "bin");
        } else {
          ReplaceAllAbsent(s2, "img3", "bin");
        }
      } else {
        ReplaceAllAbsent(infile, "dfu", "bin");
        if Contains(infile, "img3") {
          ReplaceAllChanges(infile, "img3", "bin");
        } else {
          ReplaceAllAbsent(infile, "img3", "bin");
        }
      }
    }
  }

  /** Deriving the output path of an output path changes nothing. */
  lemma OutputPathIdempotent(infile: string)
    ensures OutputPath(OutputPath(infile)) == OutputPath(infile)
  {
    OutputPathIsClean(infile);
    OutputPathUnchangedIff(OutputPath(infile));
  }

  /** A replacement whose pattern does not start with the first character
      of `s` keeps that character in front. */
  lemma ReplaceAllKeepsHead(s: string, pat: string, rep: string)
    requires |s| > 0 && |pat| > 0 && pat[0] != s[0]
    ensures |ReplaceAll(s, pat, rep)| > 0 && ReplaceAll(s, pat, rep)[0] == s[0]
  {
    assert !OccursAt(s, pat, 0) by {
      if |pat| <= |s| {
        assert s[..|pat|][0] == s[0];
      }
    }
  }

  /** One rule applied to `a + b`, where `b` starts with a '.' that no rule
      uses: the rule rewrites `a` and `b` separately and `b` keeps its '.'. */
  lemma ReplaceAllSplitsAtDot(a: string, b: string, pat: string)
    requires pat == "im4p" || pat == "dfu" || pat == "img3"
    requires |b| > 0 && b[0] == '.'
    ensures ReplaceAll(a + b, pat, "bin") == ReplaceAll(a, pat, "bin") + ReplaceAll(b, pat, "bin")
    ensures |ReplaceAll(b, pat, "bin")| > 0 && ReplaceAll(b, pat, "bin")[0] == '.'
  {
    ForeignCharSeparates(a, b, pat);
    ReplaceAllAppend(a, b, pat, "bin");
    ReplaceAllKeepsHead(b, pat, "bin");
  }

  /** A '.' is a boundary the path rewriting never crosses: the parts before
      and after it are rewritten independently. */
  lemma OutputPathSplitsAtDot(a: string, b: string)
    requires |b| > 0 && b[0] == '.'
    ensures OutputPath(a + b) == OutputPath(a) + OutputPath(b)
  {
    ReplaceAllSplitsAtDot(a, b, "im4p");
    var a1, b1 := ReplaceAll(a, "im4p", "bin"), ReplaceAll(b, "im4p", "bin");
    ReplaceAllSplitsAtDot(a1, b1, "dfu");
    var a2, b2 := ReplaceAll(a1, "dfu", "bin"), ReplaceAll(b1, "dfu", "bin");
    ReplaceAllSplitsAtDot(a2, b2, "img3");
  }

  /** A string lacking one of the characters of `pat` does not contain
      `pat`. */
  lemma MissingCharAbsent(s: string, pat: string, c: char)
    requires c in pat && c !in s
    ensures !Contains(s, pat)
  {
    var k :| 0 <= k < |pat| && pat[k] == c;
    forall i: nat | i + |pat| <= |s|
      ensures !OccursAt(s, pat, i)
    {
      assert s[i..i + |pat|][k] == s[i + k];
    }
  }

  /** A '.' followed by exactly the pattern becomes '.' followed by the
      replacement. */
  lemma DotThenPattern(pat: string, rep: string)
    requires |pat| > 0 && pat[0] != '.'
    ensures ReplaceAll("." + pat, pat, rep) == "." + rep
  {
    var s := "." + pat;
    ReplaceAllKeepsHead(s, pat, rep);
    assert s[1..] == pat;
    assert ReplaceAll(s, pat, rep) == [s[0]] + ReplaceAll(pat, pat, rep);
    assert OccursAt(pat, pat, 0);
    assert pat[|pat|..] == [];
    assert ReplaceAll(pat, pat, rep) == rep + ReplaceAll([], pat, rep);
  }

  /** One rule applied to a string missing one of the rule's characters
      changes nothing. */
  lemma RuleSkips(s: string, pat: string, c: char)
    requires |pat| > 0 && c in pat && c !in s
    ensures ReplaceAll(s, pat, "bin") == s
  {
    MissingCharAbsent(s, pat, c);
    ReplaceAllAbsent(s, pat, "bin");
  }

  /** ".img3": only the last rule fires. */
  lemma Img3ExtensionBecomesBin()
    ensures OutputPath(".img3") == ".bin"
  {
    var ext := ".img3";
    RuleSkips(ext, "im4p", '4');
    RuleSkips(ext, "dfu", 'd');
    DotThenPattern("img3", "bin");
    assert "." + "img3" == ext;
  }

  /** ".im4p": only the first rule fires. */
  lemma Im4pExtensionBecomesBin()
    ensures OutputPath(".im4p") == ".bin"
  {
    var ext, bin := ".im4p", ".bin";
    DotThenPattern("im4p", "bin");
    assert "." + "im4p" == ext;
    assert "." + "bin" == bin;
    RuleSkips(bin, "dfu", 'd');
    RuleSkips(bin, "img3", '3');
  }

  /** ".dfu": only the middle rule fires. */
  lemma DfuExtensionBecomesBin()
    ensures OutputPath(".dfu") == ".bin"
  {
    var ext, bin := ".dfu", ".bin";
    RuleSkips(ext, "im4p", '4');
    DotThenPattern("dfu", "bin");
    assert "." + "dfu" == ext;
    assert "." + "bin" == bin;
    RuleSkips(bin, "img3", '3');
  }

  /** Whatever comes before it, a trailing ".img3", ".im4p" or ".dfu"
      becomes ".bin". */
  lemma OutputPathOfSuffix(named: string, ext: string)
    requires ext == ".img3" || ext == ".im4p" || ext == ".dfu"
    ensures OutputPath(named + ext) == OutputPath(named) + ".bin"
  {
    OutputPathSplitsAtDot(named, ext);
    if ext == ".img3" {
      Img3ExtensionBecomesBin();
    } else if ext == ".im4p" {
      Im4pExtensionBecomesBin();
    } else {
      DfuExtensionBecomesBin();
    }
  }

  /** A file named `<stem>.img3`, `<stem>.im4p` or `<stem>.dfu`, whose stem
      contains none of the three patterns, is decrypted to `<stem>.bin`. */
  lemma OutputPathOfExtension(stem: string, ext: string)
    requires !Contains(stem, "im4p") && !Contains(stem, "dfu") && !Contains(stem, "img3")
    requires ext == ".img3" || ext == ".im4p" || ext == ".dfu"
    ensures OutputPath(stem + ext) == stem + ".bin"
  {
    OutputPathOfSuffix(stem, ext);
    OutputPathUnchangedIff(stem);
  }

  lemma FirmwareStemIsClean()
    ensures !Contains("firmware", "im4p") && !Contains("firmware", "dfu") && !Contains("firmware", "img3")
  {
    MissingCharAbsent("firmware", "im4p", '4');
    MissingCharAbsent("firmware", "dfu", 'd');
    MissingCharAbsent("firmware", "img3", '3');
  }

  /** "firmware.img3" is decrypted to "firmware.bin". */
  lemma FirmwareImg3Example()
    ensures OutputPath("firmware.img3") == "firmware.bin"
  {
    var stem := "firmware";
    FirmwareStemIsClean();
    OutputPathOfExtension(stem, ".img3");
    assert stem + ".img3" == "firmware.img3";
    assert stem + ".bin" == "firmware.bin";
  }

  /** "firmware.im4p" is decrypted to "firmware.bin". */
  lemma FirmwareIm4pExample()
    ensures OutputPath("firmware.im4p") == "firmware.bin"
  {
    var stem := "firmware";
    FirmwareStemIsClean();
    OutputPathOfExtension(stem, ".im4p");
    assert stem + ".im4p" == "firmware.im4p";
    assert stem + ".bin" == "firmware.bin";
  }

  /** Every rule fires, not only the first one that matches: a name ending
      in ".dfu.img3" has both extensions rewritten. */
  lemma AllRulesApply(stem: string)
    requires !Contains(stem, "im4p") && !Contains(stem, "dfu") && !Contains(stem, "img3")
    ensures OutputPath(stem + ".dfu.img3") == stem + ".bin.bin"
  {
    var named := stem + ".dfu";
    OutputPathOfExtension(stem, ".dfu");
    OutputPathOfSuffix(named, ".img3");
    assert named + ".img3" == stem + ".dfu.img3";
    assert stem + ".bin" + ".bin" == stem + ".bin.bin";
  }
}
