/** Rust's `str::replace` and `str::find`, on strings modelled as sequences of
    characters, and what they guarantee. Indices count characters, where Rust
    counts UTF-8 bytes; `replace` does not depend on that difference.

    `s.replace(pat, rep)` scans `s` left to right, finds the non-overlapping
    occurrences of `pat` and copies `rep` in place of each; the text between
    occurrences is copied unchanged. An empty `pat` matches at every character
    boundary, so `"abc".replace("", "x") == "xaxbxcx"`. */
module StrReplace {
  import opened Wrappers

  /** `pat` occurs in `s` starting at index `i`. */
  predicate OccursAt(s: string, pat: string, i: nat) {
    i <= |s| && pat <= s[i..]
  }

  /** `s.contains(pat)`. */
  predicate Contains(s: string, pat: string) {
    exists i: nat | i <= |s| :: OccursAt(s, pat, i)
  }

  /** No character of `a` is also a character of `b`. */
  predicate Disjoint(a: string, b: string) {
    forall c :: c in a ==> c !in b
  }

  /** A character-index analogue of `s.find(pat)`: the index of the first
      occurrence of `pat`, if any.
      What "first" means is stated by `FindIsFirstOccurrence`. */
  function Find(s: string, pat: string): (r: Option<nat>)
    ensures r.Some? ==> r.value + |pat| <= |s|
    decreases |s|
  {
    if pat <= s then Some(0)
    else if s == [] then None
    else
      match Find(s[1..], pat)
      case None => None
      case Some(k) => Some(k + 1)
  }

  /** `Find` returns an occurrence, no earlier index is one, and it returns
      `None` exactly when `pat` does not occur at all. */
  lemma {:induction false} FindIsFirstOccurrence(s: string, pat: string)
    ensures Find(s, pat).Some? ==> OccursAt(s, pat, Find(s, pat).value)
    ensures Find(s, pat).Some? ==> forall j: nat :: j < Find(s, pat).value ==> !OccursAt(s, pat, j)
    ensures Find(s, pat).None? <==> !Contains(s, pat)
    decreases |s|
  {
    assert s[0..] == s;
    if pat <= s {
      assert OccursAt(s, pat, 0);
    } else if s != [] {
      FindIsFirstOccurrence(s[1..], pat);
      match Find(s[1..], pat)
      case None =>
        forall j: nat | j <= |s| ensures !OccursAt(s, pat, j) {
          if j > 0 {
            assert !OccursAt(s[1..], pat, j - 1);
            assert s[1..][j - 1..] == s[j..];
          }
        }
      case Some(k) =>
        assert s[1..][k..] == s[k + 1..];
        assert OccursAt(s, pat, k + 1);
        forall j: nat | 0 < j < k + 1 ensures !OccursAt(s, pat, j) {
          assert !OccursAt(s[1..], pat, j - 1);
          assert s[1..][j - 1..] == s[j..];
        }
    }
  }

  /** `s.replace(pat, rep)`, following the left-to-right scan of Rust's
      searcher. An empty `pat` puts `rep` at each of the `|s| + 1` character
      boundaries, every character of `s` between two copies. */
  function ReplaceAll(s: string, pat: string, rep: string): (r: string)
    ensures pat == [] ==> |r| == Slot(|s|, rep) + |rep|
    ensures pat == [] && s != [] ==> r[..|rep|] == rep && r[|rep|] == s[0]
    decreases |s|
  {
    if pat == [] then
      if s == [] then rep else rep + [s[0]] + ReplaceAll(s[1..], pat, rep)
    else if pat <= s then rep + ReplaceAll(s[|pat|..], pat, rep)
    else if s == [] then []
    else [s[0]] + ReplaceAll(s[1..], pat, rep)
  }

  /** Where the `i`-th copy of `rep` starts when the pattern is empty: each
      earlier copy is followed by one character of the input. */
  function Slot(i: nat, rep: string): nat {
    if i == 0 then 0 else Slot(i - 1, rep) + |rep| + 1
  }

  /** `Slot(i, rep)` is `i * (|rep| + 1)`. */
  lemma {:induction false} SlotIsProduct(i: nat, rep: string)
    ensures Slot(i, rep) == i * (|rep| + 1)
  {
    if i > 0 {
      SlotIsProduct(i - 1, rep);
    }
  }

  /** Dropping all of `a` and `m` more characters from `a + b`. */
  lemma DropConcat(a: string, b: string, m: nat)
    requires m <= |b|
    ensures (a + b)[|a| + m..] == b[m..]
  {
  }

  /** With an empty `pat`, what follows the first `i` copies and the first
      `i` characters is the replacement of the rest of `s`. */
  lemma {:induction false} EmptyPatternSuffix(s: string, rep: string, i: nat)
    requires i <= |s|
    ensures Slot(i, rep) <= |ReplaceAll(s, [], rep)|
    ensures ReplaceAll(s, [], rep)[Slot(i, rep)..] == ReplaceAll(s[i..], [], rep)
    decreases i
  {
    if i == 0 {
      assert s[0..] == s;
    } else {
      var head := rep + [s[0]];
      var r' := ReplaceAll(s[1..], [], rep);
      assert ReplaceAll(s, [], rep) == head + r';
      EmptyPatternSuffix(s[1..], rep, i - 1);
      assert s[1..][i - 1..] == s[i..];
      DropConcat(head, r', Slot(i - 1, rep));
    }
  }

  /** So an empty `pat` puts `rep` at every one of the `|s| + 1` character
      boundaries: the copy for boundary `i` starts at `Slot(i, rep)` and,
      except at the end, is followed by `s[i]`. */
  lemma EmptyPatternAt(s: string, rep: string, i: nat)
    requires i <= |s|
    ensures Slot(i, rep) + |rep| <= |ReplaceAll(s, [], rep)|
    ensures ReplaceAll(s, [], rep)[Slot(i, rep)..Slot(i, rep) + |rep|] == rep
    ensures i < |s| ==>
      Slot(i, rep) + |rep| < |ReplaceAll(s, [], rep)| && ReplaceAll(s, [], rep)[Slot(i, rep) + |rep|] == s[i]
  {
    EmptyPatternSuffix(s, rep, i);
    var r := ReplaceAll(s, [], rep);
    var t := ReplaceAll(s[i..], [], rep);
    assert t[..|rep|] == rep;
    assert r[Slot(i, rep)..Slot(i, rep) + |rep|] == t[..|rep|];
  }

  /** `replace` as Rust's documentation describes it in terms of `find`: copy
      the text before the first match, then `rep`, then carry on after the
      match. This is the reference definition `ReplaceAll` is proved against. */
  function ReplaceByFind(s: string, pat: string, rep: string): (r: string)
    requires |pat| > 0
    decreases |s|
  {
    match Find(s, pat)
    case None => s
    case Some(k) => s[..k] + rep + ReplaceByFind(s[k + |pat|..], pat, rep)
  }


  /** Disjoint strings differ at every pair of positions. */
  lemma DisjointAt(a: string, b: string, i: nat, j: nat)
    requires Disjoint(a, b) && i < |a| && j < |b|
    ensures a[i] != b[j]
  {
    assert a[i] in a;
  }

  /** An occurrence at index `i` of `a + b`, past the end of `a`, is an
      occurrence in `b`. */
  lemma OccursAtConcat(a: string, b: string, pat: string, i: nat)
    requires |a| <= i
    ensures OccursAt(a + b, pat, i) <==> OccursAt(b, pat, i - |a|)
  {
    if i <= |a + b| {
      assert (a + b)[i..] == b[i - |a|..];
    }
  }

  /** One step of `ReplaceByFind` at a match found at index `k`; `t` is the
      text after the match. */
  lemma ReplaceByFindAt(s: string, pat: string, rep: string, k: nat, t: string)
    requires |pat| > 0 && Find(s, pat) == Some(k) && t == s[k + |pat|..]
    ensures ReplaceByFind(s, pat, rep) == s[..k] + rep + ReplaceByFind(t, pat, rep)
  {
  }

  /** `ReplaceByFind` copies one character that does not start a match. */
  lemma ReplaceByFindStep(s: string, pat: string, rep: string)
    requires |pat| > 0 && s != [] && !(pat <= s)
    ensures ReplaceByFind(s, pat, rep) == [s[0]] + ReplaceByFind(s[1..], pat, rep)
  {
    match Find(s[1..], pat)
    case None =>
      assert Find(s, pat) == None;
      assert [s[0]] + s[1..] == s;
    case Some(k) =>
      assert Find(s, pat) == Some(k + 1);
      var t := s[k + 1 + |pat|..];
      assert s[1..][k + |pat|..] == t;
      calc {
        [s[0]] + ReplaceByFind(s[1..], pat, rep);
        { ReplaceByFindAt(s[1..], pat, rep, k, t); }
        [s[0]] + (s[1..][..k] + rep + ReplaceByFind(t, pat, rep));
        { assert [s[0]] + s[1..][..k] == s[..k + 1]; }
        s[..k + 1] + rep + ReplaceByFind(t, pat, rep);
        { ReplaceByFindAt(s, pat, rep, k + 1, t); }
        ReplaceByFind(s, pat, rep);
      }
  }

  /** The scan and the find-based definition agree on every input. */
  lemma {:induction false} ReplaceAllIsReplaceByFind(s: string, pat: string, rep: string)
    requires |pat| > 0
    ensures ReplaceAll(s, pat, rep) == ReplaceByFind(s, pat, rep)
    decreases |s|
  {
    if pat <= s {
      assert s[0..] == s;
      ReplaceAllIsReplaceByFind(s[|pat|..], pat, rep);
    } else if s != [] {
      ReplaceAllIsReplaceByFind(s[1..], pat, rep);
      ReplaceByFindStep(s, pat, rep);
    }
  }

  /** A string with no occurrence of `pat` comes back unchanged. */
  lemma {:induction false} ReplaceAllAbsent(s: string, pat: string, rep: string)
    requires |pat| > 0 && !Contains(s, pat)
    ensures ReplaceAll(s, pat, rep) == s
    decreases |s|
  {
    assert s[0..] == s && !OccursAt(s, pat, 0);
    if s != [] {
      forall j: nat | j <= |s[1..]| ensures !OccursAt(s[1..], pat, j) {
        assert !OccursAt(s, pat, j + 1);
        assert s[1..][j..] == s[j + 1..];
      }
      ReplaceAllAbsent(s[1..], pat, rep);
    }
  }

  /** A prefix `w` of the result that shares no character with a non-empty
      `rep` was copied from the input. */
  lemma {:induction false} PrefixComesFromInput(t: string, pat: string, rep: string, w: string)
    requires |pat| > 0 && |rep| > 0 && Disjoint(w, rep)
    requires w <= ReplaceAll(t, pat, rep)
    ensures w <= t
    decreases |t|
  {
    if w != [] {
      if pat <= t {
        DisjointAt(w, rep, 0, 0);
        assert false;
      } else if t != [] {
        assert Disjoint(w[1..], rep) by {
          forall c | c in w[1..] ensures c in w { }
        }
        PrefixComesFromInput(t[1..], pat, rep, w[1..]);
      }
    }
  }

  /** An occurrence in a suffix is an occurrence in the whole string. */
  lemma ContainsSuffix(s: string, k: nat, w: string)
    requires k <= |s| && Contains(s[k..], w)
    ensures Contains(s, w)
  {
    var j: nat :| j <= |s[k..]| && OccursAt(s[k..], w, j);
    OccursAtConcat(s[..k], s[k..], w, k + j);
    assert s[..k] + s[k..] == s;
    assert OccursAt(s, w, k + j);
  }

  /** Replacing `pat` by a non-empty `rep` creates no new occurrence of a
      non-empty `w` that shares no character with `rep`. */
  lemma {:induction false} NoNewOccurrence(s: string, pat: string, rep: string, w: string, i: nat)
    requires |pat| > 0 && |rep| > 0 && |w| > 0 && Disjoint(w, rep)
    requires OccursAt(ReplaceAll(s, pat, rep), w, i)
    ensures Contains(s, w)
    decreases |s|
  {
    if pat <= s {
      var r' := ReplaceAll(s[|pat|..], pat, rep);
      if i < |rep| {
        assert (rep + r')[i..][0] == rep[i];
        DisjointAt(w, rep, 0, i);
        assert false;
      }
      OccursAtConcat(rep, r', w, i);
      NoNewOccurrence(s[|pat|..], pat, rep, w, i - |rep|);
      ContainsSuffix(s, |pat|, w);
    } else if s != [] {
      var r' := ReplaceAll(s[1..], pat, rep);
      if i == 0 {
        NoNewOccurrenceAtFront(s, pat, rep, w);
      } else {
        OccursAtConcat([s[0]], r', w, i);
        NoNewOccurrence(s[1..], pat, rep, w, i - 1);
        ContainsSuffix(s, 1, w);
      }
    }
  }

  /** The front case of `NoNewOccurrence`: the first character is copied and
      the rest of `w` comes from the input by `PrefixComesFromInput`. */
  lemma NoNewOccurrenceAtFront(s: string, pat: string, rep: string, w: string)
    requires |pat| > 0 && |rep| > 0 && |w| > 0 && Disjoint(w, rep)
    requires s != [] && !(pat <= s)
    requires OccursAt(ReplaceAll(s, pat, rep), w, 0)
    ensures OccursAt(s, w, 0)
  {
    var r' := ReplaceAll(s[1..], pat, rep);
    assert ([s[0]] + r')[0..] == [s[0]] + r';
    assert w[1..] <= r';
    assert Disjoint(w[1..], rep) by {
      forall c | c in w[1..] ensures c in w { }
    }
    PrefixComesFromInput(s[1..], pat, rep, w[1..]);
    assert s[0..] == s;
  }

  /** No occurrence of `pat` survives `replace`, when `rep` is non-empty and
      shares no character with `pat`. */
  lemma {:induction false} NoneSurvives(s: string, pat: string, rep: string, i: nat)
    requires |pat| > 0 && |rep| > 0 && Disjoint(pat, rep)
    ensures !OccursAt(ReplaceAll(s, pat, rep), pat, i)
    decreases |s|
  {
    assert pat[0] in pat;
    if pat <= s {
      var r' := ReplaceAll(s[|pat|..], pat, rep);
      if i < |rep| {
        assert (rep + r')[i..][0] == rep[i];
      } else {
        OccursAtConcat(rep, r', pat, i);
        NoneSurvives(s[|pat|..], pat, rep, i - |rep|);
      }
    } else if s != [] {
      if i == 0 {
        NoneSurvivesAtFront(s, pat, rep);
      } else {
        OccursAtConcat([s[0]], ReplaceAll(s[1..], pat, rep), pat, i);
        NoneSurvives(s[1..], pat, rep, i - 1);
      }
    }
  }

  /** The front case of `NoneSurvives`: a copied first character that does
      not start `pat` cannot start it in the result either, because the rest
      of `pat` would have to come from the input. */
  lemma NoneSurvivesAtFront(s: string, pat: string, rep: string)
    requires |pat| > 0 && |rep| > 0 && Disjoint(pat, rep)
    requires s != [] && !(pat <= s)
    ensures !OccursAt(ReplaceAll(s, pat, rep), pat, 0)
  {
    var r' := ReplaceAll(s[1..], pat, rep);
    assert ([s[0]] + r')[0..] == [s[0]] + r';
    if pat[1..] <= r' {
      assert Disjoint(pat[1..], rep) by {
        forall c | c in pat[1..] ensures c in pat { }
      }
      PrefixComesFromInput(s[1..], pat, rep, pat[1..]);
      assert s[0] != pat[0];
    }
  }

  /** The result of `replace` does not contain `pat`. */
  lemma ReplaceAllRemovesAll(s: string, pat: string, rep: string)
    requires |pat| > 0 && |rep| > 0 && Disjoint(pat, rep)
    ensures !Contains(ReplaceAll(s, pat, rep), pat)
  {
    forall i: nat ensures !OccursAt(ReplaceAll(s, pat, rep), pat, i) {
      NoneSurvives(s, pat, rep, i);
    }
  }

  /** A string `w` absent before `replace` is absent after it, when `w`
      shares no character with the non-empty `rep`. */
  lemma ReplaceAllKeepsAbsent(s: string, pat: string, rep: string, w: string)
    requires |pat| > 0 && |rep| > 0 && |w| > 0 && Disjoint(w, rep)
    requires !Contains(s, w)
    ensures !Contains(ReplaceAll(s, pat, rep), w)
  {
    forall i: nat ensures !OccursAt(ReplaceAll(s, pat, rep), w, i) {
      if OccursAt(ReplaceAll(s, pat, rep), w, i) {
        NoNewOccurrence(s, pat, rep, w, i);
        assert false;
      }
    }
  }

  /** Consequently `replace` is idempotent under the same conditions. */
  lemma ReplaceAllIdempotent(s: string, pat: string, rep: string)
    requires |pat| > 0 && |rep| > 0 && Disjoint(pat, rep)
    ensures ReplaceAll(ReplaceAll(s, pat, rep), pat, rep) == ReplaceAll(s, pat, rep)
  {
    ReplaceAllRemovesAll(s, pat, rep);
    ReplaceAllAbsent(ReplaceAll(s, pat, rep), pat, rep);
  }

  lemma ConcatAssoc(x: string, y: string, z: string)
    ensures (x + y) + z == x + (y + z)
  {
  }

  /** A match at the front is replaced and the scan resumes after it. */
  lemma ReplaceAllAtMatch(b: string, pat: string, rep: string)
    requires |pat| > 0
    ensures ReplaceAll(pat + b, pat, rep) == rep + ReplaceAll(b, pat, rep)
  {
    assert (pat + b)[|pat|..] == b;
  }

  /** A character that does not start a match is copied. */
  lemma ReplaceAllAtMiss(c: char, b: string, pat: string, rep: string)
    requires |pat| > 0 && !(pat <= [c] + b)
    ensures ReplaceAll([c] + b, pat, rep) == [c] + ReplaceAll(b, pat, rep)
  {
    assert ([c] + b)[1..] == b;
  }

  /** Text that does not contain the first character of `pat` is copied
      unchanged, whatever follows it. */
  lemma {:induction false} ReplaceAllCopiesFree(a: string, b: string, pat: string, rep: string)
    requires |pat| > 0 && pat[0] !in a
    ensures ReplaceAll(a + b, pat, rep) == a + ReplaceAll(b, pat, rep)
    decreases |a|
  {
    if a != [] {
      var c, a' := a[0], a[1..];
      assert c in a && a == [c] + a';
      ConcatAssoc([c], a', b);
      assert ([c] + (a' + b))[0] == c;
      ReplaceAllAtMiss(c, a' + b, pat, rep);
      assert pat[0] !in a' by {
        forall x | x in a' ensures x in a { }
      }
      ReplaceAllCopiesFree(a', b, pat, rep);
      ConcatAssoc([c], a', ReplaceAll(b, pat, rep));
    } else {
      assert a + b == b;
    }
  }

  /** When no occurrence of `pat` starts before index `n`, the first `n`
      characters are copied and the scan resumes at `n`. */
  lemma {:induction false} CopiesUntilMatch(s: string, pat: string, rep: string, n: nat)
    requires |pat| > 0 && n <= |s|
    requires forall j: nat :: j < n ==> !OccursAt(s, pat, j)
    ensures ReplaceAll(s, pat, rep) == s[..n] + ReplaceAll(s[n..], pat, rep)
    decreases n
  {
    if n == 0 {
      assert s[..0] + ReplaceAll(s[0..], pat, rep) == ReplaceAll(s, pat, rep);
    } else {
      assert s[0..] == s && !OccursAt(s, pat, 0);
      forall j: nat | j < n - 1 ensures !OccursAt(s[1..], pat, j) {
        assert !OccursAt(s, pat, j + 1);
        assert s[1..][j..] == s[j + 1..];
      }
      CopiesUntilMatch(s[1..], pat, rep, n - 1);
      assert s[1..][n - 1..] == s[n..];
      assert [s[0]] + s[1..][..n - 1] == s[..n];
    }
  }

  /** The no-overlap condition of `UntouchedSurvives` carries over to the
      text after the first `d` characters. */
  lemma NoOverlapInSuffix(s: string, pat: string, w: string, i: nat, d: nat)
    requires d <= i && d <= |s|
    requires forall j: nat :: j < i + |w| && i < j + |pat| ==> !OccursAt(s, pat, j)
    ensures forall j: nat :: j < i - d + |w| && i - d < j + |pat| ==> !OccursAt(s[d..], pat, j)
  {
    forall j: nat | j < i - d + |w| && i - d < j + |pat| ensures !OccursAt(s[d..], pat, j) {
      assert !OccursAt(s, pat, j + d);
      if j + d <= |s| {
        assert s[d..][j..] == s[j + d..];
      }
    }
  }

  /** An occurrence in `t` is an occurrence in `p + t`. */
  lemma ContainsAfter(p: string, t: string, w: string)
    requires Contains(t, w)
    ensures Contains(p + t, w)
  {
    var k: nat :| k <= |t| && OccursAt(t, w, k);
    OccursAtConcat(p, t, w, |p| + k);
  }

  /** An occurrence of `w` at index `i` that no occurrence of `pat` overlaps
      is still in the result: the scan copies it. */
  lemma {:induction false} UntouchedSurvives(s: string, pat: string, rep: string, w: string, i: nat)
    requires |pat| > 0 && OccursAt(s, w, i)
    requires forall j: nat :: j < i + |w| && i < j + |pat| ==> !OccursAt(s, pat, j)
    ensures Contains(ReplaceAll(s, pat, rep), w)
    decreases |s|
  {
    if w == [] {
      assert OccursAt(ReplaceAll(s, pat, rep), w, 0);
    } else if pat <= s {
      assert s[0..] == s && OccursAt(s, pat, 0);
      assert |pat| <= i;
      assert s[|pat|..][i - |pat|..] == s[i..];
      NoOverlapInSuffix(s, pat, w, i, |pat|);
      UntouchedSurvives(s[|pat|..], pat, rep, w, i - |pat|);
      ContainsAfter(rep, ReplaceAll(s[|pat|..], pat, rep), w);
    } else if i == 0 {
      CopiesUntilMatch(s, pat, rep, |w|);
      assert s[..|w|] == w;
      assert OccursAt(ReplaceAll(s, pat, rep), w, 0);
    } else {
      assert s[1..][i - 1..] == s[i..];
      NoOverlapInSuffix(s, pat, w, i, 1);
      UntouchedSurvives(s[1..], pat, rep, w, i - 1);
      ContainsAfter([s[0]], ReplaceAll(s[1..], pat, rep), w);
    }
  }
}
