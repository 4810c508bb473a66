/** Python's `str.find` and `str.replace`, which the enumerated rewriter
    uses, modelled on `seq<char>` with the predicates that specify them,
    plus the model's own `Join`, which puts a separator between parts. */
module Text {

  /** `p` occurs in `s` starting at index `i`. */
  predicate OccursAt(s: string, p: string, i: int)
  {
    0 <= i && i + |p| <= |s| && s[i..i + |p|] == p
  }

  ghost predicate Contains(s: string, p: string)
  {
    exists i :: OccursAt(s, p, i)
  }

  predicate StartsWith(s: string, p: string)
  {
    |p| <= |s| && s[..|p|] == p
  }

  predicate EndsWith(s: string, p: string)
  {
    |p| <= |s| && s[|s| - |p|..] == p
  }

  /** Python `s.find(p)`: the lowest index at which `p` occurs, or -1. */
  function Find(s: string, p: string): (r: int)
    ensures r == -1 <==> !Contains(s, p)
    ensures r != -1 ==> 0 <= r && OccursAt(s, p, r)
    ensures r != -1 ==> forall i :: 0 <= i < r ==> !OccursAt(s, p, i)
  {
    FindFrom(s, p, 0)
  }

  function FindFrom(s: string, p: string, k: nat): (r: int)
    requires k <= |s| + 1
    requires forall i :: 0 <= i < k ==> !OccursAt(s, p, i)
    ensures r == -1 <==> !Contains(s, p)
    ensures r != -1 ==> k <= r && OccursAt(s, p, r)
    ensures r != -1 ==> forall i :: 0 <= i < r ==> !OccursAt(s, p, i)
    decreases |s| + 1 - k
  {
    if k + |p| > |s| then
      assert forall i :: k <= i ==> !OccursAt(s, p, i);
      -1
    else if s[k..k + |p|] == p then
      assert OccursAt(s, p, k);
      k
    else FindFrom(s, p, k + 1)
  }

  /** Python `s.replace(pat, rep)` for a non-empty `pat`: every occurrence,
      scanned left to right without overlap, is replaced. */
  function ReplaceAll(s: string, pat: string, rep: string): string
    requires |pat| > 0
  {
    ReplaceFrom(s, pat, rep, 0)
  }

  /** The replacement of the text from position `i` on. */
  function ReplaceFrom(s: string, pat: string, rep: string, i: nat): string
    requires |pat| > 0 && i <= |s|
    decreases |s| - i
  {
    if i == |s| then []
    else if OccursAt(s, pat, i) then rep + ReplaceFrom(s, pat, rep, i + |pat|)
    else [s[i]] + ReplaceFrom(s, pat, rep, i + 1)
  }

  /** Text where `pat` does not start is copied as it is. */
  lemma {:induction false} ReplaceSkip(s: string, pat: string, rep: string, i: nat, k: nat)
    requires |pat| > 0 && i <= k <= |s|
    requires forall j :: i <= j < k ==> !OccursAt(s, pat, j)
    ensures ReplaceFrom(s, pat, rep, i) == s[i..k] + ReplaceFrom(s, pat, rep, k)
    decreases k - i
  {
    if i < k {
      assert !OccursAt(s, pat, i);
      var tail := ReplaceFrom(s, pat, rep, k);
      calc {
        ReplaceFrom(s, pat, rep, i);
        [s[i]] + ReplaceFrom(s, pat, rep, i + 1);
        { ReplaceSkip(s, pat, rep, i + 1, k); }
        [s[i]] + (s[i + 1..k] + tail);
        { assert [s[i]] + s[i + 1..k] == s[i..k]; }
        s[i..k] + tail;
      }
    }
  }

  /** The text before the first occurrence of `pat` is kept, that occurrence
      becomes `rep`, and replacing goes on after it: this is why every
      occurrence, not only the first, is replaced. */
  lemma ReplaceAllAtFirst(s: string, pat: string, rep: string, i: nat)
    requires |pat| > 0
    requires OccursAt(s, pat, i)
    requires forall j :: 0 <= j < i ==> !OccursAt(s, pat, j)
    ensures ReplaceAll(s, pat, rep) == s[..i] + rep + ReplaceFrom(s, pat, rep, i + |pat|)
  {
    ReplaceSkip(s, pat, rep, 0, i);
    ReplaceAt(s, pat, rep, i);
    PrefixRegroup(s, i, rep, ReplaceFrom(s, pat, rep, i + |pat|));
  }

  /** At an occurrence, the replacement text is emitted and replacing goes
      on after the occurrence. */
  lemma ReplaceAt(s: string, pat: string, rep: string, i: nat)
    requires |pat| > 0 && OccursAt(s, pat, i)
    ensures ReplaceFrom(s, pat, rep, i) == rep + ReplaceFrom(s, pat, rep, i + |pat|)
  {
  }

  /** Where `pat` does not occur, nothing is replaced. */
  lemma ReplaceAllAbsent(s: string, pat: string, rep: string)
    requires |pat| > 0
    requires !Contains(s, pat)
    ensures ReplaceAll(s, pat, rep) == s
  {
    ReplaceSkip(s, pat, rep, 0, |s|);
    assert s[0..|s|] == s;
  }

  /** After a replacement, the replacement text is present. */
  lemma ReplaceAllInserts(s: string, pat: string, rep: string)
    requires |pat| > 0
    requires Contains(s, pat)
    ensures Contains(ReplaceAll(s, pat, rep), rep)
  {
    var i := Find(s, pat);
    ReplaceAllAtFirst(s, pat, rep, i);
    ContainsMiddle(s[..i], rep, ReplaceFrom(s, pat, rep, i + |pat|));
  }

  /** `a + b` occurs at `i` exactly when `a` does and `b` follows it. */
  lemma OccursSplit(s: string, a: string, b: string, i: int)
    requires OccursAt(s, a + b, i)
    ensures OccursAt(s, a, i) && OccursAt(s, b, i + |a|)
  {
    assert s[i..i + |a|] == s[i..i + |a + b|][..|a|];
    assert s[i + |a|..i + |a| + |b|] == s[i..i + |a + b|][|a|..];
  }

  lemma OccursConcat(s: string, a: string, b: string, i: int)
    requires OccursAt(s, a, i) && OccursAt(s, b, i + |a|)
    ensures OccursAt(s, a + b, i)
  {
    assert s[i..i + |a + b|] == s[i..i + |a|] + s[i + |a|..i + |a| + |b|];
  }

  /** `p` sits between `a` and `b`. */
  lemma ContainsMiddle(a: string, p: string, b: string)
    ensures Contains(a + p + b, p)
  {
    assert (a + p + b)[|a|..|a| + |p|] == p;
    assert OccursAt(a + p + b, p, |a|);
  }

  /** The parts with `sep` between each two: how the model assembles the
      WHERE conjuncts, which the scripts write out inline joined by
      `\nAND `. */
  function Join(parts: seq<string>, sep: string): string
  {
    if |parts| == 0 then ""
    else if |parts| == 1 then parts[0]
    else parts[0] + sep + Join(parts[1..], sep)
  }

  /** Every joined part appears in the joined text. */
  lemma {:induction false} JoinContains(parts: seq<string>, sep: string, k: nat)
    requires k < |parts|
    ensures Contains(Join(parts, sep), parts[k])
  {
    if |parts| == 1 {
      assert OccursAt(Join(parts, sep), parts[k], 0);
    } else if k == 0 {
      assert Join(parts, sep) == parts[0] + (sep + Join(parts[1..], sep));
      ContainsPrefix(parts[0], sep + Join(parts[1..], sep));
    } else {
      JoinContains(parts[1..], sep, k - 1);
      assert Join(parts, sep) == (parts[0] + sep) + Join(parts[1..], sep);
      ContainsSuffix(parts[0] + sep, Join(parts[1..], sep), parts[k]);
    }
  }

  lemma ContainsPrefix(a: string, b: string)
    ensures Contains(a + b, a)
  {
    assert OccursAt(a + b, a, 0) by { assert (a + b)[..|a|] == a; }
  }

  lemma ContainsSuffix(a: string, b: string, p: string)
    requires Contains(b, p)
    ensures Contains(a + b, p)
  {
    var i :| OccursAt(b, p, i);
    assert (a + b)[|a| + i..|a| + i + |p|] == b[i..i + |p|];
    assert OccursAt(a + b, p, |a| + i);
  }

  lemma ContainsInPrefix(a: string, b: string, p: string)
    requires Contains(a, p)
    ensures Contains(a + b, p)
  {
    var i :| OccursAt(a, p, i);
    assert (a + b)[i..i + |p|] == a[i..i + |p|];
    assert OccursAt(a + b, p, i);
  }


  lemma EndsWithConcat(a: string, b: string)
    ensures EndsWith(a + b, b)
  {
    assert (a + b)[|a + b| - |b|..] == b;
  }

  lemma EndsWithExtend(a: string, b: string, p: string)
    requires EndsWith(b, p)
    ensures EndsWith(a + b, p)
  {
    assert (a + b)[|a + b| - |p|..] == b[|b| - |p|..];
  }

  lemma StartsWithPair(a: string, b: string, c: string)
    ensures StartsWith(a + (b + c), a + b)
  {
    assert (a + (b + c))[..|a + b|] == a + b;
  }

  lemma ContainsTransitive(a: string, b: string, c: string)
    requires Contains(a, b) && Contains(b, c)
    ensures Contains(a, c)
  {
    var i :| OccursAt(a, b, i);
    var j :| OccursAt(b, c, j);
    assert forall k :: 0 <= k < |b| ==> a[i + k] == b[k] by {
      forall k | 0 <= k < |b| ensures a[i + k] == b[k] {
        assert a[i..i + |b|][k] == b[k];
      }
    }
    assert forall k :: 0 <= k < |c| ==> b[j + k] == c[k] by {
      forall k | 0 <= k < |c| ensures b[j + k] == c[k] {
        assert b[j..j + |c|][k] == c[k];
      }
    }
    assert a[i + j..i + j + |c|] == c;
    assert OccursAt(a, c, i + j);
  }

  lemma PrefixRegroup(s: string, i: nat, b: string, c: string)
    requires i <= |s|
    ensures s[0..i] + (b + c) == s[..i] + b + c
  {
  }
}
