/** A fixed-shape matcher standing in for the regular expressions of the
    pattern-based rewriter. A pattern is a list of segments: literal text, or
    a field, which is a non-empty run of characters of one class followed by
    a literal stop text. The matcher takes each field's shortest run that the
    stop follows and does not backtrack. */
module Matcher {
  import opened Text

  datatype Option<T> = None | Some(value: T)

  /** `\d` (ASCII digits) or a negated one-character class such as `[^']`. */
  datatype CharClass = Digit | NotChar(c: char)

  predicate InClass(cls: CharClass, c: char)
  {
    match cls
    case Digit => '0' <= c <= '9'
    case NotChar(x) => c != x
  }

  predicate AllIn(cls: CharClass, s: string)
  {
    forall i {:trigger InClass(cls, s[i])} :: 0 <= i < |s| ==> InClass(cls, s[i])
  }

  datatype Segment = Lit(text: string) | Field(cls: CharClass, stop: string)

  function FieldCount(pat: seq<Segment>): nat
  {
    if pat == [] then 0
    else (if pat[0].Field? then 1 else 0) + FieldCount(pat[1..])
  }

  /** `caps` are possible contents of the fields of `pat`, in order. */
  predicate Fits(pat: seq<Segment>, caps: seq<string>)
  {
    if pat == [] then caps == []
    else match pat[0]
      case Lit(_) => Fits(pat[1..], caps)
      case Field(cls, _) =>
        |caps| > 0 && |caps[0]| > 0 && AllIn(cls, caps[0]) && Fits(pat[1..], caps[1..])
  }

  /** The text the pattern stands for once its fields are filled in. */
  function Instantiate(pat: seq<Segment>, caps: seq<string>): string
    requires Fits(pat, caps)
  {
    if pat == [] then ""
    else match pat[0]
      case Lit(t) => t + Instantiate(pat[1..], caps)
      case Field(_, stop) => caps[0] + (stop + Instantiate(pat[1..], caps[1..]))
  }

  /** The end of the shortest run of `cls` characters starting at `i`,
      ending at `e` or later, that `stop` follows. The characters from `i`
      up to `e - 1` are known to be in the class already. */
  function RunFrom(s: string, i: nat, cls: CharClass, stop: string, e: nat): (r: Option<nat>)
    requires i < e <= |s| + 1 && AllIn(cls, s[i..e - 1])
    ensures r.Some? ==> e <= r.value <= |s| && OccursAt(s, stop, r.value)
    ensures r.Some? ==> AllIn(cls, s[i..r.value])
    decreases |s| + 1 - e
  {
    if e > |s| || !InClass(cls, s[e - 1]) then None
    else
      AllInExtend(s, i, cls, e);
      if OccursAt(s, stop, e) then Some(e)
      else RunFrom(s, i, cls, stop, e + 1)
  }

  lemma AllInExtend(s: string, i: nat, cls: CharClass, e: nat)
    requires i < e <= |s| && AllIn(cls, s[i..e - 1]) && InClass(cls, s[e - 1])
    ensures AllIn(cls, s[i..e])
  {
    assert s[i..e] == s[i..e - 1] + [s[e - 1]];
  }

  /** A successful match: the position where it ends and what the fields
      hold. */
  datatype Hit = Hit(end: nat, caps: seq<string>)

  /** Matches `pat` at position `i` of `s`. */
  function MatchAt(s: string, i: nat, pat: seq<Segment>): (r: Option<Hit>)
    requires i <= |s|
    ensures r.Some? ==> i <= r.value.end <= |s|
    decreases |pat|
  {
    if pat == [] then Some(Hit(i, []))
    else if pat[0].Lit? then
      if !OccursAt(s, pat[0].text, i) then None
      else MatchAt(s, i + |pat[0].text|, pat[1..])
    else
      var run := RunFrom(s, i, pat[0].cls, pat[0].stop, i + 1);
      if run.None? then None
      else WithField(s[i..run.value], MatchAt(s, run.value + |pat[0].stop|, pat[1..]))
  }

  /** The match `r` of the rest, with `c` as the first field in front. */
  function WithField(c: string, r: Option<Hit>): Option<Hit>
  {
    if r.None? then None else Some(Hit(r.value.end, [c] + r.value.caps))
  }

  /** `pat`, its fields filled by `caps`, lies in `s` from `i` up to `end`:
      each literal and each stop occurs in turn, and each field's text is a
      non-empty run of its class. */
  predicate Laid(s: string, i: int, pat: seq<Segment>, caps: seq<string>, end: int)
    decreases |pat|
  {
    if pat == [] then caps == [] && end == i && 0 <= i <= |s|
    else if pat[0].Lit? then
      OccursAt(s, pat[0].text, i) && Laid(s, i + |pat[0].text|, pat[1..], caps, end)
    else
      |caps| > 0 && |caps[0]| > 0 && AllIn(pat[0].cls, caps[0])
      && OccursAt(s, caps[0], i) && OccursAt(s, pat[0].stop, i + |caps[0]|)
      && Laid(s, i + |caps[0]| + |pat[0].stop|, pat[1..], caps[1..], end)
  }

  /** A pattern that starts with literal text found at `i` matches where the
      rest matches after it. */
  lemma UnfoldLit(s: string, i: nat, pat: seq<Segment>)
    requires |pat| > 0 && pat[0].Lit? && i <= |s| && OccursAt(s, pat[0].text, i)
    ensures MatchAt(s, i, pat) == MatchAt(s, i + |pat[0].text|, pat[1..])
  {
  }

  /** A pattern that starts with a field whose run ends at `e` matches where
      the rest matches after the stop, with the run as the first field. */
  lemma UnfoldField(s: string, i: nat, e: nat, pat: seq<Segment>, h: Hit)
    requires |pat| > 0 && pat[0].Field? && i <= |s|
    requires RunFrom(s, i, pat[0].cls, pat[0].stop, i + 1) == Some(e)
    requires MatchAt(s, e + |pat[0].stop|, pat[1..]) == Some(h)
    ensures MatchAt(s, i, pat) == Some(Hit(h.end, [s[i..e]] + h.caps))
  {
  }

  /** What the matcher finds is laid out in the text as the pattern says. */
  lemma {:induction false} MatchLaid(s: string, i: nat, pat: seq<Segment>)
    requires i <= |s| && MatchAt(s, i, pat).Some?
    ensures Laid(s, i, pat, MatchAt(s, i, pat).value.caps, MatchAt(s, i, pat).value.end)
    decreases |pat|
  {
    if pat != [] {
      if pat[0].Lit? {
        UnfoldLit(s, i, pat);
        MatchLaid(s, i + |pat[0].text|, pat[1..]);
      } else {
        var e := RunFrom(s, i, pat[0].cls, pat[0].stop, i + 1).value;
        MatchLaid(s, e + |pat[0].stop|, pat[1..]);
        MatchLaidField(s, i, e, pat);
      }
    }
  }

  lemma MatchLaidField(s: string, i: nat, e: nat, pat: seq<Segment>)
    requires |pat| > 0 && pat[0].Field? && i <= |s|
    requires RunFrom(s, i, pat[0].cls, pat[0].stop, i + 1) == Some(e)
    requires MatchAt(s, e + |pat[0].stop|, pat[1..]).Some?
    requires Laid(s, e + |pat[0].stop|, pat[1..], MatchAt(s, e + |pat[0].stop|, pat[1..]).value.caps,
                  MatchAt(s, e + |pat[0].stop|, pat[1..]).value.end)
    ensures MatchAt(s, i, pat).Some?
    ensures Laid(s, i, pat, MatchAt(s, i, pat).value.caps, MatchAt(s, i, pat).value.end)
  {
    var h := MatchAt(s, e + |pat[0].stop|, pat[1..]).value;
    UnfoldField(s, i, e, pat, h);
    var caps := [s[i..e]] + h.caps;
    assert caps[0] == s[i..e] && caps[1..] == h.caps;
    assert OccursAt(s, s[i..e], i);
  }

  /** A field is separable when its stop text starts with a character the
      field cannot hold: the run then ends exactly where the stop begins. */
  predicate Separable(pat: seq<Segment>)
  {
    pat == []
    || ((pat[0].Lit? || (|pat[0].stop| > 0 && !InClass(pat[0].cls, pat[0].stop[0])))
        && Separable(pat[1..]))
  }

  /** The stop text holds a character outside the class somewhere: a run of
      the class cannot reach past it. */
  predicate Blocks(cls: CharClass, stop: string)
  {
    exists k :: 0 <= k < |stop| && !InClass(cls, stop[k])
  }

  /** Every field of `pat` has a stop that blocks its run. */
  predicate Blocked(pat: seq<Segment>)
  {
    pat == []
    || ((pat[0].Lit? || Blocks(pat[0].cls, pat[0].stop)) && Blocked(pat[1..]))
  }

  /** A separable pattern is blocked: its stops block at their first
      character. */
  lemma {:induction false} SeparableBlocked(pat: seq<Segment>)
    requires Separable(pat)
    ensures Blocked(pat)
    decreases |pat|
  {
    if pat != [] {
      if pat[0].Field? {
        assert !InClass(pat[0].cls, pat[0].stop[0]);
      }
      SeparableBlocked(pat[1..]);
    }
  }

  /** Filled in with `caps`, every field of `pat` is found exactly by the
      shortest-run search: either its stop blocks the run, or its text is a
      single character, the shortest run. */
  predicate Unambiguous(pat: seq<Segment>, caps: seq<string>)
    decreases |pat|
  {
    if pat == [] then true
    else if pat[0].Lit? then Unambiguous(pat[1..], caps)
    else
      && |caps| > 0
      && (|caps[0]| == 1 || Blocks(pat[0].cls, pat[0].stop))
      && Unambiguous(pat[1..], caps[1..])
  }

  /** A blocked pattern is unambiguous for every filling that fits it. */
  lemma {:induction false} BlockedUnambiguous(pat: seq<Segment>, caps: seq<string>)
    requires Blocked(pat) && Fits(pat, caps)
    ensures Unambiguous(pat, caps)
    decreases |pat|
  {
    if pat != [] {
      if pat[0].Lit? {
        BlockedUnambiguous(pat[1..], caps);
      } else {
        BlockedUnambiguous(pat[1..], caps[1..]);
      }
    }
  }

  /** A stop that blocks has a first character outside the class. */
  lemma {:induction false} FirstOutside(cls: CharClass, stop: string, j: nat)
    requires j < |stop| && !InClass(cls, stop[j])
    ensures exists k :: 0 <= k < |stop| && !InClass(cls, stop[k]) && AllIn(cls, stop[..k])
    decreases j
  {
    if !AllIn(cls, stop[..j]) {
      var m :| 0 <= m < j && !InClass(cls, stop[..j][m]);
      assert stop[..j][m] == stop[m];
      FirstOutside(cls, stop, m);
    }
  }

  /** On a run of class characters followed by a stop whose first character
      outside the class is at `k`, the search stops exactly at the end of
      the run: an earlier start of the stop would put that character inside
      the run or on a class character of the stop. */
  lemma {:induction false} RunExact(s: string, i: nat, cls: CharClass, stop: string, k: nat, n: nat, e: nat)
    requires i < e <= i + n <= |s|
    requires AllIn(cls, s[i..i + n]) && AllIn(cls, s[i..e - 1])
    requires OccursAt(s, stop, i + n)
    requires k < |stop| && !InClass(cls, stop[k]) && AllIn(cls, stop[..k])
    ensures RunFrom(s, i, cls, stop, e) == Some(i + n)
    decreases i + n - e
  {
    assert InClass(cls, s[e - 1]) by {
      assert s[e - 1] == s[i..i + n][e - 1 - i];
    }
    if e < i + n {
      assert InClass(cls, s[e]) by {
        assert s[e] == s[i..i + n][e - i];
      }
      assert !OccursAt(s, stop, e) by {
        if e + |stop| <= |s| {
          assert s[e..e + |stop|][k] == s[e + k];
          if e + k < i + n {
            assert InClass(cls, s[e + k]) by {
              assert s[e + k] == s[i..i + n][e + k - i];
            }
          } else {
            var j := e + k - (i + n);
            assert s[e + k] == s[i + n..i + n + |stop|][j];
            assert InClass(cls, stop[..k][j]);
          }
        }
      }
      AllInExtend(s, i, cls, e);
      RunExact(s, i, cls, stop, k, n, e + 1);
    }
  }

  /** The field's run found at `i` is exactly the filled-in text `c`. */
  lemma RunAtField(s: string, i: nat, pat: seq<Segment>, c: string)
    requires |pat| > 0 && pat[0].Field?
    requires |c| == 1 || Blocks(pat[0].cls, pat[0].stop)
    requires |c| > 0 && AllIn(pat[0].cls, c)
    requires OccursAt(s, c, i) && OccursAt(s, pat[0].stop, i + |c|)
    ensures RunFrom(s, i, pat[0].cls, pat[0].stop, i + 1) == Some(i + |c|)
  {
    assert s[i..i + |c|] == c;
    if |c| == 1 {
      assert s[i] == c[0] && InClass(pat[0].cls, c[0]);
      assert s[i..i] == [];
    } else {
      var j :| 0 <= j < |pat[0].stop| && !InClass(pat[0].cls, pat[0].stop[j]);
      FirstOutside(pat[0].cls, pat[0].stop, j);
      var k :| 0 <= k < |pat[0].stop| && !InClass(pat[0].cls, pat[0].stop[k]) && AllIn(pat[0].cls, pat[0].stop[..k]);
      RunExact(s, i, pat[0].cls, pat[0].stop, k, |c|, i + 1);
    }
  }

  /** Completeness: wherever an unambiguously filled pattern lies in the
      text, the matcher finds it there, with the same fields. */
  lemma {:induction false} LaidMatch(s: string, i: nat, pat: seq<Segment>, caps: seq<string>, end: nat)
    requires Unambiguous(pat, caps) && i <= |s| && Laid(s, i, pat, caps, end)
    ensures MatchAt(s, i, pat) == Some(Hit(end, caps))
    decreases |pat|
  {
    if pat != [] {
      if pat[0].Lit? {
        var next := i + |pat[0].text|;
        assert Unambiguous(pat[1..], caps) && Laid(s, next, pat[1..], caps, end);
        LaidMatch(s, next, pat[1..], caps, end);
        UnfoldLit(s, i, pat);
      } else {
        var next := i + |caps[0]| + |pat[0].stop|;
        assert Unambiguous(pat[1..], caps[1..]) && Laid(s, next, pat[1..], caps[1..], end);
        LaidMatch(s, next, pat[1..], caps[1..], end);
        LaidMatchField(s, i, pat, caps, end);
      }
    }
  }

  lemma LaidMatchField(s: string, i: nat, pat: seq<Segment>, caps: seq<string>, end: nat)
    requires |pat| > 0 && pat[0].Field? && Unambiguous(pat, caps) && i <= |s| && Laid(s, i, pat, caps, end)
    requires MatchAt(s, i + |caps[0]| + |pat[0].stop|, pat[1..]) == Some(Hit(end, caps[1..]))
    ensures MatchAt(s, i, pat) == Some(Hit(end, caps))
  {
    var c := caps[0];
    RunAtField(s, i, pat, c);
    UnfoldField(s, i, i + |c|, pat, Hit(end, caps[1..]));
    assert s[i..i + |c|] == c;
    assert [c] + caps[1..] == caps;
  }

  /** The instantiation of a pattern that starts with literal text. */
  lemma InstantiateLit(pat: seq<Segment>, caps: seq<string>)
    requires |pat| > 0 && pat[0].Lit? && Fits(pat, caps)
    ensures Fits(pat[1..], caps)
    ensures Instantiate(pat, caps) == pat[0].text + Instantiate(pat[1..], caps)
  {
  }

  /** The instantiation of a pattern that starts with a field. */
  lemma InstantiateField(pat: seq<Segment>, caps: seq<string>)
    requires |pat| > 0 && pat[0].Field? && Fits(pat, caps)
    ensures |caps| > 0 && |caps[0]| > 0 && AllIn(pat[0].cls, caps[0]) && Fits(pat[1..], caps[1..])
    ensures Instantiate(pat, caps) == caps[0] + (pat[0].stop + Instantiate(pat[1..], caps[1..]))
  {
  }

  /** A laid-out pattern is its instantiation, occurring where it starts. */
  lemma {:induction false} LaidOccurs(s: string, i: int, pat: seq<Segment>, caps: seq<string>, end: int)
    requires Laid(s, i, pat, caps, end)
    ensures Fits(pat, caps) && end == i + |Instantiate(pat, caps)| && 0 <= i <= end <= |s|
    ensures OccursAt(s, Instantiate(pat, caps), i)
    decreases |pat|
  {
    if pat == [] {
      assert s[i..i] == [];
    } else if pat[0].Lit? {
      var t := pat[0].text;
      LaidOccurs(s, i + |t|, pat[1..], caps, end);
      InstantiateLit(pat, caps);
      OccursConcat(s, t, Instantiate(pat[1..], caps), i);
    } else {
      LaidOccurs(s, i + |caps[0]| + |pat[0].stop|, pat[1..], caps[1..], end);
      LaidOccursField(s, i, pat, caps, end);
    }
  }

  lemma LaidOccursField(s: string, i: int, pat: seq<Segment>, caps: seq<string>, end: int)
    requires |pat| > 0 && pat[0].Field? && Laid(s, i, pat, caps, end)
    requires Fits(pat[1..], caps[1..])
    requires end == i + |caps[0]| + |pat[0].stop| + |Instantiate(pat[1..], caps[1..])|
    requires OccursAt(s, Instantiate(pat[1..], caps[1..]), i + |caps[0]| + |pat[0].stop|)
    ensures Fits(pat, caps) && end == i + |Instantiate(pat, caps)|
    ensures OccursAt(s, Instantiate(pat, caps), i)
  {
    var c, stop := caps[0], pat[0].stop;
    var tail := Instantiate(pat[1..], caps[1..]);
    FieldFill(pat, c, caps[1..]);
    assert [c] + caps[1..] == caps;
    OccursConcat(s, stop, tail, i + |c|);
    OccursConcat(s, c, stop + tail, i);
  }

  /** Filling a field with `c` puts `c` and the stop before the rest. */
  lemma FieldFill(pat: seq<Segment>, c: string, caps: seq<string>)
    requires |pat| > 0 && pat[0].Field? && |c| > 0 && AllIn(pat[0].cls, c)
    requires Fits(pat[1..], caps)
    ensures Fits(pat, [c] + caps)
    ensures Instantiate(pat, [c] + caps) == c + (pat[0].stop + Instantiate(pat[1..], caps))
  {
    assert ([c] + caps)[0] == c && ([c] + caps)[1..] == caps;
  }

  /** Where the instantiation of a pattern occurs, the pattern lies. */
  lemma {:induction false} OccursLaid(s: string, i: int, pat: seq<Segment>, caps: seq<string>)
    requires Fits(pat, caps) && OccursAt(s, Instantiate(pat, caps), i)
    ensures Laid(s, i, pat, caps, i + |Instantiate(pat, caps)|)
    decreases |pat|
  {
    if pat == [] {
    } else if pat[0].Lit? {
      OccursLaidLit(s, i, pat, caps);
      OccursLaid(s, i + |pat[0].text|, pat[1..], caps);
      LaidLit(s, i, pat, caps, i + |Instantiate(pat, caps)|);
    } else {
      OccursLaidField(s, i, pat, caps);
      OccursLaid(s, i + |caps[0]| + |pat[0].stop|, pat[1..], caps[1..]);
      LaidField(s, i, pat, caps, i + |Instantiate(pat, caps)|);
    }
  }

  lemma LaidLit(s: string, i: int, pat: seq<Segment>, caps: seq<string>, end: int)
    requires |pat| > 0 && pat[0].Lit? && OccursAt(s, pat[0].text, i)
    requires Laid(s, i + |pat[0].text|, pat[1..], caps, end)
    ensures Laid(s, i, pat, caps, end)
  {
  }

  lemma LaidField(s: string, i: int, pat: seq<Segment>, caps: seq<string>, end: int)
    requires |pat| > 0 && pat[0].Field? && |caps| > 0 && |caps[0]| > 0 && AllIn(pat[0].cls, caps[0])
    requires OccursAt(s, caps[0], i) && OccursAt(s, pat[0].stop, i + |caps[0]|)
    requires Laid(s, i + |caps[0]| + |pat[0].stop|, pat[1..], caps[1..], end)
    ensures Laid(s, i, pat, caps, end)
  {
  }

  lemma OccursLaidLit(s: string, i: int, pat: seq<Segment>, caps: seq<string>)
    requires |pat| > 0 && pat[0].Lit? && Fits(pat, caps) && OccursAt(s, Instantiate(pat, caps), i)
    ensures Fits(pat[1..], caps) && OccursAt(s, pat[0].text, i)
    ensures OccursAt(s, Instantiate(pat[1..], caps), i + |pat[0].text|)
    ensures |Instantiate(pat, caps)| == |pat[0].text| + |Instantiate(pat[1..], caps)|
  {
    InstantiateLit(pat, caps);
    OccursSplit(s, pat[0].text, Instantiate(pat[1..], caps), i);
  }

  lemma OccursLaidField(s: string, i: int, pat: seq<Segment>, caps: seq<string>)
    requires |pat| > 0 && pat[0].Field? && Fits(pat, caps) && OccursAt(s, Instantiate(pat, caps), i)
    ensures |caps| > 0 && |caps[0]| > 0 && AllIn(pat[0].cls, caps[0]) && Fits(pat[1..], caps[1..])
    ensures OccursAt(s, caps[0], i) && OccursAt(s, pat[0].stop, i + |caps[0]|)
    ensures OccursAt(s, Instantiate(pat[1..], caps[1..]), i + |caps[0]| + |pat[0].stop|)
    ensures |Instantiate(pat, caps)| == |caps[0]| + |pat[0].stop| + |Instantiate(pat[1..], caps[1..])|
  {
    var c, stop := caps[0], pat[0].stop;
    InstantiateField(pat, caps);
    var tail := Instantiate(pat[1..], caps[1..]);
    OccursSplit(s, c, stop + tail, i);
    OccursSplit(s, stop, tail, i + |c|);
  }

  /** Soundness: a match fills every field with text of its class, and the
      matched text is the pattern with those fields filled in. */
  lemma MatchSound(s: string, i: nat, pat: seq<Segment>)
    requires i <= |s| && MatchAt(s, i, pat).Some?
    ensures Fits(pat, MatchAt(s, i, pat).value.caps)
    ensures OccursAt(s, Instantiate(pat, MatchAt(s, i, pat).value.caps), i)
    ensures MatchAt(s, i, pat).value.end == i + |Instantiate(pat, MatchAt(s, i, pat).value.caps)|
  {
    var h := MatchAt(s, i, pat).value;
    MatchLaid(s, i, pat);
    LaidOccurs(s, i, pat, h.caps, h.end);
  }

  /** Round trip: wherever the instantiation of a pattern occurs, filled in
      unambiguously (every filling of a blocked pattern is), the pattern
      matches there and gives back the fields that were filled in, whatever
      text surrounds it. */
  lemma MatchInstantiate(s: string, i: nat, pat: seq<Segment>, caps: seq<string>)
    requires Unambiguous(pat, caps) && Fits(pat, caps)
    requires OccursAt(s, Instantiate(pat, caps), i)
    ensures MatchAt(s, i, pat) == Some(Hit(i + |Instantiate(pat, caps)|, caps))
  {
    OccursLaid(s, i, pat, caps);
    LaidMatch(s, i, pat, caps, i + |Instantiate(pat, caps)|);
  }

  /** A character of the class. */
  function SampleChar(cls: CharClass): (c: char)
    ensures InClass(cls, c)
  {
    match cls
    case Digit => '0'
    case NotChar(x) => if x == 'x' then 'y' else 'x'
  }

  /** One character of its class for every field of `pat`: a filling that
      fits the pattern and that the matcher finds exactly. */
  function SampleCaps(pat: seq<Segment>): (caps: seq<string>)
    ensures Fits(pat, caps) && Unambiguous(pat, caps)
    decreases |pat|
  {
    if pat == [] then []
    else if pat[0].Lit? then SampleCaps(pat[1..])
    else
      var c := [SampleChar(pat[0].cls)];
      assert AllIn(pat[0].cls, c);
      var caps := [c] + SampleCaps(pat[1..]);
      assert caps[0] == c && caps[1..] == SampleCaps(pat[1..]);
      caps
  }

  /** The text `pat` stands for with its sample filling. */
  function Sample(pat: seq<Segment>): string
  {
    Instantiate(pat, SampleCaps(pat))
  }

  /** A match of a pattern that starts with literal text begins with that
      text and ends after it. */
  lemma MatchPastLit(s: string, i: nat, pat: seq<Segment>)
    requires |pat| > 0 && pat[0].Lit? && i <= |s| && MatchAt(s, i, pat).Some?
    ensures OccursAt(s, pat[0].text, i) && i + |pat[0].text| <= MatchAt(s, i, pat).value.end
  {
  }

  /** A match of a separable pattern depends only on the text it took up:
      wherever that text occurs again, the pattern matches there with the
      same fields. */
  lemma MatchElsewhere(s: string, i: nat, pat: seq<Segment>, t: string, j: nat)
    requires Separable(pat) && i <= |s| && MatchAt(s, i, pat).Some?
    requires OccursAt(t, s[i..MatchAt(s, i, pat).value.end], j)
    ensures MatchAt(t, j, pat) == Some(Hit(j + (MatchAt(s, i, pat).value.end - i), MatchAt(s, i, pat).value.caps))
  {
    var h := MatchAt(s, i, pat).value;
    MatchSound(s, i, pat);
    assert s[i..h.end] == Instantiate(pat, h.caps);
    SeparableBlocked(pat);
    BlockedUnambiguous(pat, h.caps);
    MatchInstantiate(t, j, pat, h.caps);
  }

  /** A separable pattern that matches the whole of `c` matches, with the
      same fields, wherever `c` occurs. */
  lemma MatchWhole(c: string, pat: seq<Segment>, t: string, j: nat)
    requires Separable(pat) && MatchAt(c, 0, pat).Some? && MatchAt(c, 0, pat).value.end == |c|
    requires OccursAt(t, c, j)
    ensures MatchAt(t, j, pat) == Some(Hit(j + |c|, MatchAt(c, 0, pat).value.caps))
  {
    assert c[0..|c|] == c;
    MatchElsewhere(c, 0, pat, t, j);
  }

  // ---------------------------------------------------------------------
  // Searching
  // ---------------------------------------------------------------------

  /** `re.search` from position `i` on: the match at the leftmost position
      where the pattern matches. */
  function Search(s: string, i: nat, pat: seq<Segment>): (r: Option<Hit>)
    requires i <= |s|
    ensures r.Some? ==> Fits(pat, r.value.caps)
    decreases |s| - i
  {
    var m := MatchAt(s, i, pat);
    if m.Some? then
      MatchSound(s, i, pat);
      m
    else if i == |s| then None
    else Search(s, i + 1, pat)
  }

  /** The search fails exactly when the pattern matches at no position. */
  lemma {:induction false} SearchNone(s: string, i: nat, pat: seq<Segment>)
    requires i <= |s|
    ensures Search(s, i, pat).None? ==> forall j :: i <= j <= |s| ==> MatchAt(s, j, pat).None?
    ensures (forall j :: i <= j <= |s| ==> MatchAt(s, j, pat).None?) ==> Search(s, i, pat).None?
    decreases |s| - i
  {
    if MatchAt(s, i, pat).None? && i < |s| {
      SearchNone(s, i + 1, pat);
    }
  }

  /** The search returns the match at the first position where the pattern
      matches. */
  lemma {:induction false} SearchFirst(s: string, i: nat, k: nat, pat: seq<Segment>)
    requires i <= k <= |s| && MatchAt(s, k, pat).Some?
    requires forall j :: i <= j < k ==> MatchAt(s, j, pat).None?
    ensures Search(s, i, pat) == MatchAt(s, k, pat)
    decreases k - i
  {
    if i < k {
      SearchFirst(s, i + 1, k, pat);
    }
  }
}
