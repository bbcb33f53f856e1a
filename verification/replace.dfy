/**
 Python's `str.replace(old, new)` for a non-empty `old`: every non-overlapping
 occurrence of `old`, found scanning left to right, is replaced by `new`.

 `ReplaceAll` is the scan itself. The independent description is a
 "leftmost split": the input cut into pieces separated by the pattern, where the
 occurrence after each piece is the first one that begins at or after the
 piece's start. Replacing is then joining those pieces with the replacement
 (Python's `new.join(s.split(old))`).
 */
module Replace {

  /** True when `pat` occurs in `s` starting at index `i`. */
  predicate OccursAt(s: string, i: int, pat: string) {
    0 <= i && i + |pat| <= |s| && s[i..i + |pat|] == pat
  }

  /** `s` holds no occurrence of `pat` at all. */
  predicate Free(s: string, pat: string) {
    forall i :: 0 <= i < |s| ==> !OccursAt(s, i, pat)
  }

  /** When `piece` is followed by `pat`, no occurrence of `pat` starts inside
      `piece`: the one right after it is the leftmost. */
  predicate Clean(piece: string, pat: string) {
    forall i :: 0 <= i < |piece| ==> !OccursAt(piece + pat, i, pat)
  }

  /** Python's `sep.join(pieces)`. */
  function Join(pieces: seq<string>, sep: string): string
    decreases |pieces|
  {
    if |pieces| == 0 then []
    else if |pieces| == 1 then pieces[0]
    else pieces[0] + sep + Join(pieces[1..], sep)
  }

  /** `pieces` cut `s` at exactly the occurrences of `pat` a left-to-right,
      non-overlapping scan finds. */
  predicate LeftmostSplit(s: string, pat: string, pieces: seq<string>) {
    && |pieces| > 0
    && s == Join(pieces, pat)
    && Free(pieces[|pieces| - 1], pat)
    && forall k :: 0 <= k < |pieces| - 1 ==> Clean(pieces[k], pat)
  }

  /** The left-to-right replacing scan of `str.replace`. */
  function ReplaceAll(s: string, pat: string, rep: string): (r: string)
    requires |pat| > 0
    ensures Free(s, pat) ==> r == s
    ensures rep == pat ==> r == s
    decreases |s|
  {
    if |s| < |pat| then s
    else if s[..|pat|] == pat then
      assert !Free(s, pat) by { assert OccursAt(s, 0, pat); }
      rep + ReplaceAll(s[|pat|..], pat, rep)
    else
      FreeTail(s, pat);
      [s[0]] + ReplaceAll(s[1..], pat, rep)
  }

  /** Python's `s.split(sep)` for a non-empty separator. */
  function Split(s: string, pat: string): (r: seq<string>)
    requires |pat| > 0
    ensures |r| > 0
    decreases |s|
  {
    if |s| < |pat| then [s]
    else if s[..|pat|] == pat then [[]] + Split(s[|pat|..], pat)
    else
      var t := Split(s[1..], pat);
      [[s[0]] + t[0]] + t[1..]
  }

  /** Dropping the first character shifts every occurrence one place left. */
  lemma ShiftOccurs(c: char, t: string, i: int, pat: string)
    requires 0 <= i
    ensures OccursAt([c] + t, i + 1, pat) <==> OccursAt(t, i, pat)
  {
    if 0 <= i && i + |pat| <= |t| {
      assert ([c] + t)[i + 1..i + 1 + |pat|] == t[i..i + |pat|];
    }
  }

  /** A suffix of an occurrence-free string is occurrence-free. */
  lemma FreeTail(s: string, pat: string)
    requires |s| > 0
    ensures Free(s, pat) ==> Free(s[1..], pat)
  {
    if Free(s, pat) {
      assert s == [s[0]] + s[1..];
      forall i | 0 <= i < |s[1..]|
        ensures !OccursAt(s[1..], i, pat)
      {
        ShiftOccurs(s[0], s[1..], i, pat);
        assert !OccursAt(s, i + 1, pat);
      }
    }
  }

  /** Clean pieces stay clean when their first character is dropped. */
  lemma CleanTail(p: string, pat: string)
    requires |p| > 0 && Clean(p, pat)
    ensures Clean(p[1..], pat)
  {
    assert p + pat == [p[0]] + (p[1..] + pat);
    forall i | 0 <= i < |p[1..]|
      ensures !OccursAt(p[1..] + pat, i, pat)
    {
      ShiftOccurs(p[0], p[1..] + pat, i, pat);
    }
  }

  /** A non-empty clean piece does not start with the pattern, whatever follows it. */
  lemma CleanNotAtStart(p: string, pat: string, rest: string)
    requires |p| > 0 && Clean(p, pat)
    ensures |p + pat + rest| >= |pat| && (p + pat + rest)[..|pat|] != pat
  {
    assert !OccursAt(p + pat, 0, pat);
    assert (p + pat)[..|pat|] == (p + pat + rest)[..|pat|];
  }

  /** The scan copies a clean piece, then replaces the occurrence after it. */
  lemma {:induction false} ReplaceAfterClean(p: string, pat: string, rest: string, rep: string)
    requires |pat| > 0 && Clean(p, pat)
    ensures ReplaceAll(p + pat + rest, pat, rep) == p + rep + ReplaceAll(rest, pat, rep)
    decreases |p|
  {
    var s := p + pat + rest;
    if |p| == 0 {
      assert s == pat + rest;
      assert s[..|pat|] == pat && s[|pat|..] == rest;
    } else {
      CleanNotAtStart(p, pat, rest);
      CleanTail(p, pat);
      calc {
        ReplaceAll(s, pat, rep);
        [s[0]] + ReplaceAll(s[1..], pat, rep);
        { assert s[1..] == p[1..] + pat + rest; }
        [p[0]] + ReplaceAll(p[1..] + pat + rest, pat, rep);
        { ReplaceAfterClean(p[1..], pat, rest, rep); }
        [p[0]] + (p[1..] + rep + ReplaceAll(rest, pat, rep));
        { assert p == [p[0]] + p[1..]; }
        p + rep + ReplaceAll(rest, pat, rep);
      }
    }
  }

  /** Specification of the scan: for any leftmost split of `s`, replacing every
      occurrence yields the pieces joined by `rep`, in order, with all other
      characters preserved. */
  lemma {:induction false} ReplaceLeftmost(s: string, pat: string, rep: string, pieces: seq<string>)
    requires |pat| > 0 && LeftmostSplit(s, pat, pieces)
    ensures ReplaceAll(s, pat, rep) == Join(pieces, rep)
    decreases |pieces|
  {
    if |pieces| > 1 {
      var rest := Join(pieces[1..], pat);
      assert s == pieces[0] + pat + rest;
      ReplaceAfterClean(pieces[0], pat, rest, rep);
      assert LeftmostSplit(rest, pat, pieces[1..]) by {
        assert pieces[1..][|pieces[1..]| - 1] == pieces[|pieces| - 1];
        forall k | 0 <= k < |pieces[1..]| - 1
          ensures Clean(pieces[1..][k], pat)
        {
          assert pieces[1..][k] == pieces[k + 1];
        }
      }
      ReplaceLeftmost(rest, pat, rep, pieces[1..]);
    }
  }

  /** Adding a leading character to the first piece of a split. */
  lemma JoinConsFirst(c: char, t: seq<string>, sep: string)
    requires |t| > 0
    ensures Join([[c] + t[0]] + t[1..], sep) == [c] + Join(t, sep)
  {
    var u := [[c] + t[0]] + t[1..];
    assert u[1..] == t[1..];
  }

  /** `Split` finds a leftmost split of every input. */
  lemma {:induction false} SplitLeftmost(s: string, pat: string)
    requires |pat| > 0
    ensures LeftmostSplit(s, pat, Split(s, pat))
    decreases |s|
  {
    var r := Split(s, pat);
    if |s| < |pat| {
      assert r == [s];
    } else if s[..|pat|] == pat {
      var rest := s[|pat|..];
      var t := Split(rest, pat);
      SplitLeftmost(rest, pat);
      assert r == [[]] + t;
      assert r[1..] == t;
      assert s == pat + rest;
      assert r[|r| - 1] == t[|t| - 1];
      forall k | 0 <= k < |r| - 1
        ensures Clean(r[k], pat)
      {
        if k > 0 {
          assert r[k] == t[k - 1];
        }
      }
    } else {
      var tail := s[1..];
      var t := Split(tail, pat);
      SplitLeftmost(tail, pat);
      var first := [s[0]] + t[0];
      assert r == [first] + t[1..];
      JoinConsFirst(s[0], t, pat);
      assert s == [s[0]] + tail;
      assert !OccursAt(s, 0, pat);
      if |t| == 1 {
        assert first == s;
        forall i | 0 <= i < |s|
          ensures !OccursAt(s, i, pat)
        {
          if i > 0 {
            ShiftOccurs(s[0], tail, i - 1, pat);
          }
        }
      } else {
        assert Clean(t[0], pat);
        forall i | 0 <= i < |first|
          ensures !OccursAt(first + pat, i, pat)
        {
          assert first + pat == [s[0]] + (t[0] + pat);
          if i > 0 {
            ShiftOccurs(s[0], t[0] + pat, i - 1, pat);
          } else {
            assert s == first + pat + Join(t[1..], pat);
            assert (first + pat)[..|pat|] == s[..|pat|];
          }
        }
      }
      if |t| > 1 {
        assert r[|r| - 1] == t[|t| - 1];
      }
      forall k | 0 <= k < |r| - 1
        ensures Clean(r[k], pat)
      {
        if k > 0 {
          assert r[k] == t[k];
        }
      }
    }
  }

  /** Python's identity `s.replace(old, new) == new.join(s.split(old))`. */
  lemma ReplaceIsJoinSplit(s: string, pat: string, rep: string)
    requires |pat| > 0
    ensures ReplaceAll(s, pat, rep) == Join(Split(s, pat), rep)
    ensures LeftmostSplit(s, pat, Split(s, pat))
  {
    SplitLeftmost(s, pat);
    ReplaceLeftmost(s, pat, rep, Split(s, pat));
  }
}
