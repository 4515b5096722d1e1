/** Strings seen as pathnames: separators, segments and last occurrences. */
module PathStrings {

  predicate IsSeparator(c: char) {
    c == '/'
  }

  predicate AreAllSeparators(s: string) {
    forall i :: 0 <= i < |s| ==> IsSeparator(s[i])
  }

  predicate NoSeparator(s: string) {
    forall i :: 0 <= i < |s| ==> !IsSeparator(s[i])
  }

  predicate EndsInSeparator(s: string) {
    s != "" && IsSeparator(s[|s| - 1])
  }

  // ---------- Last occurrence ----------

  /** Index of the last occurrence of c, or -1. */
  function LastIndexOf(s: string, c: char): (k: int)
    ensures -1 <= k < |s|
    ensures k >= 0 ==> s[k] == c
    ensures forall i :: k < i < |s| ==> s[i] != c
  {
    if s == "" then -1
    else if s[|s| - 1] == c then |s| - 1
    else LastIndexOf(s[..|s| - 1], c)
  }

  lemma LastIndexOfIs(s: string, c: char, k: int)
    requires -1 <= k < |s| && (k >= 0 ==> s[k] == c) && forall i :: k < i < |s| ==> s[i] != c
    ensures LastIndexOf(s, c) == k
  {
  }

  // ---------- Trailing separators ----------

  /** The string without the separators at its end. */
  function RightTrim(s: string): (r: string)
    ensures !EndsInSeparator(r) && r <= s && AreAllSeparators(s[|r|..])
    ensures AreAllSeparators(s) ==> r == ""
  {
    if EndsInSeparator(s) then RightTrim(s[..|s| - 1]) else s
  }

  lemma {:induction false} RightTrimIs(s: string, r: string)
    requires !EndsInSeparator(r) && r <= s && AreAllSeparators(s[|r|..])
    ensures RightTrim(s) == r
  {
    if |r| < |s| {
      var t := s[..|s| - 1];
      assert s[|s| - 1] == s[|r|..][|s| - 1 - |r|];
      assert t[|r|..] == s[|r|..][..|t| - |r|];
      RightTrimIs(t, r);
    }
  }

  // ---------- Segments ----------

  /** Length of the run of ordinary characters at the start. */
  function SegmentLength(s: string): (n: nat)
    ensures n <= |s| && NoSeparator(s[..n]) && (n < |s| ==> IsSeparator(s[n]))
  {
    if s == "" || IsSeparator(s[0]) then 0 else 1 + SegmentLength(s[1..])
  }

  lemma {:induction false} SegmentLengthIs(s: string, n: nat)
    requires n <= |s| && NoSeparator(s[..n]) && (n < |s| ==> IsSeparator(s[n]))
    ensures SegmentLength(s) == n
  {
    if n > 0 {
      assert s[0] == s[..n][0] && s[1..][..n - 1] == s[..n][1..];
      SegmentLengthIs(s[1..], n - 1);
    }
  }

  /** The nonempty pieces between separators, in order. */
  function Segments(s: string): (segments: seq<string>)
    decreases |s|
  {
    if s == "" then []
    else if IsSeparator(s[0]) then Segments(s[1..])
    else [s[..SegmentLength(s)]] + Segments(s[SegmentLength(s)..])
  }

  lemma {:induction false} SegmentsSplit(a: string, b: string)
    ensures Segments(a + "/" + b) == Segments(a) + Segments(b)
    decreases |a|
  {
    var s := a + "/" + b;
    if a == "" {
      assert s[1..] == b;
    } else if IsSeparator(a[0]) {
      assert s[1..] == a[1..] + "/" + b;
      SegmentsSplit(a[1..], b);
    } else {
      var n := SegmentLength(a);
      assert s[..n] == a[..n];
      SegmentLengthIs(s, n);
      assert s[n..] == a[n..] + "/" + b;
      SegmentsSplit(a[n..], b);
    }
  }

  lemma SegmentsOfOne(s: string)
    requires s != "" && NoSeparator(s)
    ensures Segments(s) == [s]
  {
    SegmentLengthIs(s, |s|);
    assert s[..|s|] == s && s[|s|..] == "";
  }

  lemma SplitAt(s: string, k: nat)
    requires k < |s| && IsSeparator(s[k])
    ensures s == s[..k] + "/" + s[k + 1..]
  {
  }

  lemma NoSeparatorFrom(s: string, n: nat)
    requires n <= |s| && forall i :: n <= i < |s| ==> !IsSeparator(s[i])
    ensures NoSeparator(s[n..])
  {
    var t := s[n..];
    forall i | 0 <= i < |t|
      ensures !IsSeparator(t[i])
    {
      assert t[i] == s[n + i];
    }
  }

  lemma LastSegmentProper(s: string)
    requires s != "" && !EndsInSeparator(s)
    ensures LastIndexOf(s, '/') < |s| - 1
    ensures s[LastIndexOf(s, '/') + 1..] != "" && NoSeparator(s[LastIndexOf(s, '/') + 1..])
  {
    hide LastIndexOf, NoSeparator;
    NoSeparatorFrom(s, LastIndexOf(s, '/') + 1);
  }

  /** A last segment is split off at the last separator. */
  lemma SegmentsLast(s: string, k: int)
    requires s != "" && !EndsInSeparator(s) && k == LastIndexOf(s, '/')
    ensures Segments(s) == (if k == -1 then [] else Segments(s[..k])) + [s[k + 1..]]
  {
    hide Segments, LastIndexOf;
    LastSegmentProper(s);
    SegmentsOfOne(s[k + 1..]);
    if k == -1 {
      assert s[k + 1..] == s;
    } else {
      SplitAt(s, k);
      SegmentsSplit(s[..k], s[k + 1..]);
    }
  }

  lemma {:induction false} SegmentsRightTrim(s: string)
    ensures Segments(RightTrim(s)) == Segments(s)
  {
    if EndsInSeparator(s) {
      var t := s[..|s| - 1];
      assert s == t + "/" + "";
      SegmentsSplit(t, "");
      SegmentsRightTrim(t);
    }
  }

  lemma {:induction false} SegmentsEmptyIff(s: string)
    ensures Segments(s) == [] <==> AreAllSeparators(s)
    decreases |s|
  {
    if s != "" {
      if IsSeparator(s[0]) {
        SegmentsEmptyIff(s[1..]);
        assert AreAllSeparators(s) <==> AreAllSeparators(s[1..]) by {
          assert forall i :: 0 < i < |s| ==> s[i] == s[1..][i - 1];
        }
      }
    }
  }

  /** A string that starts with an ordinary character starts with its first segment. */
  lemma FirstSegment(s: string)
    requires s != "" && !IsSeparator(s[0])
    ensures Segments(s) != [] && Segments(s)[0] == s[..SegmentLength(s)] != ""
  {
  }

  /** Every segment is nonempty and has no separator. */
  lemma {:induction false} SegmentsProper(s: string)
    ensures forall k :: 0 <= k < |Segments(s)| ==> Segments(s)[k] != "" && NoSeparator(Segments(s)[k])
    decreases |s|
  {
    if s != "" {
      if IsSeparator(s[0]) {
        SegmentsProper(s[1..]);
      } else {
        SegmentsProper(s[SegmentLength(s)..]);
      }
    }
  }

  // ---------- Leading separators ----------

  function LeadingSeparators(s: string): (n: nat)
    ensures n <= |s| && AreAllSeparators(s[..n]) && (n < |s| ==> !IsSeparator(s[n]))
  {
    if s == "" || !IsSeparator(s[0]) then 0 else 1 + LeadingSeparators(s[1..])
  }

  lemma {:induction false} LeadingSeparatorsIs(s: string, n: nat)
    requires n <= |s| && AreAllSeparators(s[..n]) && (n < |s| ==> !IsSeparator(s[n]))
    ensures LeadingSeparators(s) == n
  {
    if n > 0 {
      assert s[0] == s[..n][0] && s[1..][..n - 1] == s[..n][1..];
      LeadingSeparatorsIs(s[1..], n - 1);
    }
  }
}
