/**
  * The sentence splitter of popup.js, `txt.match(/[^.!?]+[.!?]+(\s|$)/g) || [txt]`,
  * written out as the left-to-right scan a global regular-expression match
  * performs: try the pattern at a position; on success record the match and
  * resume at its end, on failure move one character on.
  */
module Sentences {
  import opened Wrappers
  import opened Text

  /** The sentence terminators of the pattern's two classes. */
  predicate IsTerminator(c: char) {
    c == '.' || c == '!' || c == '?'
  }

  /** No terminator among `s[lo..hi]`. */
  predicate NoTerminatorsIn(s: string, lo: int, hi: int) {
    forall k :: lo <= k < hi ==> 0 <= k < |s| && !IsTerminator(s[k])
  }

  /** Only terminators in `s[lo..hi]`. */
  predicate OnlyTerminatorsIn(s: string, lo: int, hi: int) {
    forall k :: lo <= k < hi ==> 0 <= k < |s| && IsTerminator(s[k])
  }

  /** A match of the pattern as a half-open range of positions. */
  datatype Span = Span(start: nat, end: nat)

  /** End of the longest run of non-terminators that starts at `i`. */
  function NonTerminatorRunEnd(s: string, i: nat): (j: nat)
    requires i <= |s|
    ensures i <= j <= |s| && NoTerminatorsIn(s, i, j)
    ensures j == |s| || IsTerminator(s[j])
    decreases |s| - i
  {
    if i == |s| || IsTerminator(s[i]) then i else NonTerminatorRunEnd(s, i + 1)
  }

  /** End of the longest run of terminators that starts at `i`. */
  function TerminatorRunEnd(s: string, i: nat): (j: nat)
    requires i <= |s|
    ensures i <= j <= |s| && OnlyTerminatorsIn(s, i, j)
    ensures j == |s| || !IsTerminator(s[j])
    decreases |s| - i
  {
    if i == |s| || !IsTerminator(s[i]) then i else TerminatorRunEnd(s, i + 1)
  }

  /**
    * `s[i..e]` is matched by `[^.!?]+[.!?]+(\s|$)`: one or more non-terminators,
    * one or more terminators, then one whitespace character or the end of `s`.
    */
  ghost predicate IsMatch(s: string, i: int, e: int) {
    0 <= i <= e <= |s| &&
    exists a, t :: i < a < t <= e && NoTerminatorsIn(s, i, a) && OnlyTerminatorsIn(s, a, t)
      && ((t == e == |s|) || (e == t + 1 && IsWhitespace(s[t])))
  }

  /**
    * One attempt of the pattern anchored at `i`: where the match ends, if there is one.
    * Backtracking cannot help here: the first run must stop at the first terminator
    * and the second must take every terminator up to the following character.
    */
  function MatchAt(s: string, i: nat): (r: Option<nat>)
    requires i <= |s|
    ensures r.Some? ==> i < r.value <= |s|
  {
    var a := NonTerminatorRunEnd(s, i);
    var t := TerminatorRunEnd(s, a);
    if a == i || t == a then None
    else if t == |s| then Some(t)
    else if IsWhitespace(s[t]) then Some(t + 1)
    else None
  }

  /** The attempt at `i` ends at `e` exactly when `s[i..e]` is a match of the pattern. */
  lemma MatchAtIff(s: string, i: nat, e: nat)
    requires i <= |s|
    ensures MatchAt(s, i) == Some(e) <==> IsMatch(s, i, e)
  {
    var a := NonTerminatorRunEnd(s, i);
    var t := TerminatorRunEnd(s, a);
    if MatchAt(s, i) == Some(e) {
      assert i < a < t <= e && NoTerminatorsIn(s, i, a) && OnlyTerminatorsIn(s, a, t);
    }
    if IsMatch(s, i, e) {
      var a', t' :| i < a' < t' <= e && NoTerminatorsIn(s, i, a') && OnlyTerminatorsIn(s, a', t')
        && ((t' == e == |s|) || (e == t' + 1 && IsWhitespace(s[t'])));
      assert IsTerminator(s[a']);
      assert a' == a;
      assert t' == t;
    }
  }

  /** Position `p` lies inside one of `spans`. */
  ghost predicate Covered(spans: seq<Span>, p: int) {
    spans != [] && (spans[0].start <= p < spans[0].end || Covered(spans[1..], p))
  }

  /**
    * The global match from position `i` on. The spans are matches, in order and
    * disjoint, and every position outside them is one where the pattern fails.
    */
  function Scan(s: string, i: nat): (spans: seq<Span>)
    requires i <= |s|
    ensures forall k :: 0 <= k < |spans| ==>
      i <= spans[k].start <= |s| && MatchAt(s, spans[k].start) == Some(spans[k].end)
    ensures forall k, l :: 0 <= k < l < |spans| ==> spans[k].end <= spans[l].start
    decreases |s| - i
  {
    if i == |s| then []
    else
      match MatchAt(s, i)
      case Some(e) => [Span(i, e)] + Scan(s, e)
      case None => Scan(s, i + 1)
  }

  /** The scan from `i` skips only positions where the pattern fails. */
  lemma {:induction false} ScanSkipsOnlyFailures(s: string, i: nat, p: nat)
    requires i <= p < |s| && !Covered(Scan(s, i), p)
    ensures MatchAt(s, p) == None
    decreases |s| - i
  {
    match MatchAt(s, i)
    case Some(e) =>
      var spans := Scan(s, i);
      assert spans == [Span(i, e)] + Scan(s, e);
      assert spans[0] == Span(i, e) && spans[1..] == Scan(s, e);
      assert e <= p;
      ScanSkipsOnlyFailures(s, e, p);
    case None =>
      if p > i {
        assert Scan(s, i) == Scan(s, i + 1);
        ScanSkipsOnlyFailures(s, i + 1, p);
      }
  }

  /** The pieces of `s` that the spans select. */
  function Slices(s: string, spans: seq<Span>): (r: seq<string>)
    requires forall k :: 0 <= k < |spans| ==> spans[k].start <= spans[k].end <= |s|
  {
    seq(|spans|, k requires 0 <= k < |spans| => s[spans[k].start..spans[k].end])
  }

  /**
    * `sentenceSplit` (popup.js, repeated in options.js): the global match of the
    * pattern, or `[txt]` itself, untrimmed, when the pattern matches nowhere.
    */
  function SentenceSplit(txt: string): (r: seq<string>)
    ensures |r| >= 1
    ensures Scan(txt, 0) == [] ==> r == [txt]
    ensures Scan(txt, 0) != [] ==> r == Slices(txt, Scan(txt, 0))
  {
    var spans := Scan(txt, 0);
    if spans == [] then [txt] else Slices(txt, spans)
  }

  /**
    * A sentence as the pattern produces it: non-terminators, then terminators,
    * then one whitespace character, which may be missing only at the end of the input.
    */
  ghost predicate IsSentence(p: string, atEnd: bool) {
    exists a, t :: 0 < a < t <= |p| && NoTerminatorsIn(p, 0, a) && OnlyTerminatorsIn(p, a, t)
      && ((t == |p| && atEnd) || (t + 1 == |p| && IsWhitespace(p[t])))
  }

  lemma MatchIsSentence(s: string, i: nat, e: nat)
    requires IsMatch(s, i, e)
    ensures IsSentence(s[i..e], e == |s|)
  {
    var a, t :| i < a < t <= e && NoTerminatorsIn(s, i, a) && OnlyTerminatorsIn(s, a, t)
      && ((t == e == |s|) || (e == t + 1 && IsWhitespace(s[t])));
    var p := s[i..e];
    assert NoTerminatorsIn(p, 0, a - i) by {
      forall k | 0 <= k < a - i ensures p[k] == s[i + k] { }
    }
    assert OnlyTerminatorsIn(p, a - i, t - i) by {
      forall k | a - i <= k < t - i ensures p[k] == s[i + k] { }
    }
    assert t < e ==> p[t - i] == s[t];
  }

  /**
    * When the pattern matches, the pieces are pieces of the input, in input order
    * and without overlap, and each is a whole sentence of the pattern's kind.
    */
  lemma {:induction false} SplitPieces(txt: string)
    requires Scan(txt, 0) != []
    ensures var spans := Scan(txt, 0); var r := SentenceSplit(txt);
      |r| == |spans|
      && (forall k :: 0 <= k < |r| ==>
            (spans[k].start < spans[k].end <= |txt|
             && r[k] == txt[spans[k].start..spans[k].end]
             && IsSentence(r[k], spans[k].end == |txt|)))
      && (forall k, l :: 0 <= k < l < |r| ==> spans[k].end <= spans[l].start)
  {
    var spans := Scan(txt, 0);
    forall k | 0 <= k < |spans|
      ensures IsSentence(txt[spans[k].start..spans[k].end], spans[k].end == |txt|)
    {
      MatchAtIff(txt, spans[k].start, spans[k].end);
      MatchIsSentence(txt, spans[k].start, spans[k].end);
    }
  }

  /** Every match of the pattern that does not start inside a chosen piece is chosen. */
  lemma {:induction false} SplitIsLeftmost(txt: string, p: nat, e: nat)
    requires IsMatch(txt, p, e) && p < |txt|
    ensures Covered(Scan(txt, 0), p)
  {
    MatchAtIff(txt, p, e);
    if !Covered(Scan(txt, 0), p) {
      ScanSkipsOnlyFailures(txt, 0, p);
    }
  }

  lemma {:induction false} ScanWithoutTerminators(s: string, i: nat)
    requires i <= |s| && NoTerminatorsIn(s, i, |s|)
    ensures Scan(s, i) == []
    decreases |s| - i
  {
    if i < |s| {
      assert NonTerminatorRunEnd(s, i) == |s|;
      ScanWithoutTerminators(s, i + 1);
    }
  }

  /** Text without any of `.`, `!`, `?` comes back whole and untrimmed. */
  lemma SplitWithoutTerminators(txt: string)
    requires NoTerminatorsIn(txt, 0, |txt|)
    ensures SentenceSplit(txt) == [txt]
  {
    ScanWithoutTerminators(txt, 0);
  }
}
