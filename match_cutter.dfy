/**
 * The reference definition of how CodeInspection cuts its document around
 * regex matches (CutCompleteCode, both overloads), on values: a document is
 * cut into segments, each a literal run or a matched run.
 */
module MatchCutter {
  import opened Common

  /** A regex match as the engine reports it: where it starts, how long it is, and its text. */
  datatype RegexMatch = RegexMatch(Index: nat, Length: nat, Value: string) {
    function End(): nat { Index + Length }
  }

  /**
   * The regex engine, left abstract: a compiled pattern (with its options)
   * applied to a text yields its matches in the order the engine enumerates
   * them. Match(text) is the first of them, Matches(text) all of them.
   */
  type Regex = string -> seq<RegexMatch>

  /** `m` is a match the engine can report on `doc`: it lies inside `doc` and carries that text. */
  predicate MatchOf(m: RegexMatch, doc: string) {
    m.End() <= |doc| && m.Value == doc[m.Index..m.End()]
  }

  predicate MatchesOf(ms: seq<RegexMatch>, doc: string) {
    forall i :: 0 <= i < |ms| ==> MatchOf(ms[i], doc)
  }

  /** What the model relies on about the regex engine: on every text, it reports matches that lie in that text. */
  ghost predicate Sound(regex: Regex) {
    forall s :: MatchesOf(regex(s), s)
  }

  /** Each match ends no later than the next one starts: the order regex enumeration yields left to right. */
  predicate Ordered(ms: seq<RegexMatch>) {
    forall i :: 0 < i < |ms| ==> ms[i - 1].End() <= ms[i].Index
  }

  /** One piece of a cut: its text, and the match it came from (None for a literal run). */
  datatype Segment = Segment(text: string, source: Option<RegexMatch>)

  /** The text the segments reassemble to, in order. */
  function Joined(segs: seq<Segment>): string
    decreases |segs|
  {
    if segs == [] then "" else Joined(segs[..|segs| - 1]) + segs[|segs| - 1].text
  }

  /** The matches the segments came from, in segment order. */
  function MatchesIn(segs: seq<Segment>): seq<RegexMatch>
    decreases |segs|
  {
    if segs == [] then []
    else MatchesIn(segs[..|segs| - 1]) + (match segs[|segs| - 1].source case Some(m) => [m] case None => [])
  }

  /** Every literal run is non-empty and every matched run carries its match's text. */
  predicate WellCut(segs: seq<Segment>) {
    forall i :: 0 <= i < |segs| ==> WellCutSegment(segs[i])
  }

  predicate WellCutSegment(s: Segment) {
    match s.source
    case None => s.text != ""
    case Some(m) => s.text == m.Value
  }

  /** Appending one segment extends the reassembled text and the match list by that segment's share. */
  lemma AppendSegment(segs: seq<Segment>, s: Segment)
    ensures Joined(segs + [s]) == Joined(segs) + s.text
    ensures MatchesIn(segs + [s]) == MatchesIn(segs) + (match s.source case Some(m) => [m] case None => [])
    ensures WellCut(segs) && WellCutSegment(s) ==> WellCut(segs + [s])
  {
    assert (segs + [s])[..|segs|] == segs;
  }

  lemma {:induction false} JoinedAppend(a: seq<Segment>, b: seq<Segment>)
    ensures Joined(a + b) == Joined(a) + Joined(b)
    decreases |b|
  {
    if b == [] {
      assert a + b == a;
    } else {
      assert (a + b)[..|a + b| - 1] == a + b[..|b| - 1];
      JoinedAppend(a, b[..|b| - 1]);
    }
  }

  // ---------------------------------------------------------------- one match

  /** CutCompleteCode(Match): the text before the match (if any), the match, the text after it (if any). */
  function CutSingle(doc: string, m: RegexMatch): seq<Segment>
    requires MatchOf(m, doc)
  {
    (if m.Index > 0 then [Segment(doc[..m.Index], None)] else [])
    + [Segment(m.Value, Some(m))]
    + (if m.End() < |doc| then [Segment(doc[m.End()..], None)] else [])
  }

  /** A single cut in the three parts the code appends, each a possibly empty literal run or the match. */
  lemma CutSingleParts(doc: string, m: RegexMatch)
    requires MatchOf(m, doc)
    ensures CutSingle(doc, m)
            == (if 0 < m.Index then [Segment(doc[0..m.Index], None)] else [])
               + [Segment(m.Value, Some(m))]
               + (if m.End() < |doc| then [Segment(doc[m.End()..|doc|], None)] else [])
  {
    assert doc[0..m.Index] == doc[..m.Index];
    assert doc[m.End()..|doc|] == doc[m.End()..];
  }

  /** A single cut reassembles to the document and holds exactly the one match, as a well-cut run. */
  lemma CutSingleCorrect(doc: string, m: RegexMatch)
    requires MatchOf(m, doc)
    ensures Joined(CutSingle(doc, m)) == doc
    ensures MatchesIn(CutSingle(doc, m)) == [m]
    ensures WellCut(CutSingle(doc, m))
  {
    CutSingleParts(doc, m);
    var mid := CutSingleHead(doc, m);
    if m.End() < |doc| {
      AppendLiteralSound(doc, mid, m.End(), |doc|, [m]);
      assert doc[..|doc|] == doc;
    } else {
      assert doc[..m.End()] == doc;
      assert mid + [] == mid;
    }
  }

  /** The cut up to the end of the match: the text before it, if any, then the match. */
  lemma CutSingleHead(doc: string, m: RegexMatch) returns (mid: seq<Segment>)
    requires MatchOf(m, doc)
    ensures mid == (if 0 < m.Index then [Segment(doc[0..m.Index], None)] else []) + [Segment(m.Value, Some(m))]
    ensures Joined(mid) == doc[..m.End()] && MatchesIn(mid) == [m] && WellCut(mid)
  {
    if 0 < m.Index {
      AppendLiteralSound(doc, [], 0, m.Index, []);
      var pre := [] + [Segment(doc[0..m.Index], None)];
      AppendMatchSound(doc, pre, m, []);
      mid := pre + [Segment(m.Value, Some(m))];
    } else {
      AppendMatchSound(doc, [], m, []);
      mid := [] + [Segment(m.Value, Some(m))];
    }
  }

  // ----------------------------------------------------------- all matches

  /**
   * The state of the FindAll cut after some matches: the segments added so
   * far, `currentStartIndex`, and whether every match so far started at or
   * after the cursor (false: the cut threw and froze here).
   */
  datatype CutState = CutState(segments: seq<Segment>, cursor: nat, inOrder: bool)

  /** One turn of the loop of CutCompleteCode(MatchCollection). */
  function CutStep(doc: string, st: CutState, m: RegexMatch): (r: CutState)
    requires st.cursor <= |doc| && MatchOf(m, doc)
    ensures r.cursor <= |doc|
  {
    if !st.inOrder then st
    else if m.Index < st.cursor then CutState(st.segments, st.cursor, false)
    else CutState(st.segments + StepSegments(doc, st.cursor, m), m.End(), true)
  }

  /** What an in-order turn appends: the literal run from the cursor to the match, when the match starts later, then the match. */
  function StepSegments(doc: string, cursor: nat, m: RegexMatch): seq<Segment>
    requires cursor <= m.Index && MatchOf(m, doc)
  {
    (if m.Index > cursor then [Segment(doc[cursor..m.Index], None)] else []) + [Segment(m.Value, Some(m))]
  }

  /** The loop of CutCompleteCode(MatchCollection) over `ms`, before the trailing literal run. */
  function CutMatches(doc: string, ms: seq<RegexMatch>): (st: CutState)
    requires MatchesOf(ms, doc)
    ensures st.cursor <= |doc|
    decreases |ms|
  {
    if ms == [] then CutState([], 0, true)
    else CutStep(doc, CutMatches(doc, ms[..|ms| - 1]), ms[|ms| - 1])
  }

  /** The rest of the document after the last match, added once the loop is through. */
  function CutTail(doc: string, st: CutState): CutState
    requires st.cursor <= |doc|
  {
    if st.inOrder && st.cursor < |doc| then CutState(st.segments + [Segment(doc[st.cursor..], None)], |doc|, true)
    else st
  }

  /** The whole cut: the loop, then the trailing literal run. */
  function CutAll(doc: string, ms: seq<RegexMatch>): CutState
    requires MatchesOf(ms, doc)
  {
    CutTail(doc, CutMatches(doc, ms))
  }

  /** The loop's state after i + 1 matches is one more turn from its state after i. */
  lemma CutMatchesStep(doc: string, ms: seq<RegexMatch>, i: nat)
    requires MatchesOf(ms, doc) && i < |ms|
    ensures MatchesOf(ms[..i], doc) && MatchesOf(ms[..i + 1], doc) && MatchOf(ms[i], doc)
    ensures CutMatches(doc, ms[..i + 1]) == CutStep(doc, CutMatches(doc, ms[..i]), ms[i])
  {
    assert ms[..i + 1][..i] == ms[..i];
  }

  /** A match starting before the cursor stops the cut for good: the matches are not ordered and the state stays. */
  lemma CutStopsAt(doc: string, ms: seq<RegexMatch>, i: nat)
    requires MatchesOf(ms, doc) && i < |ms|
    requires CutMatches(doc, ms[..i]).inOrder && ms[i].Index < CutMatches(doc, ms[..i]).cursor
    ensures !Ordered(ms)
    ensures CutMatches(doc, ms).segments == CutMatches(doc, ms[..i]).segments
  {
    CutMatchesStep(doc, ms, i);
    CutFrozen(doc, ms, i + 1);
    CutInOrderIffOrdered(doc, ms);
  }

  /**
   * The first match is always cut: the cursor starts at 0, so it cannot
   * start behind it, and no later turn takes a segment away. A throw
   * therefore comes after at least one piece was added.
   */
  lemma {:induction false} FirstMatchAlwaysCut(doc: string, ms: seq<RegexMatch>)
    requires MatchesOf(ms, doc) && ms != []
    ensures Segment(ms[0].Value, Some(ms[0])) in CutMatches(doc, ms).segments
    decreases |ms|
  {
    var pre := ms[..|ms| - 1];
    if pre != [] {
      assert pre[0] == ms[0];
      FirstMatchAlwaysCut(doc, pre);
    } else {
      assert CutMatches(doc, pre) == CutState([], 0, true);
    }
  }

  /** Once the cut has thrown, later matches change nothing. */
  lemma {:induction false} CutFrozen(doc: string, ms: seq<RegexMatch>, k: nat)
    requires MatchesOf(ms, doc) && k <= |ms|
    requires !CutMatches(doc, ms[..k]).inOrder
    ensures CutMatches(doc, ms) == CutMatches(doc, ms[..k])
    decreases |ms| - k
  {
    if k < |ms| {
      assert ms[..k + 1][..k] == ms[..k];
      assert !CutMatches(doc, ms[..k + 1]).inOrder;
      CutFrozen(doc, ms, k + 1);
    } else {
      assert ms[..k] == ms;
    }
  }

  /** The cut runs through without throwing exactly when the matches are ordered; its cursor is then the last match's end. */
  lemma {:induction false} CutInOrderIffOrdered(doc: string, ms: seq<RegexMatch>)
    requires MatchesOf(ms, doc)
    ensures CutMatches(doc, ms).inOrder <==> Ordered(ms)
    ensures CutMatches(doc, ms).inOrder ==> CutMatches(doc, ms).cursor == (if ms == [] then 0 else ms[|ms| - 1].End())
    decreases |ms|
  {
    if ms != [] {
      var pre := ms[..|ms| - 1];
      var m := ms[|ms| - 1];
      CutInOrderIffOrdered(doc, pre);
      var st := CutMatches(doc, pre);
      assert CutMatches(doc, ms) == CutStep(doc, st, m);
      if Ordered(ms) {
        assert Ordered(pre) by {
          forall i | 0 < i < |pre| ensures pre[i - 1].End() <= pre[i].Index {
            assert pre[i - 1] == ms[i - 1] && pre[i] == ms[i];
          }
        }
        if pre != [] {
          assert pre[|pre| - 1] == ms[|ms| - 2];
        }
      } else if Ordered(pre) {
        // the offending pair is the last one
        OrderedExtend(ms);
        assert pre[|pre| - 1] == ms[|ms| - 2];
      }
    }
  }

  /** An ordered list stays ordered with one more match exactly when that match starts at or after the last one's end. */
  lemma OrderedExtend(ms: seq<RegexMatch>)
    requires |ms| > 0 && Ordered(ms[..|ms| - 1])
    ensures Ordered(ms) <==> |ms| < 2 || ms[|ms| - 2].End() <= ms[|ms| - 1].Index
  {
    var pre := ms[..|ms| - 1];
    if |ms| >= 2 && ms[|ms| - 2].End() <= ms[|ms| - 1].Index {
      forall i | 0 < i < |ms| ensures ms[i - 1].End() <= ms[i].Index {
        if i < |ms| - 1 {
          assert pre[i - 1] == ms[i - 1] && pre[i] == ms[i];
        }
      }
    }
  }

  /** Loop invariant of the cut: the segments reassemble the document up to the cursor and hold the matches so far. */
  lemma {:induction false} CutMatchesSound(doc: string, ms: seq<RegexMatch>)
    requires MatchesOf(ms, doc)
    requires CutMatches(doc, ms).inOrder
    ensures Joined(CutMatches(doc, ms).segments) == doc[..CutMatches(doc, ms).cursor]
    ensures MatchesIn(CutMatches(doc, ms).segments) == ms
    ensures WellCut(CutMatches(doc, ms).segments)
    decreases |ms|
  {
    if ms != [] {
      var pre := ms[..|ms| - 1];
      var m := ms[|ms| - 1];
      var st := CutMatches(doc, pre);
      assert CutMatches(doc, ms) == CutStep(doc, st, m);
      assert st.inOrder;
      CutMatchesSound(doc, pre);
      StepSound(doc, st, m, pre);
      assert pre + [m] == ms;
    }
  }

  /** A literal run from the end of a sound prefix to `to` extends it to `doc[..to]`. */
  lemma AppendLiteralSound(doc: string, segs: seq<Segment>, from: nat, to: nat, done: seq<RegexMatch>)
    requires from < to <= |doc|
    requires Joined(segs) == doc[..from] && MatchesIn(segs) == done && WellCut(segs)
    ensures Joined(segs + [Segment(doc[from..to], None)]) == doc[..to]
    ensures MatchesIn(segs + [Segment(doc[from..to], None)]) == done
    ensures WellCut(segs + [Segment(doc[from..to], None)])
  {
    AppendSegment(segs, Segment(doc[from..to], None));
    assert doc[..to] == doc[..from] + doc[from..to];
  }

  /** A matched run at the end of a sound prefix extends it to the end of the match. */
  lemma AppendMatchSound(doc: string, segs: seq<Segment>, m: RegexMatch, done: seq<RegexMatch>)
    requires MatchOf(m, doc)
    requires Joined(segs) == doc[..m.Index] && MatchesIn(segs) == done && WellCut(segs)
    ensures Joined(segs + [Segment(m.Value, Some(m))]) == doc[..m.End()]
    ensures MatchesIn(segs + [Segment(m.Value, Some(m))]) == done + [m]
    ensures WellCut(segs + [Segment(m.Value, Some(m))])
  {
    AppendSegment(segs, Segment(m.Value, Some(m)));
    assert doc[..m.End()] == doc[..m.Index] + doc[m.Index..m.End()];
  }

  /** One in-order turn of the loop keeps the invariant. */
  lemma StepSound(doc: string, st: CutState, m: RegexMatch, done: seq<RegexMatch>)
    requires st.cursor <= |doc| && MatchOf(m, doc)
    requires st.inOrder && m.Index >= st.cursor
    requires Joined(st.segments) == doc[..st.cursor] && MatchesIn(st.segments) == done && WellCut(st.segments)
    ensures Joined(CutStep(doc, st, m).segments) == doc[..m.End()]
    ensures MatchesIn(CutStep(doc, st, m).segments) == done + [m]
    ensures WellCut(CutStep(doc, st, m).segments)
  {
    if m.Index > st.cursor {
      var segs := st.segments + [Segment(doc[st.cursor..m.Index], None)];
      AppendLiteralSound(doc, st.segments, st.cursor, m.Index, done);
      AppendMatchSound(doc, segs, m, done);
      assert CutStep(doc, st, m).segments == segs + [Segment(m.Value, Some(m))];
    } else {
      AppendMatchSound(doc, st.segments, m, done);
      assert CutStep(doc, st, m).segments == st.segments + [Segment(m.Value, Some(m))];
    }
  }

  /** Round trip of FindAll: the cut of ordered matches reassembles to the document and keeps the matches in order. */
  lemma CutAllCorrect(doc: string, ms: seq<RegexMatch>)
    requires MatchesOf(ms, doc)
    requires Ordered(ms)
    ensures CutAll(doc, ms).inOrder
    ensures Joined(CutAll(doc, ms).segments) == doc
    ensures MatchesIn(CutAll(doc, ms).segments) == ms
    ensures WellCut(CutAll(doc, ms).segments)
  {
    CutInOrderIffOrdered(doc, ms);
    CutMatchesSound(doc, ms);
    var st := CutMatches(doc, ms);
    if st.cursor < |doc| {
      AppendLiteralSound(doc, st.segments, st.cursor, |doc|, ms);
      assert doc[..|doc|] == doc && doc[st.cursor..|doc|] == doc[st.cursor..];
    } else {
      assert doc[..st.cursor] == doc;
    }
  }

  /** The whole cut throws exactly when the matches are not ordered; a thrown cut keeps the segments added before the offending match. */
  lemma CutAllThrowsIffUnordered(doc: string, ms: seq<RegexMatch>)
    requires MatchesOf(ms, doc)
    ensures !CutAll(doc, ms).inOrder <==> !Ordered(ms)
    ensures !Ordered(ms) ==> CutAll(doc, ms) == CutMatches(doc, ms)
  {
    CutInOrderIffOrdered(doc, ms);
  }
}
