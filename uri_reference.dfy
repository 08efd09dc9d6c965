/**
  A second description of what parsing yields, written without productions or
  cursors: the path runs to the first `#` or `?`, the anchor lies between that
  `#` and the first `?`, and the query after the first `?` is cut at every `&`
  into segments, each split at its first `=`. The main lemma shows that the
  grammar computes exactly this.
 */
module UriReference {
  import opened Parsing
  import opened Assoc
  import opened Uri

  /** `s[from..]` cut at every `&`. */
  function Segments(s: string, from: nat): (r: seq<string>)
    requires from <= |s|
    ensures |r| > 0
    decreases |s| - from
  {
    var end := RunEnd(s, from, PairStops);
    if end == |s| then [s[from..]]
    else
      var rest := Segments(s, end + 1);
      [s[from..end]] + rest
  }

  /** Gluing the segments back together with `&` restores the text they were cut from. */
  lemma {:induction false} SegmentsJoined(s: string, from: nat)
    requires from <= |s|
    ensures Joined(Segments(s, from)) == s[from..]
    decreases |s| - from
  {
    var end := RunEnd(s, from, PairStops);
    SegmentsStep(s, from, end);
    if end < |s| {
      var head, tail := s[from..end], Segments(s, end + 1);
      assert Segments(s, from) == [head] + tail;
      SegmentsJoined(s, end + 1);
      JoinedCons(head, tail);
      GlueAt(s, from, end);
      assert [s[end]] == "&";
    } else {
      assert s[from..] == s[from..end];
    }
  }

  /** The text from `from` is what lies before `end`, the character at `end`, and the rest. */
  lemma GlueAt(s: string, from: nat, end: nat)
    requires from <= end < |s|
    ensures s[from..] == s[from..end] + [s[end]] + s[end + 1..]
  {
    assert s[from..] == s[from..end] + s[end..];
    assert s[end..] == [s[end]] + s[end + 1..];
  }

  /** No segment holds an `&`. */
  lemma {:induction false} SegmentsHaveNoAmpersand(s: string, from: nat)
    requires from <= |s|
    ensures forall i :: 0 <= i < |Segments(s, from)| ==> '&' !in Segments(s, from)[i]
    decreases |s| - from
  {
    var end := RunEnd(s, from, PairStops);
    SegmentsStep(s, from, end);
    if end < |s| {
      SegmentsHaveNoAmpersand(s, end + 1);
    }
  }

  lemma JoinedCons(part: string, parts: seq<string>)
    requires parts != []
    ensures Joined([part] + parts) == part + "&" + Joined(parts)
  {
    assert ([part] + parts)[1..] == parts;
  }

  /** Every segment as a pair, in order. */
  function SegmentPairs(segs: seq<string>): seq<Entry> {
    if segs == [] then [] else [SegmentPair(segs[0])] + SegmentPairs(segs[1..])
  }

  /** The parameters a query text stands for. */
  function QueryParams(s: string, from: nat): seq<Entry>
    requires from <= |s|
  {
    ToMap(DropUnnamed(SegmentPairs(Segments(s, from))))
  }

  /** The anchor between a `#` at `pathEnd` and the first `?` at `query`, if there is one. */
  function AnchorBetween(s: string, pathEnd: nat, query: nat): string
    requires pathEnd <= |s| && query <= |s|
  {
    if pathEnd < query then s[pathEnd + 1 .. query] else ""
  }

  /** The parameters after the first `?`, at `query`, if there is one. */
  function ParamsAfter(s: string, query: nat): seq<Entry>
    requires query <= |s|
  {
    if query < |s| then QueryParams(s, query + 1) else []
  }

  /** What parsing `s` yields, described by where its first `#` and `?` are. */
  function SplitURI(s: string): URI {
    var pathEnd := RunEnd(s, 0, PathStops);
    var query := RunEnd(s, 0, AnchorStops);
    URI(s[..pathEnd], AnchorBetween(s, pathEnd, query), ParamsAfter(s, query))
  }

  /** The three parts of SplitURI, cut where the first `#` or `?` and the first `?` are. */
  lemma SplitURIParts(s: string)
    ensures SplitURI(s).path == s[..RunEnd(s, 0, PathStops)]
    ensures SplitURI(s).anchor == AnchorBetween(s, RunEnd(s, 0, PathStops), RunEnd(s, 0, AnchorStops))
    ensures SplitURI(s).params == ParamsAfter(s, RunEnd(s, 0, AnchorStops))
  {
  }

  lemma AnchorBetweenCut(s: string, pathEnd: nat, query: nat)
    requires pathEnd < query <= |s|
    ensures AnchorBetween(s, pathEnd, query) == s[pathEnd + 1 .. query]
  {
  }

  lemma AnchorBetweenNone(s: string, pathEnd: nat, query: nat)
    requires query <= pathEnd <= |s|
    ensures AnchorBetween(s, pathEnd, query) == ""
  {
  }

  lemma ParamsAfterQuery(s: string, query: nat)
    requires query < |s|
    ensures ParamsAfter(s, query) == QueryParams(s, query + 1)
  {
  }

  lemma ParamsAfterNone(s: string)
    ensures ParamsAfter(s, |s|) == []
  {
  }

  /** A pair takes one segment, up to the next `&`. */
  lemma PairIsSegment(s: string, pos: nat)
    requires pos <= |s|
    ensures Pair(s, pos).next == RunEnd(s, pos, PairStops)
  {
    RunEndUnique(s, pos, PairStops, Pair(s, pos).next);
  }

  /** Unfolding Segments once: the first segment, then the segments after its `&`. */
  lemma SegmentsStep(s: string, from: nat, end: nat)
    requires from <= |s| && end == RunEnd(s, from, PairStops)
    ensures end == |s| ==> Segments(s, from) == [s[from..end]]
    ensures end < |s| ==> Segments(s, from) == [s[from..end]] + Segments(s, end + 1)
  {
    if end == |s| {
      assert s[from..] == s[from..end];
    }
  }

  lemma PresentCons(e: Entry, os: seq<Option<Entry>>)
    ensures Present([Some(e)] + os) == [e] + Present(os)
  {
    assert ([Some(e)] + os)[1..] == os;
  }

  lemma SegmentPairsCons(seg: string, segs: seq<string>)
    ensures SegmentPairs([seg] + segs) == [SegmentPair(seg)] + SegmentPairs(segs)
  {
    assert ([seg] + segs)[1..] == segs;
  }

  /** Unfolding the tail production once, after an `&`: one pair, then the rest. */
  lemma TailStep(s: string, pos: nat, end: nat)
    requires pos < |s| && s[pos] == '&' && end == RunEnd(s, pos + 1, PairStops)
    ensures Present(PairsTail(s, pos).value) == [SegmentPair(s[pos + 1 .. end])] + Present(PairsTail(s, end).value)
  {
    var pair := Pair(s, pos + 1);
    PairIsSegment(s, pos + 1);
    var rest := PairsTail(s, pair.next);
    assert PairsTail(s, pos).value == [Some(pair.value)] + rest.value;
    PresentCons(pair.value, rest.value);
  }

  /** Unfolding the segment pairs once: the first segment's pair, then the rest. */
  lemma SegmentPairsStep(s: string, from: nat, end: nat)
    requires from <= |s| && end == RunEnd(s, from, PairStops)
    ensures end == |s| ==> SegmentPairs(Segments(s, from)) == [SegmentPair(s[from..end])]
    ensures end < |s| ==>
      SegmentPairs(Segments(s, from)) == [SegmentPair(s[from..end])] + SegmentPairs(Segments(s, end + 1))
  {
    var seg := s[from..end];
    SegmentsStep(s, from, end);
    if end == |s| {
      SegmentPairsCons(seg, []);
      assert [seg] + [] == [seg];
    } else {
      SegmentPairsCons(seg, Segments(s, end + 1));
    }
  }

  /**
    After an `&`, the tail production yields one pair per remaining segment:
    doubled or trailing `&` give empty segments, not failures.
   */
  lemma {:induction false} TailIsSegments(s: string, pos: nat)
    requires pos < |s| && s[pos] == '&'
    ensures Present(PairsTail(s, pos).value) == SegmentPairs(Segments(s, pos + 1))
    decreases |s| - pos
  {
    var end := RunEnd(s, pos + 1, PairStops);
    var first := SegmentPair(s[pos + 1 .. end]);
    TailStep(s, pos, end);
    SegmentPairsStep(s, pos + 1, end);
    if end < |s| {
      TailIsSegments(s, end);
      calc {
        Present(PairsTail(s, pos).value);
        [first] + Present(PairsTail(s, end).value);
        [first] + SegmentPairs(Segments(s, end + 1));
        SegmentPairs(Segments(s, pos + 1));
      }
    } else {
      assert PairsTail(s, end).value == [];
      calc {
        Present(PairsTail(s, pos).value);
        [first] + Present(PairsTail(s, end).value);
        [first] + [];
        SegmentPairs(Segments(s, pos + 1));
      }
    }
  }

  /** The first pair and the tail, before empty names are dropped, are the segment pairs. */
  lemma RawPairsAreSegments(s: string, pos: nat)
    requires pos <= |s|
    ensures var end := RunEnd(s, pos, PairStops);
      [SegmentPair(s[pos..end])] + Present(PairsTail(s, end).value) == SegmentPairs(Segments(s, pos))
  {
    var end := RunEnd(s, pos, PairStops);
    SegmentPairsStep(s, pos, end);
    if end < |s| {
      TailIsSegments(s, end);
    } else {
      assert Present(PairsTail(s, end).value) == [];
    }
  }

  /** The pairs production drops the empty-named pairs of the first pair and the tail. */
  lemma PairsUnfold(s: string, pos: nat)
    requires pos <= |s|
    ensures var end := RunEnd(s, pos, PairStops);
      Pairs(s, pos).value == DropUnnamed([SegmentPair(s[pos..end])] + Present(PairsTail(s, end).value))
  {
    PairIsSegment(s, pos);
  }

  /** The pairs production yields the named pairs of the segments, in order. */
  lemma PairsIsSegments(s: string, pos: nat)
    requires pos <= |s|
    ensures Pairs(s, pos).value == DropUnnamed(SegmentPairs(Segments(s, pos)))
  {
    PairsUnfold(s, pos);
    RawPairsAreSegments(s, pos);
  }

  /** The optional anchor ends at the first `?`, and holds what lies between `#` and it. */
  lemma AnchorPart(s: string)
    ensures var pathEnd := RunEnd(s, 0, PathStops);
      Optional(Anchor(s, pathEnd), pathEnd).next == RunEnd(s, 0, AnchorStops)
    ensures var pathEnd := RunEnd(s, 0, PathStops);
      Optional(Anchor(s, pathEnd), pathEnd).value.GetOr("") == AnchorBetween(s, pathEnd, RunEnd(s, 0, AnchorStops))
  {
    var pathEnd := RunEnd(s, 0, PathStops);
    var anchor := Anchor(s, pathEnd);
    if anchor.Ok? {
      RunEndUnique(s, 0, AnchorStops, anchor.next);
    } else {
      RunEndUnique(s, 0, AnchorStops, pathEnd);
    }
  }

  /** The optional parameters are the query's parameters, or none without a `?`. */
  lemma ParamsPart(s: string)
    ensures var query := RunEnd(s, 0, AnchorStops);
      Optional(Params(s, query), query).value.GetOr([]) == ParamsAfter(s, query)
  {
    var query := RunEnd(s, 0, AnchorStops);
    if query < |s| {
      ParamsFolded(s, query);
      PairsIsSegments(s, query + 1);
      ParamsAfterQuery(s, query);
    }
  }

  /** After a `?`, the parameters are the pairs folded by `toMap()`. */
  lemma ParamsFolded(s: string, pos: nat)
    requires pos < |s| && s[pos] == '?'
    ensures Params(s, pos) == Ok(ToMap(Pairs(s, pos + 1).value), |s|)
  {
    var pairs := Optional(Pairs(s, pos + 1), pos + 1);
    assert Literal(s, pos, '?') == Ok('?', pos + 1);
    assert pairs == Ok(Some(Pairs(s, pos + 1).value), |s|);
  }

  /** The grammar computes SplitURI, and it succeeds on every input. */
  lemma ParseIsSplit(s: string)
    ensures Parse(s) == Some(SplitURI(s))
  {
    AnchorPart(s);
    ParamsPart(s);
  }
}
