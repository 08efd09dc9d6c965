/**
  What the URI grammar promises its users: the parts of a parse, the way query
  pairs are split, filtered and folded into a map, and the round trip through
  `toString()`.
 */
module UriProperties {
  import opened Parsing
  import opened Assoc
  import opened Uri
  import opened UriReference

  // ------------------------------------------------------------------- parts

  /**
    The path is the longest prefix of the text holding neither `#` nor `?`.
   */
  lemma PathIsLongestPrefix(s: string)
    ensures var p := Parse(s).value.path;
      p <= s && '#' !in p && '?' !in p && (|p| == |s| || s[|p|] in PathStops)
  {
    ParseIsSplit(s);
  }

  /**
    When the path ends at a `#`, the anchor is everything after it up to the
    first `?` (or the end of the text).
   */
  lemma AnchorRunsToQuestionMark(s: string, hash: nat, query: nat)
    requires hash < query <= |s| && s[hash] == '#'
    requires forall k :: 0 <= k < hash ==> s[k] != '#' && s[k] != '?'
    requires forall k :: hash < k < query ==> s[k] != '?'
    requires query == |s| || s[query] == '?'
    ensures Parse(s).value.anchor == s[hash + 1 .. query]
  {
    ParseIsSplit(s);
    SplitAnchorAt(s, hash, query);
  }

  lemma SplitAnchorAt(s: string, hash: nat, query: nat)
    requires hash < query <= |s| && s[hash] == '#'
    requires forall k :: 0 <= k < hash ==> s[k] != '#' && s[k] != '?'
    requires forall k :: hash < k < query ==> s[k] != '?'
    requires query == |s| || s[query] == '?'
    ensures SplitURI(s).anchor == s[hash + 1 .. query]
  {
    SplitURIParts(s);
    RunEndUnique(s, 0, PathStops, hash);
    RunEndUnique(s, 0, AnchorStops, query);
    AnchorBetweenCut(s, hash, query);
  }

  /** When the path ends at a `?` or at the end of the text, there is no anchor. */
  lemma NoHashNoAnchor(s: string, pathEnd: nat)
    requires pathEnd <= |s|
    requires forall k :: 0 <= k < pathEnd ==> s[k] != '#' && s[k] != '?'
    requires pathEnd == |s| || s[pathEnd] == '?'
    ensures Parse(s).value.anchor == ""
  {
    ParseIsSplit(s);
    RunEndUnique(s, 0, PathStops, pathEnd);
    RunEndUnique(s, 0, AnchorStops, pathEnd);
  }

  /** Without a `?` there are no parameters. */
  lemma NoQuestionMarkNoParams(s: string)
    requires '?' !in s
    ensures Parse(s).value.params == []
  {
    ParseIsSplit(s);
    RunEndUnique(s, 0, AnchorStops, |s|);
  }

  /**
    After the first `?`, the parameters are the query cut at every `&`, each
    segment split at its first `=`, empty names dropped, folded by `toMap()`.
   */
  lemma ParamsAfterFirstQuestionMark(s: string, query: nat)
    requires query < |s| && s[query] == '?'
    requires forall k :: 0 <= k < query ==> s[k] != '?'
    ensures Parse(s).value.params == QueryParams(s, query + 1)
  {
    ParseIsSplit(s);
    RunEndUnique(s, 0, AnchorStops, query);
    assert Parse(s).value.params == ParamsAfter(s, RunEnd(s, 0, AnchorStops));
    ParamsAfterQuery(s, query);
  }

  // ------------------------------------------------------------------ pairs

  /**
    `pairWithoutValue` never decides a pair: whenever it matches,
    `pairWithValue` matches too and is tried first, so a pair is read
    with a value, or else as a bare name.
   */
  lemma PairWithoutValueShadowed(s: string, pos: nat)
    requires pos <= |s|
    ensures PairWithoutValue(s, pos).Ok? ==> PairWithValue(s, pos).Ok?
    ensures PairWithValue(s, pos).Ok? ==> Pair(s, pos) == PairWithValue(s, pos)
    ensures PairWithValue(s, pos).Fail? ==> Pair(s, pos) == PairWithoutEqualsSign(s, pos)
  {
  }

  /**
    A segment `x` and a segment `x=` both read as the name `x` with the empty
    value; a segment with `=` splits at its first `=`.
   */
  lemma SegmentShapes(name: string, value: string)
    requires '=' !in name
    ensures SegmentPair(name) == (name, "")
    ensures SegmentPair(name + "=") == (name, "")
    ensures SegmentPair(name + "=" + value) == (name, value)
  {
    SplitAtFirstEquals(SegmentPair(name + "="), (name, ""));
    SplitAtFirstEquals(SegmentPair(name + "=" + value), (name, value));
  }

  /**
    For a key of the query, the parameters hold the value of its last
    occurrence among the named pairs.
   */
  lemma LaterDuplicateWins(s: string, from: nat, j: nat)
    requires from <= |s|
    requires var named := DropUnnamed(SegmentPairs(Segments(s, from)));
      j < |named| && forall i :: j < i < |named| ==> named[i].0 != named[j].0
    ensures var named := DropUnnamed(SegmentPairs(Segments(s, from)));
      var m := AsMap(QueryParams(s, from));
      named[j].0 in m && m[named[j].0] == named[j].1
  {
    var named := DropUnnamed(SegmentPairs(Segments(s, from)));
    ToMapView(named);
    LastWinsAt(named, j);
  }

  /** The parameters list their keys in the order the keys first occur in the query. */
  lemma ParamsInFirstOccurrenceOrder(s: string, from: nat)
    requires from <= |s|
    ensures var named := DropUnnamed(SegmentPairs(Segments(s, from)));
      var ps := QueryParams(s, from);
      forall i, j :: 0 <= i < j < |ps| ==> KeyIndex(named, ps[i].0) < KeyIndex(named, ps[j].0)
  {
    ToMapOrder(DropUnnamed(SegmentPairs(Segments(s, from))));
  }

  // ------------------------------------------------------------- round trip

  /** Cutting a text made of `&`-free parts joined by `&` gives back the parts. */
  lemma {:induction false} SegmentsOfJoined(s: string, from: nat, parts: seq<string>)
    requires from <= |s| && parts != []
    requires forall i :: 0 <= i < |parts| ==> '&' !in parts[i]
    requires s[from..] == Joined(parts)
    ensures Segments(s, from) == parts
    decreases |parts|
  {
    if |parts| == 1 {
      LastSegment(s, from, parts[0]);
      assert [parts[0]] == parts;
    } else {
      var head, tail := parts[0], parts[1..];
      assert parts == [head] + tail;
      JoinedCons(head, tail);
      assert head + "&" + Joined(tail) == head + ("&" + Joined(tail));
      NextSegment(s, from, head, Joined(tail));
      SegmentsOfJoined(s, from + |head| + 1, tail);
    }
  }

  /** A text without `&` is a single segment. */
  lemma LastSegment(s: string, from: nat, part: string)
    requires from <= |s| && s[from..] == part && '&' !in part
    ensures Segments(s, from) == [part]
  {
    assert forall k :: 0 <= k < |part| ==> part[k] !in PairStops;
    RunEndAfter(s, from, part, "", PairStops);
    SegmentsStep(s, from, |s|);
  }

  /** A text `part&rest` is cut after `part`, and the cutting goes on in `rest`. */
  lemma NextSegment(s: string, from: nat, part: string, rest: string)
    requires from <= |s| && s[from..] == part + ("&" + rest) && '&' !in part
    ensures from + |part| < |s| && s[from + |part| + 1..] == rest
    ensures Segments(s, from) == [part] + Segments(s, from + |part| + 1)
  {
    SliceOfConcat(s, from, part, "&" + rest);
    SliceOfConcat(s, from + |part|, "&", rest);
    assert forall k :: 0 <= k < |part| ==> part[k] !in PairStops;
    RunEndAfter(s, from, part, "&" + rest, PairStops);
    SegmentAt(s, from, part);
  }

  /** A segment known to end before an `&` is followed by the segments after that `&`. */
  lemma SegmentAt(s: string, from: nat, part: string)
    requires from <= |s| && from + |part| == RunEnd(s, from, PairStops) < |s|
    requires s[from..from + |part|] == part
    ensures Segments(s, from) == [part] + Segments(s, from + |part| + 1)
  {
    SegmentsStep(s, from, from + |part|);
  }

  /** Reading rendered entries back as segments gives the entries. */
  lemma {:induction false} SegmentPairsOfTexts(ps: seq<Entry>)
    requires forall i :: 0 <= i < |ps| ==> '=' !in ps[i].0
    ensures SegmentPairs(EntryTexts(ps)) == ps
    decreases |ps|
  {
    if ps != [] {
      SplitAtFirstEquals(SegmentPair(EntryText(ps[0])), ps[0]);
      assert EntryTexts(ps)[1..] == EntryTexts(ps[1..]);
      SegmentPairsOfTexts(ps[1..]);
    }
  }

  /** In a rendered URI the path ends where the path was. */
  lemma RenderedPathEnd(u: URI)
    requires WellFormed(u)
    ensures RunEnd(ToString(u), 0, PathStops) == |u.path|
  {
    var s := ToString(u);
    var rest := AnchorText(u) + QueryText(u);
    assert s[0..] == u.path + rest;
    assert rest == [] || rest[0] in PathStops;
    RunEndAfter(s, 0, u.path, rest, PathStops);
  }

  /** In a rendered URI the first `?` is the one that starts the parameters. */
  lemma RenderedQueryStart(u: URI)
    requires WellFormed(u)
    ensures RunEnd(ToString(u), 0, AnchorStops) == |u.path| + |AnchorText(u)|
  {
    var s := ToString(u);
    var head := u.path + AnchorText(u);
    assert s[0..] == head + QueryText(u);
    assert forall k :: 0 <= k < |head| ==> head[k] !in AnchorStops by {
      assert forall k :: 0 <= k < |u.path| ==> head[k] == u.path[k];
      if u.anchor != "" {
        assert forall k :: |u.path| < k < |head| ==> head[k] == u.anchor[k - |u.path| - 1];
      }
    }
    RunEndAfter(s, 0, head, QueryText(u), AnchorStops);
  }

  /** The joined entries after a `?` read back as the entries. */
  lemma JoinedEntriesParams(ps: seq<Entry>, s: string, from: nat)
    requires WellFormedParams(ps) && ps != []
    requires from <= |s| && s[from..] == Joined(EntryTexts(ps))
    ensures QueryParams(s, from) == ps
  {
    var texts := EntryTexts(ps);
    forall i | 0 <= i < |texts| ensures '&' !in texts[i] {
      assert NoSeparators(ps[i]);
    }
    SegmentsOfJoined(s, from, texts);
    SegmentPairsOfTexts(ps);
    ToMapOfUnique(ps);
  }

  /** The query of a rendered URI, after its first `?`, reads back as its parameters. */
  lemma RenderedParams(u: URI)
    requires WellFormed(u) && u.params != []
    ensures var s := ToString(u);
      RunEnd(s, 0, AnchorStops) < |s| && QueryParams(s, RunEnd(s, 0, AnchorStops) + 1) == u.params
  {
    var s := ToString(u);
    var query := RunEnd(s, 0, AnchorStops);
    RenderedQueryText(u);
    JoinedEntriesParams(u.params, s, query + 1);
    assert QueryParams(s, query + 1) == u.params;
  }

  /** The path of a rendered URI reads back as its path. */
  lemma RenderedPath(u: URI)
    requires WellFormed(u)
    ensures SplitURI(ToString(u)).path == u.path
  {
    var s := ToString(u);
    RenderedPathEnd(u);
    SplitURIParts(s);
    assert s[..|u.path|] == u.path;
  }

  /** The anchor of a rendered URI reads back as its anchor. */
  lemma RenderedAnchor(u: URI)
    requires WellFormed(u)
    ensures SplitURI(ToString(u)).anchor == u.anchor
  {
    var s := ToString(u);
    var query := |u.path| + |AnchorText(u)|;
    RenderedPathEnd(u);
    RenderedQueryStart(u);
    SplitURIParts(s);
    if u.anchor != "" {
      AnchorBetweenCut(s, |u.path|, query);
      assert s[|u.path| + 1 .. query] == u.anchor;
    } else {
      AnchorBetweenNone(s, |u.path|, query);
    }
  }

  /** The query of a rendered URI reads back as its parameters. */
  lemma RenderedQuery(u: URI)
    requires WellFormed(u)
    ensures SplitURI(ToString(u)).params == u.params
  {
    if u.params != [] {
      RenderedQueryParams(u);
    } else {
      RenderedNoQuery(u);
    }
  }

  lemma RenderedQueryParams(u: URI)
    requires WellFormed(u) && u.params != []
    ensures SplitURI(ToString(u)).params == u.params
  {
    var s := ToString(u);
    RenderedParams(u);
    SplitURIParts(s);
    ParamsAfterQuery(s, RunEnd(s, 0, AnchorStops));
  }

  lemma RenderedNoQuery(u: URI)
    requires WellFormed(u) && u.params == []
    ensures SplitURI(ToString(u)).params == []
  {
    var s := ToString(u);
    RenderedQueryStart(u);
    SplitURIParts(s);
    assert |s| == |u.path| + |AnchorText(u)|;
    ParamsAfterNone(s);
  }

  /** After the first `?` of a rendered URI come its joined entries. */
  lemma RenderedQueryText(u: URI)
    requires WellFormed(u) && u.params != []
    ensures var s := ToString(u);
      RunEnd(s, 0, AnchorStops) < |s| && s[RunEnd(s, 0, AnchorStops) + 1..] == Joined(EntryTexts(u.params))
  {
    var head := u.path + AnchorText(u);
    RenderedQueryStart(u);
    assert ToString(u) == head + "?" + Joined(EntryTexts(u.params));
  }

  /**
    Rendering a well-formed URI and parsing the text gives back the same URI,
    with its parameters in the same order.
   */
  lemma RoundTrip(u: URI)
    requires WellFormed(u)
    ensures Parse(ToString(u)) == Some(u)
  {
    ParseIsSplit(ToString(u));
    RenderedPath(u);
    RenderedAnchor(u);
    RenderedQuery(u);
  }

  /** In particular the data class's own `equals` holds between the two. */
  lemma RoundTripEquals(u: URI)
    requires WellFormed(u)
    ensures Parse(ToString(u)).Some? && UniqueKeys(Parse(ToString(u)).value.params)
    ensures SameURI(Parse(ToString(u)).value, u)
  {
    RoundTrip(u);
  }

  /** `parse(toString(parse(s))) == parse(s)`, for every text. */
  lemma Idempotent(s: string)
    ensures Parse(ToString(Parse(s).value)) == Parse(s)
  {
    RoundTrip(Parse(s).value);
  }

  // --------------------------------------------------------------- examples

  /** A text made of a path, `?` and `&`-free segments reads as those segments' pairs. */
  lemma PathAndQuery(path: string, segs: seq<string>)
    requires '#' !in path && '?' !in path
    requires segs != [] && forall i :: 0 <= i < |segs| ==> '&' !in segs[i]
    ensures Parse(path + "?" + Joined(segs)) == Some(URI(path, "", ToMap(DropUnnamed(SegmentPairs(segs)))))
  {
    var s := path + "?" + Joined(segs);
    PathAndQueryParts(path, segs);
    ParseIsSplit(s);
  }

  lemma PathAndQueryParts(path: string, segs: seq<string>)
    requires '#' !in path && '?' !in path
    requires segs != [] && forall i :: 0 <= i < |segs| ==> '&' !in segs[i]
    ensures SplitURI(path + "?" + Joined(segs)) == URI(path, "", ToMap(DropUnnamed(SegmentPairs(segs))))
  {
    var s := path + "?" + Joined(segs);
    PathBeforeQuery(path, Joined(segs));
    SplitURIParts(s);
    AnchorBetweenNone(s, |path|, |path|);
    QueryAfterPath(path, segs);
  }

  /** In `path?query`, both the path and the run up to the first `?` end at the `?`. */
  lemma PathBeforeQuery(path: string, query: string)
    requires '#' !in path && '?' !in path
    ensures var s := path + "?" + query;
      RunEnd(s, 0, PathStops) == |path| && RunEnd(s, 0, AnchorStops) == |path| && s[..|path|] == path
  {
    var s := path + "?" + query;
    assert s[0..] == path + ("?" + query);
    RunEndAfter(s, 0, path, "?" + query, PathStops);
    RunEndAfter(s, 0, path, "?" + query, AnchorStops);
  }

  /** In `path?query`, the parameters are those of the query's segments. */
  lemma QueryAfterPath(path: string, segs: seq<string>)
    requires '#' !in path && '?' !in path
    requires segs != [] && forall i :: 0 <= i < |segs| ==> '&' !in segs[i]
    ensures var s := path + "?" + Joined(segs);
      ParamsAfter(s, |path|) == ToMap(DropUnnamed(SegmentPairs(segs)))
  {
    var s := path + "?" + Joined(segs);
    ParamsAfterQuery(s, |path|);
    assert s[|path| + 1..] == Joined(segs);
    SegmentsOfJoined(s, |path| + 1, segs);
  }

  lemma JoinedTwo(a: string, b: string)
    ensures Joined([a, b]) == a + "&" + b
  {
    assert [a, b][1..] == [b];
  }

  lemma SegmentPairsTwo(a: string, b: string)
    ensures SegmentPairs([a, b]) == [SegmentPair(a), SegmentPair(b)]
  {
    SegmentPairsCons(b, []);
    assert [b] + [] == [b];
    SegmentPairsCons(a, [b]);
    assert [a] + [b] == [a, b];
  }

  /** A query of two segments reads as their two pairs, named ones kept, folded by `toMap()`. */
  lemma TwoSegments(path: string, a: string, b: string)
    requires '#' !in path && '?' !in path && '&' !in a && '&' !in b
    ensures Parse(path + "?" + a + "&" + b)
      == Some(URI(path, "", ToMap(DropUnnamed([SegmentPair(a), SegmentPair(b)]))))
  {
    JoinedTwo(a, b);
    assert path + "?" + a + "&" + b == path + "?" + Joined([a, b]);
    PathAndQuery(path, [a, b]);
    SegmentPairsTwo(a, b);
  }

  /**
    A bare name and a name followed by `=` both get the empty value; the text
    rendered from the result spells both as `name=` (see BareNameRendered).
   */
  lemma BareNameAndEmptyValue(path: string, x: string, y: string)
    requires '#' !in path && '?' !in path
    requires x != "" && y != "" && x != y && NoSeparators((x, "")) && NoSeparators((y, ""))
    ensures Parse(path + "?" + x + "&" + y + "=") == Some(URI(path, "", [(x, ""), (y, "")]))
  {
    assert path + "?" + x + "&" + y + "=" == path + "?" + x + "&" + (y + "=");
    TwoSegments(path, x, y + "=");
    BareNamePairs(x, y);
  }

  lemma BareNamePairs(x: string, y: string)
    requires x != "" && y != "" && x != y && '=' !in x && '=' !in y
    ensures ToMap(DropUnnamed([SegmentPair(x), SegmentPair(y + "=")])) == [(x, ""), (y, "")]
  {
    var ps := [(x, ""), (y, "")];
    SegmentShapes(x, "");
    SegmentShapes(y, "");
    assert DropUnnamed(ps) == ps;
    ToMapOfUnique(ps);
  }

  /** The round trip is not a text identity: `x&y=` comes back as `x=&y=`. */
  lemma BareNameRendered(path: string, x: string, y: string)
    ensures ToString(URI(path, "", [(x, ""), (y, "")])) == path + "?" + (x + "=") + "&" + (y + "=")
  {
    RenderedTwo(path, (x, ""), (y, ""));
    EmptyValueText(x);
    EmptyValueText(y);
  }

  lemma EmptyValueText(x: string)
    ensures EntryText((x, "")) == x + "="
  {
  }

  lemma RenderedTwo(path: string, e: Entry, f: Entry)
    ensures ToString(URI(path, "", [e, f])) == path + "?" + EntryText(e) + "&" + EntryText(f)
  {
    assert EntryTexts([e, f]) == [EntryText(e), EntryText(f)];
    JoinedTwo(EntryText(e), EntryText(f));
  }

  /** A pair with the empty name is dropped; the pair after it is kept. */
  lemma EmptyNameDropped(path: string, v: string, x: string, w: string)
    requires '#' !in path && '?' !in path
    requires x != "" && NoSeparators(("", v)) && NoSeparators((x, w))
    ensures Parse(path + "?=" + v + "&" + x + "=" + w) == Some(URI(path, "", [(x, w)]))
  {
    assert path + "?=" + v + "&" + x + "=" + w == path + "?" + ("=" + v) + "&" + (x + "=" + w);
    TwoSegments(path, "=" + v, x + "=" + w);
    SegmentShapes("", v);
    SegmentShapes(x, w);
    assert "" + "=" + v == "=" + v;
    assert DropUnnamed([("", v), (x, w)]) == [(x, w)] by {
      assert [("", v), (x, w)][1..] == [(x, w)];
    }
    ToMapOfUnique([(x, w)]);
  }

  /** A trailing `&` is tolerated: the empty segment after it is dropped. */
  lemma TrailingAmpersand(path: string, x: string, v: string)
    requires '#' !in path && '?' !in path
    requires x != "" && NoSeparators((x, v))
    ensures Parse(path + "?" + x + "=" + v + "&") == Some(URI(path, "", [(x, v)]))
  {
    assert path + "?" + x + "=" + v + "&" == path + "?" + (x + "=" + v) + "&" + "";
    TwoSegments(path, x + "=" + v, "");
    SegmentShapes(x, v);
    SegmentShapes("", "");
    assert DropUnnamed([(x, v), ("", "")]) == [(x, v)] by {
      assert [(x, v), ("", "")][1..] == [("", "")];
    }
    ToMapOfUnique([(x, v)]);
  }

  /** A `?` followed by nothing gives no parameters. */
  lemma QuestionMarkAlone(path: string)
    requires '#' !in path && '?' !in path
    ensures Parse(path + "?") == Some(URI(path, "", []))
  {
    assert path + "?" == path + "?" + Joined([""]);
    PathAndQuery(path, [""]);
    SegmentShapes("", "");
    assert SegmentPairs([""]) == [("", "")] by {
      assert [""][1..] == [];
    }
    assert DropUnnamed([("", "")]) == [] by {
      assert [("", "")][1..] == [];
    }
  }

  /** Of two pairs with the same name, the later value wins. */
  lemma DuplicateOverwrites(path: string, x: string, v: string, w: string)
    requires '#' !in path && '?' !in path
    requires x != "" && NoSeparators((x, v)) && NoSeparators((x, w))
    ensures Parse(path + "?" + x + "=" + v + "&" + x + "=" + w) == Some(URI(path, "", [(x, w)]))
  {
    assert path + "?" + x + "=" + v + "&" + x + "=" + w == path + "?" + (x + "=" + v) + "&" + (x + "=" + w);
    TwoSegments(path, x + "=" + v, x + "=" + w);
    SegmentShapes(x, v);
    SegmentShapes(x, w);
    ToMapOverwrite(x, v, w);
  }

  lemma ToMapOverwrite(x: string, v: string, w: string)
    ensures ToMap([(x, v), (x, w)]) == [(x, w)]
  {
    assert [(x, v), (x, w)][..1] == [(x, v)];
    assert [(x, v)][..0] == [];
    assert ToMap([(x, v)]) == [(x, v)];
  }

  /** A text with neither `#` nor `?` is all path. */
  lemma PathOnly(s: string)
    requires '#' !in s && '?' !in s
    ensures Parse(s) == Some(URI(s, "", []))
  {
    RoundTrip(URI(s, "", []));
  }

  /** `p#a` is the path `p` with the anchor `a`; `p#` has the empty anchor. */
  lemma PathAndAnchor(p: string, a: string)
    requires '#' !in p && '?' !in p && '?' !in a
    ensures Parse(p + "#" + a) == Some(URI(p, a, []))
  {
    ParseIsSplit(p + "#" + a);
    PathAndAnchorParts(p, a);
  }

  lemma PathAndAnchorParts(p: string, a: string)
    requires '#' !in p && '?' !in p && '?' !in a
    ensures SplitURI(p + "#" + a) == URI(p, a, [])
  {
    var s := p + "#" + a;
    PathAndAnchorEnds(p, a);
    SplitURIParts(s);
    AnchorBetweenCut(s, |p|, |s|);
    ParamsAfterNone(s);
    SliceOfConcat(s, 0, p, "#" + a);
    SliceOfConcat(s, |p|, "#", a);
  }

  /** In `p#a`, the path ends at the `#` and there is no `?`. */
  lemma PathAndAnchorEnds(p: string, a: string)
    requires '#' !in p && '?' !in p && '?' !in a
    ensures var s := p + "#" + a;
      RunEnd(s, 0, PathStops) == |p| && RunEnd(s, 0, AnchorStops) == |s|
  {
    var s := p + "#" + a;
    assert s[0..] == p + ("#" + a);
    RunEndAfter(s, 0, p, "#" + a, PathStops);
    assert s[0..] == s + "";
    assert forall k :: 0 <= k < |s| ==> s[k] !in AnchorStops by {
      assert forall k :: 0 <= k < |p| ==> s[k] == p[k];
      assert forall k :: |p| < k < |s| ==> s[k] == a[k - |p| - 1];
    }
    RunEndAfter(s, 0, s, "", AnchorStops);
  }

  /**
    `p#a?x=v`: the anchor stops at the `?` and the pair follows it. The empty
    anchor of `p#?x=v` is covered by AnchorRunsToQuestionMark, which holds for
    every text whose path ends at `#`.
   */
  lemma AnchorThenQuery(p: string, a: string, x: string, v: string)
    requires '#' !in p && '?' !in p && '?' !in a && a != ""
    requires x != "" && NoSeparators((x, v))
    ensures Parse(p + "#" + a + "?" + x + "=" + v) == Some(URI(p, a, [(x, v)]))
  {
    var u := URI(p, a, [(x, v)]);
    assert EntryTexts(u.params) == [x + "=" + v];
    assert ToString(u) == p + "#" + a + "?" + x + "=" + v;
    RoundTrip(u);
  }

  /** `parse("a?x=1&y=2")` and back. */
  lemma ExampleTwoPairs()
    ensures Parse("a?x=1&y=2") == Some(URI("a", "", [("x", "1"), ("y", "2")]))
    ensures ToString(URI("a", "", [("x", "1"), ("y", "2")])) == "a?x=1&y=2"
  {
    var u := URI("a", "", [("x", "1"), ("y", "2")]);
    RenderedTwo("a", ("x", "1"), ("y", "2"));
    assert ToString(u) == "a?x=1&y=2";
    RoundTrip(u);
  }

}
