/**
  The simplified URI dialect `path[#anchor][?name=value&...]`: the parsed
  value, its rendering back to text, and every production of the grammar as a
  function from the input and a cursor position to a parse outcome.
 */
module Uri {
  import opened Parsing
  import opened Assoc

  /** One `name=value` unit of the query (Kotlin's `Pair<String, String>`). */
  type Entry = (string, string)

  /**
    The parsed value. `anchor == ""` stands for "no anchor"; `params` is an
    insertion-ordered map, listed in the order its keys were first seen.
   */
  datatype URI = URI(path: string, anchor: string, params: seq<Entry>)

  /** Where the path stops: at the first `#` or `?`. */
  const PathStops: set<char> := {'#', '?'}

  /** Where the anchor stops: at the first `?`. */
  const AnchorStops: set<char> := {'?'}

  /** Where a parameter name stops: at `&` or `=`. */
  const NameStops: set<char> := {'&', '='}

  /** Where a pair, and so a parameter value, stops: at `&`. */
  const PairStops: set<char> := {'&'}

  /** Where a query segment is split into name and value: at its first `=`. */
  const SplitStops: set<char> := {'='}

  /** A name and a value that can be written as `name=value` inside a query. */
  predicate NoSeparators(e: Entry) {
    '&' !in e.0 && '=' !in e.0 && '&' !in e.1
  }

  /** The parameters a parse can produce: named, separator-free, unique keys. */
  predicate WellFormedParams(ps: seq<Entry>) {
    && UniqueKeys(ps)
    && forall i :: 0 <= i < |ps| ==> ps[i].0 != "" && NoSeparators(ps[i])
  }

  /** The values a parse can produce. */
  predicate WellFormed(u: URI) {
    && '#' !in u.path && '?' !in u.path
    && '?' !in u.anchor
    && WellFormedParams(u.params)
  }

  /**
    Structural equality of the Kotlin data class: `params` compares as a map,
    so the order of its entries does not matter.
   */
  predicate SameURI(u: URI, v: URI): (same: bool)
    requires UniqueKeys(u.params) && UniqueKeys(v.params)
    ensures u == v ==> same
    ensures same ==> u.path == v.path && u.anchor == v.anchor
  {
    u.path == v.path && u.anchor == v.anchor && AsMap(u.params) == AsMap(v.params)
  }

  /** Two values listing the same entries in different orders are equal. */
  lemma SameURIIgnoresOrder(u: URI, v: URI)
    requires UniqueKeys(u.params) && UniqueKeys(v.params)
    requires u.path == v.path && u.anchor == v.anchor
    requires forall e :: e in u.params <==> e in v.params
    ensures SameURI(u, v)
  {
    AsMapOfSubset(u.params, v.params);
    AsMapOfSubset(v.params, u.params);
    assert AsMap(u.params) == AsMap(v.params);
  }

  /** Equal values list the same entries, perhaps in different orders. */
  lemma SameURIHasSameEntries(u: URI, v: URI)
    requires UniqueKeys(u.params) && UniqueKeys(v.params) && SameURI(u, v)
    ensures forall e :: e in u.params <==> e in v.params
  {
    EntriesOfAsMap(u.params, v.params);
    EntriesOfAsMap(v.params, u.params);
  }

  // ---------------------------------------------------------------- rendering

  /** `key=value`. */
  function EntryText(e: Entry): string {
    e.0 + "=" + e.1
  }

  /** Each entry rendered as `key=value`, in order. */
  function EntryTexts(ps: seq<Entry>): (r: seq<string>)
    ensures |r| == |ps| && forall i :: 0 <= i < |ps| ==> r[i] == EntryText(ps[i])
  {
    seq(|ps|, i requires 0 <= i < |ps| => EntryText(ps[i]))
  }

  /** `joinToString(separator = "&")`. */
  function Joined(parts: seq<string>): string {
    if parts == [] then ""
    else if |parts| == 1 then parts[0]
    else parts[0] + "&" + Joined(parts[1..])
  }

  /** Joining `&`-free parts puts an `&` in the text exactly when there are several. */
  lemma JoinedSeparators(parts: seq<string>)
    ensures (forall i :: 0 <= i < |parts| ==> '&' !in parts[i]) ==> ('&' in Joined(parts) <==> |parts| > 1)
  {
    if |parts| > 1 {
      var r := Joined(parts);
      assert r[|parts[0]|] == '&';
    }
  }

  /** `anchorString`: `#` and the anchor, or nothing when the anchor is empty. */
  function AnchorText(u: URI): (r: string)
    ensures r == "" <==> u.anchor == ""
    ensures u.anchor != "" ==> r == "#" + u.anchor
  {
    if u.anchor == "" then "" else "#" + u.anchor
  }

  /** `paramsString`: `?` and the entries joined by `&`, or nothing when there are none. */
  function QueryText(u: URI): (r: string)
    ensures r == "" <==> u.params == []
    ensures r != "" ==> r[0] == '?'
    ensures WellFormedParams(u.params) ==> ('&' in r <==> |u.params| > 1)
  {
    JoinedSeparators(EntryTexts(u.params));
    if u.params == [] then "" else "?" + Joined(EntryTexts(u.params))
  }

  /** `toString()`: the path, then the anchor part, then the parameters part. */
  function ToString(u: URI): (r: string)
    ensures |u.path| <= |r| && forall k :: 0 <= k < |u.path| ==> r[k] == u.path[k]
    ensures u.anchor != "" ==> |u.path| < |r| && r[|u.path|] == '#'
    ensures u.anchor == "" && u.params != [] ==> |u.path| < |r| && r[|u.path|] == '?'
    ensures u.anchor == "" && u.params == [] ==> r == u.path
  {
    u.path + AnchorText(u) + QueryText(u)
  }

  // -------------------------------------------------------------- productions

  /** `paramName`: the maximal run of characters other than `&` and `=`. */
  function ParamName(s: string, pos: nat): (r: Parsed<string>)
    requires pos <= |s|
    ensures r.Ok? && Spans(s, pos, r.next, r.value)
    ensures '&' !in r.value && '=' !in r.value
    ensures r.next == |s| || s[r.next] in NameStops
  {
    Run(s, pos, NameStops)
  }

  /** `paramValue`: the maximal run of characters other than `&`. */
  function ParamValue(s: string, pos: nat): (r: Parsed<string>)
    requires pos <= |s|
    ensures r.Ok? && Spans(s, pos, r.next, r.value)
    ensures '&' !in r.value
    ensures r.next == |s| || s[r.next] == '&'
  {
    Run(s, pos, PairStops)
  }

  /** `pairWithoutEqualsSign`: a bare name, with the empty value. */
  function PairWithoutEqualsSign(s: string, pos: nat): (r: Parsed<Entry>)
    requires pos <= |s|
    ensures r.Ok? && r.value.1 == "" && r.next == ParamName(s, pos).next
    ensures Spans(s, pos, r.next, r.value.0) && '&' !in r.value.0 && '=' !in r.value.0
  {
    var name := ParamName(s, pos);
    Ok((name.value, ""), name.next)
  }

  /** `pairWithoutValue`: a name followed by `=`, with the empty value. */
  function PairWithoutValue(s: string, pos: nat): (r: Parsed<Entry>)
    requires pos <= |s|
    ensures var n := ParamName(s, pos).next; r.Ok? <==> n < |s| && s[n] == '='
    ensures r.Ok? ==> r.value.1 == "" && r.next == ParamName(s, pos).next + 1
    ensures r.Ok? ==> Spans(s, pos, r.next, r.value.0 + "=") && '=' !in r.value.0
  {
    var name := ParamName(s, pos);
    var sign := Literal(s, name.next, '=');
    if sign.Fail? then Fail else Ok((name.value, ""), sign.next)
  }

  /**
    `pairWithValue`: a name, `=`, and a value running to the next `&`; the
    value may itself hold `=`, `#` or `?`.
   */
  function PairWithValue(s: string, pos: nat): (r: Parsed<Entry>)
    requires pos <= |s|
    ensures var n := ParamName(s, pos).next; r.Ok? <==> n < |s| && s[n] == '='
    ensures r.Ok? ==> pos < r.next && Spans(s, pos, r.next, EntryText(r.value))
    ensures r.Ok? ==> '=' !in r.value.0 && NoSeparators(r.value)
    ensures r.Ok? ==> r.next == |s| || s[r.next] == '&'
  {
    var name := ParamName(s, pos);
    var sign := Literal(s, name.next, '=');
    if sign.Fail? then Fail
    else
      var value := ParamValue(s, sign.next);
      assert s[pos..value.next] == s[pos..name.next] + "=" + s[sign.next..value.next];
      Ok((name.value, value.value), value.next)
  }

  /**
    A query segment read as a pair: split at its first `=`, or the whole
    segment with the empty value when it holds no `=`.
   */
  function SegmentPair(seg: string): (e: Entry)
    ensures '=' !in e.0
    ensures '=' in seg ==> EntryText(e) == seg
    ensures '=' !in seg ==> e == (seg, "")
  {
    var i := RunEnd(seg, 0, SplitStops);
    if i == |seg| then (seg, "")
    else
      assert seg == seg[..i] + "=" + seg[i + 1..];
      (seg[..i], seg[i + 1..])
  }

  /** A text with one `=` outside its name splits there and nowhere else. */
  lemma SplitAtFirstEquals(e: Entry, f: Entry)
    requires '=' !in e.0 && '=' !in f.0
    requires EntryText(e) == EntryText(f)
    ensures e == f
  {
    var t := EntryText(e);
    assert forall k :: 0 <= k < |e.0| ==> t[k] == e.0[k];
    assert forall k :: 0 <= k < |f.0| ==> t[k] == f.0[k];
    RunEndUnique(t, 0, SplitStops, |e.0|);
    RunEndUnique(t, 0, SplitStops, |f.0|);
    assert e.0 == t[..|e.0|] == f.0;
    assert e.1 == t[|e.0| + 1..] == f.1;
  }

  /**
    `pair`: the three alternatives, tried in the order with-value,
    without-value, without-equals-sign. A pair never fails: it takes the
    segment up to the next `&` and reads it as SegmentPair does.
   */
  function Pair(s: string, pos: nat): (r: Parsed<Entry>)
    requires pos <= |s|
    ensures r.Ok? && pos <= r.next <= |s| && (r.next == |s| || s[r.next] == '&')
    ensures forall k :: pos <= k < r.next ==> s[k] != '&'
    ensures NoSeparators(r.value)
    ensures r.value == SegmentPair(s[pos..r.next])
  {
    var r := Or(PairWithValue(s, pos), Or(PairWithoutValue(s, pos), PairWithoutEqualsSign(s, pos)));
    var seg := s[pos..r.next];
    // Both branches give `r`: the test only gives the uniqueness lemma a place
    // where its precondition holds. When the segment holds an `=` the pair
    // reads it back exactly; otherwise it is the whole segment with "".
    if EntryText(r.value) == seg then
      SplitAtFirstEquals(r.value, SegmentPair(seg));
      r
    else
      r
  }

  /** The present elements of a list of optional entries (`filterNotNull`). */
  function Present(os: seq<Option<Entry>>): (r: seq<Entry>)
    ensures (forall i :: 0 <= i < |os| ==> os[i].Some?) ==>
      |r| == |os| && forall i :: 0 <= i < |r| ==> r[i] == os[i].value
    ensures (forall i :: 0 <= i < |os| ==> os[i].Some? && NoSeparators(os[i].value)) ==>
      forall i :: 0 <= i < |r| ==> NoSeparators(r[i])
  {
    if os == [] then []
    else (if os[0].Some? then [os[0].value] else []) + Present(os[1..])
  }

  /** The entries whose name is not empty, in order (`filterNot` on an empty name). */
  function DropUnnamed(ps: seq<Entry>): (r: seq<Entry>)
    ensures forall i :: 0 <= i < |r| ==> r[i].0 != ""
    ensures (forall i :: 0 <= i < |ps| ==> NoSeparators(ps[i])) ==>
      forall i :: 0 <= i < |r| ==> NoSeparators(r[i])
    ensures (forall i :: 0 <= i < |ps| ==> ps[i].0 != "") ==> r == ps
  {
    if ps == [] then []
    else (if ps[0].0 == "" then [] else [ps[0]]) + DropUnnamed(ps[1..])
  }

  /** An entry is present exactly when it occurs as a `Some`. */
  lemma {:induction false} PresentMembers(os: seq<Option<Entry>>)
    ensures forall e :: e in Present(os) <==> Some(e) in os
    decreases |os|
  {
    if os != [] {
      var head, tail := os[0], os[1..];
      assert os == [head] + tail;
      PresentStep(head, tail);
      PresentMembers(tail);
    }
  }

  /** The entries kept are exactly the named ones. */
  lemma {:induction false} DropUnnamedMembers(ps: seq<Entry>)
    ensures forall e :: e in DropUnnamed(ps) <==> e in ps && e.0 != ""
    decreases |ps|
  {
    if ps != [] {
      var head, tail := ps[0], ps[1..];
      assert ps == [head] + tail;
      DropUnnamedStep(head, tail);
      DropUnnamedMembers(tail);
    }
  }

  /** Filtering a concatenation filters each part and keeps them in order. */
  lemma {:induction false} PresentConcat(a: seq<Option<Entry>>, b: seq<Option<Entry>>)
    ensures Present(a + b) == Present(a) + Present(b)
    decreases |a|
  {
    if a == [] {
      assert a + b == b;
    } else {
      var head, tail := a[0], a[1..];
      var kept: seq<Entry> := if head.Some? then [head.value] else [];
      var rest, back := Present(tail), Present(b);
      assert a == [head] + tail;
      assert a + b == [head] + (tail + b);
      PresentStep(head, tail + b);
      PresentStep(head, tail);
      PresentConcat(tail, b);
      ConcatAssoc(kept, rest, back);
    }
  }

  lemma PresentStep(o: Option<Entry>, os: seq<Option<Entry>>)
    ensures Present([o] + os) == (if o.Some? then [o.value] else []) + Present(os)
  {
    assert ([o] + os)[1..] == os;
  }

  /** Dropping unnamed entries from a concatenation drops them from each part, keeping the order. */
  lemma {:induction false} DropUnnamedConcat(a: seq<Entry>, b: seq<Entry>)
    ensures DropUnnamed(a + b) == DropUnnamed(a) + DropUnnamed(b)
    decreases |a|
  {
    if a == [] {
      assert a + b == b;
    } else {
      var head, tail := a[0], a[1..];
      var kept: seq<Entry> := if head.0 == "" then [] else [head];
      var rest, back := DropUnnamed(tail), DropUnnamed(b);
      assert a == [head] + tail;
      assert a + b == [head] + (tail + b);
      DropUnnamedStep(head, tail + b);
      DropUnnamedStep(head, tail);
      DropUnnamedConcat(tail, b);
      ConcatAssoc(kept, rest, back);
    }
  }

  lemma DropUnnamedStep(e: Entry, ps: seq<Entry>)
    ensures DropUnnamed([e] + ps) == (if e.0 == "" then [] else [e]) + DropUnnamed(ps)
  {
    assert ([e] + ps)[1..] == ps;
  }

  /**
    `zeroOrMore(ampersand then optional(pair))`: every `&` and the pair after
    it, up to the first position that does not hold `&`. Started at `&` or at
    the end it consumes the rest of the input; the optional pair is never
    absent, since a pair cannot fail.
   */
  function PairsTail(s: string, pos: nat): (r: Parsed<seq<Option<Entry>>>)
    requires pos <= |s|
    ensures r.Ok? && pos <= r.next <= |s|
    ensures pos == |s| || s[pos] == '&' ==> r.next == |s|
    ensures pos < |s| && s[pos] != '&' ==> r == Ok([], pos)
    ensures forall i :: 0 <= i < |r.value| ==> r.value[i].Some? && NoSeparators(r.value[i].value)
    decreases |s| - pos
  {
    var amp := Literal(s, pos, '&');
    if amp.Fail? then Ok([], pos)
    else
      var pair := Optional(Pair(s, amp.next), amp.next);
      var rest := PairsTail(s, pair.next);
      Ok([pair.value] + rest.value, rest.next)
  }

  /**
    `pairs`: a first pair and the tail, with absent pairs and empty-named
    pairs dropped; the survivors keep their input order.
   */
  function Pairs(s: string, pos: nat): (r: Parsed<seq<Entry>>)
    requires pos <= |s|
    ensures r.Ok? && r.next == |s|
    ensures forall i :: 0 <= i < |r.value| ==> r.value[i].0 != "" && NoSeparators(r.value[i])
  {
    var first := Pair(s, pos);
    var rest := PairsTail(s, first.next);
    Ok(DropUnnamed([first.value] + Present(rest.value)), rest.next)
  }

  /**
    `params`: `?` and then optionally the pairs, folded into an
    insertion-ordered map (`toMap()`); it fails only when there is no `?`.
   */
  function Params(s: string, pos: nat): (r: Parsed<seq<Entry>>)
    requires pos <= |s|
    ensures r.Ok? <==> pos < |s| && s[pos] == '?'
    ensures r.Ok? ==> r.next == |s| && WellFormedParams(r.value)
  {
    var mark := Literal(s, pos, '?');
    if mark.Fail? then Fail
    else
      var pairs := Optional(Pairs(s, mark.next), mark.next);
      Ok(if pairs.value.Some? then ToMap(pairs.value.value) else [], pairs.next)
  }

  /** `anchor`: `#`, then the maximal run of characters other than `?`; the `#` is dropped. */
  function Anchor(s: string, pos: nat): (r: Parsed<string>)
    requires pos <= |s|
    ensures r.Ok? <==> pos < |s| && s[pos] == '#'
    ensures r.Ok? ==> pos < r.next && Spans(s, pos + 1, r.next, r.value)
    ensures r.Ok? ==> '?' !in r.value && (r.next == |s| || s[r.next] == '?')
  {
    var hash := Literal(s, pos, '#');
    if hash.Fail? then Fail else Run(s, hash.next, AnchorStops)
  }

  /** `path`: the maximal run of characters other than `#` and `?`. */
  function Path(s: string, pos: nat): (r: Parsed<string>)
    requires pos <= |s|
    ensures r.Ok? && Spans(s, pos, r.next, r.value)
    ensures '#' !in r.value && '?' !in r.value
    ensures r.next == |s| || s[r.next] in PathStops
  {
    Run(s, pos, PathStops)
  }

  /**
    `uri`: the path, an optional anchor and optional parameters; an absent
    anchor reads as `""` and absent parameters as the empty map. From any
    position it consumes the whole rest of the input.
   */
  function URIRule(s: string, pos: nat): (r: Parsed<URI>)
    requires pos <= |s|
    ensures r.Ok? && r.next == |s| && WellFormed(r.value)
  {
    var path := Path(s, pos);
    var anchor := Optional(Anchor(s, path.next), path.next);
    var params := Optional(Params(s, anchor.next), anchor.next);
    Ok(URI(path.value, anchor.value.GetOr(""), params.value.GetOr([])), params.next)
  }

  /**
    `parse`: run the grammar on the whole text; the engine reports a syntax
    error (here `None`) unless all of the input was consumed. It never does.
   */
  function Parse(text: string): (r: Option<URI>)
    ensures r.Some? && WellFormed(r.value)
  {
    var u := URIRule(text, 0);
    if u.Ok? && u.next == |text| then Some(u.value) else None
  }
}
