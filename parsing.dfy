/**
  The observable behaviour of the parser-combinator primitives the URI grammar
  is built from: a production is a function from an input string and a cursor
  position to either a failure or a value together with the position just
  after what it consumed. Repetition is greedy and never gives characters
  back, alternation is biased (the first success wins) and an optional
  production that fails leaves the cursor where it was.
 */
module Parsing {

  /** A value that may be absent: Kotlin's nullable `T?`. */
  datatype Option<+T> = None | Some(value: T) {

    /** Kotlin's elvis operator `x ?: default`. */
    function GetOr(default: T): (r: T)
      ensures Some? ==> r == value
      ensures None? ==> r == default
    {
      match this
      case Some(v) => v
      case None => default
    }
  }

  /** Outcome of running one production at a position. */
  datatype Parsed<+T> = Fail | Ok(value: T, next: nat)

  /** `v` is the text of `s` between `from` and `to`. */
  predicate Spans(s: string, from: nat, to: nat, v: string) {
    from <= to <= |s| && v == s[from..to]
  }

  /** Concatenation is associative. */
  lemma ConcatAssoc<T>(x: seq<T>, y: seq<T>, z: seq<T>)
    ensures x + (y + z) == (x + y) + z
  {
  }

  /**
    End of the longest run of characters, starting at `from`, none of which is
    in `stop`: where `zeroOrMore(except(...))` leaves the cursor.
   */
  function RunEnd(s: string, from: nat, stop: set<char>): (end: nat)
    requires from <= |s|
    ensures from <= end <= |s|
    ensures forall k :: from <= k < end ==> s[k] !in stop
    ensures end == |s| || s[end] in stop
    decreases |s| - from
  {
    if from == |s| || s[from] in stop then from else RunEnd(s, from + 1, stop)
  }

  /** The three facts RunEnd ensures determine it: any maximal run ends there. */
  lemma RunEndUnique(s: string, from: nat, stop: set<char>, end: nat)
    requires from <= end <= |s|
    requires forall k :: from <= k < end ==> s[k] !in stop
    requires end == |s| || s[end] in stop
    ensures end == RunEnd(s, from, stop)
  {
  }

  /** A text that reads `a + b` from `from` on holds `a` first and `b` after it. */
  lemma SliceOfConcat(s: string, from: nat, a: string, b: string)
    requires from <= |s| && s[from..] == a + b
    ensures from + |a| <= |s| && s[from..from + |a|] == a && s[from + |a|..] == b
  {
    assert s[from..from + |a|] == s[from..][..|a|];
    assert s[from + |a|..] == s[from..][|a|..];
  }

  /**
    A run starting where the text `a + b` begins ends after `a` when `a` holds
    no stop character and `b` is empty or starts with one.
   */
  lemma RunEndAfter(s: string, from: nat, a: string, b: string, stop: set<char>)
    requires from <= |s| && s[from..] == a + b
    requires forall k :: 0 <= k < |a| ==> a[k] !in stop
    requires b == [] || b[0] in stop
    ensures RunEnd(s, from, stop) == from + |a|
  {
    assert forall k :: from <= k < from + |a| ==> s[k] == a[k - from];
    assert from + |a| < |s| ==> s[from + |a|] == b[0];
    RunEndUnique(s, from, stop, from + |a|);
  }

  /**
    `zeroOrMore(except(stop))` joined into a string: it never fails, and it
    takes the maximal run of characters outside `stop`.
   */
  function Run(s: string, from: nat, stop: set<char>): (r: Parsed<string>)
    requires from <= |s|
    ensures r.Ok? && Spans(s, from, r.next, r.value)
    ensures forall c :: c in r.value ==> c !in stop
    ensures r.next == |s| || s[r.next] in stop
  {
    var end := RunEnd(s, from, stop);
    Ok(s[from..end], end)
  }

  /** `char(c)`: matches exactly the character `c` at the cursor. */
  function Literal(s: string, pos: nat, c: char): (r: Parsed<char>)
    requires pos <= |s|
    ensures r.Ok? <==> pos < |s| && s[pos] == c
    ensures r.Ok? ==> r == Ok(c, pos + 1)
  {
    if pos < |s| && s[pos] == c then Ok(c, pos + 1) else Fail
  }

  /** Biased alternation `first or second`: the first success wins. */
  function Or<T>(first: Parsed<T>, second: Parsed<T>): (r: Parsed<T>)
    ensures first.Ok? ==> r == first
    ensures first.Fail? ==> r == second
  {
    if first.Ok? then first else second
  }

  /** `optional(p)` at `pos`: a failure becomes an absent value at `pos`. */
  function Optional<T>(r: Parsed<T>, pos: nat): (o: Parsed<Option<T>>)
    ensures o.Ok? && (o.value.Some? <==> r.Ok?)
    ensures r.Ok? ==> o.value.value == r.value && o.next == r.next
    ensures r.Fail? ==> o.next == pos
  {
    match r
    case Ok(v, next) => Ok(Some(v), next)
    case Fail => Ok(None, pos)
  }
}
