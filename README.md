# URI grammar of grakmat, in Dafny

This project models the URI dialect that ships as a sample grammar of the grakmat parser-combinator library. The dialect has the simplified form `path[#anchor][?name=value&...]`. The model covers:

- the `URI` data class and its `toString()`;
- every production of the grammar (`paramName`, the three pair alternatives, `pair`, `pairs`, `params`, `anchor`, `path`, `uri`);
- the `parse` entry point.

The model has five modules:

- `Parsing` (parsing.dfy) gives the observable behaviour of the combinators the grammar uses. A production is a function from the input and a cursor to `Fail` or `Ok(value, next)`. `RunEnd` and `Run` model `zeroOrMore(except(...))`, the maximal run of characters outside a stop set. `Literal` models `char(c)`, `Or` the ordered choice, and `Optional` the backtracking `optional`.
- `Assoc` (assoc.dfy) models the insertion-ordered map behind Kotlin's `toMap()` as an association list with unique keys. Putting an existing key overwrites its value in place; a new key goes at the end. `AsMap` is the dictionary view of such a list. `LastWins` is an independent definition of "a later pair overwrites an earlier one".
- `Uri` (uri.dfy) holds the `URI` value, its rendering (`ToString`), one function per production, and `Parse`.
- `UriReference` (uri_reference.dfy) is a second description of what a parse yields, written without productions or cursors:
  - the path runs to the first `#` or `?`;
  - the anchor lies between that `#` and the first `?`;
  - the query after the first `?` is cut at every `&`, and each segment is split at its first `=`.

  The lemma `ParseIsSplit` proves that the grammar computes exactly this for every input.
- `UriProperties` (uri_properties.dfy) states what users of the grammar rely on:
  - the shape of each part;
  - the normalisation of pairs (bare names, empty values, empty names, trailing `&`, duplicates);
  - the round trip `parse(toString(u)) == u` for every well-formed value;
  - idempotence `parse(toString(parse(s))) == parse(s)`;
  - the documented examples, stated for arbitrary names, values and paths.

The parameters are a sequence of `(name, value)` pairs. A parse yields unique, non-empty, separator-free names (`WellFormedParams`), listed in the order `toMap()` lists them. The round trip is proved with that order, which is stronger than the data class's own equality. That equality compares `params` as a map and is the `SameURI` predicate.

## Model

| member | source | states |
|---|---|---|
| Parsing.RunEnd | src/main/kotlin/org/drimachine/grakmat/grammars/URI.kt:37 | `zeroOrMore(except(..))` stops at the first stop character or at the end, and no stop character comes before it |
| Parsing.Run | src/main/kotlin/org/drimachine/grakmat/grammars/URI.kt:44-45 | a maximal run never fails; its value is the text it consumed, joined back into a string |
| Parsing.Literal | src/main/kotlin/org/drimachine/grakmat/grammars/URI.kt:32-35 | `char(c)` succeeds exactly when `c` is the next character, and consumes only it |
| Parsing.Or | src/main/kotlin/org/drimachine/grakmat/grammars/URI.kt:48 | the choice is biased: a success of the first alternative is the result, and otherwise the second alternative's outcome is |
| Parsing.Option.GetOr | src/main/kotlin/org/drimachine/grakmat/grammars/URI.kt:72 | the elvis operator gives the present value, or the default when the value is absent |
| Parsing.Optional | src/main/kotlin/org/drimachine/grakmat/grammars/URI.kt:67 | `optional` never fails: when the inner rule succeeds it yields that value and position, and otherwise `null` without consuming input |
| Uri.ParamName | src/main/kotlin/org/drimachine/grakmat/grammars/URI.kt:37-39 | the name is the maximal run holding no `&` or `=`, and it stops at `&`, `=` or the end |
| Uri.ParamValue | src/main/kotlin/org/drimachine/grakmat/grammars/URI.kt:44-46 | the value is the maximal run holding no `&`, and it may contain `=`, `#` and `?` |
| Uri.PairWithoutEqualsSign | src/main/kotlin/org/drimachine/grakmat/grammars/URI.kt:40-41 | always succeeds, with the name and the empty value |
| Uri.PairWithoutValue | src/main/kotlin/org/drimachine/grakmat/grammars/URI.kt:42-43 | succeeds exactly when `=` follows the name; it consumes `name=` and yields the empty value |
| Uri.PairWithValue | src/main/kotlin/org/drimachine/grakmat/grammars/URI.kt:47 | succeeds exactly when `=` follows the name; the consumed text is `name=value`, and it ends at `&` or at the end |
| Uri.SegmentPair | src/main/kotlin/org/drimachine/grakmat/grammars/URI.kt:40-48 | a segment splits at its first `=`; a segment without `=` is a name with the empty value |
| Uri.SplitAtFirstEquals | src/main/kotlin/org/drimachine/grakmat/grammars/URI.kt:47 | two pairs with `=`-free names that render to the same `name=value` are equal, so the split is unique |
| Uri.Pair | src/main/kotlin/org/drimachine/grakmat/grammars/URI.kt:48 | the ordered choice never fails; it takes the segment up to the next `&` and reads it as `SegmentPair` does |
| Uri.Present | src/main/kotlin/org/drimachine/grakmat/grammars/URI.kt:54 | when no element is absent, `filterNotNull` returns every value, position by position; separator-free inputs give separator-free results |
| Uri.PresentMembers | src/main/kotlin/org/drimachine/grakmat/grammars/URI.kt:54 | an entry is in the result exactly when it occurs in the input as a present value |
| Uri.PresentConcat | src/main/kotlin/org/drimachine/grakmat/grammars/URI.kt:54 | filtering a concatenation filters each part, so the present values keep their input order |
| Uri.DropUnnamed | src/main/kotlin/org/drimachine/grakmat/grammars/URI.kt:55 | every survivor has a non-empty name, and a list whose names are all non-empty is left unchanged |
| Uri.DropUnnamedMembers | src/main/kotlin/org/drimachine/grakmat/grammars/URI.kt:55 | an entry survives exactly when it is in the input and its name is non-empty |
| Uri.DropUnnamedConcat | src/main/kotlin/org/drimachine/grakmat/grammars/URI.kt:55 | filtering a concatenation filters each part, so the named entries keep their input order |
| Uri.PairsTail | src/main/kotlin/org/drimachine/grakmat/grammars/URI.kt:49 | started at `&` or at the end it consumes the whole rest of the input, and every `optional(pair)` after an `&` is present |
| Uri.Pairs | src/main/kotlin/org/drimachine/grakmat/grammars/URI.kt:49-56 | consumes all input; it yields only named, separator-free pairs |
| Uri.Params | src/main/kotlin/org/drimachine/grakmat/grammars/URI.kt:57-59 | succeeds exactly when the next character is `?`; it then consumes all input and yields unique, named keys |
| Uri.Anchor | src/main/kotlin/org/drimachine/grakmat/grammars/URI.kt:61-63 | succeeds exactly at `#`; its value is the text after the `#` up to the first `?` or the end, with the `#` dropped |
| Uri.Path | src/main/kotlin/org/drimachine/grakmat/grammars/URI.kt:64-66 | the path is the maximal run holding no `#` or `?` |
| Uri.URIRule | src/main/kotlin/org/drimachine/grakmat/grammars/URI.kt:67-74 | the top-level rule never fails, consumes all input and yields a well-formed value |
| Uri.Parse | src/main/kotlin/org/drimachine/grakmat/grammars/URI.kt:76 | `parse` is total: it never reports a syntax error, and its result is well-formed |
| Uri.SameURI | src/main/kotlin/org/drimachine/grakmat/grammars/URI.kt:22 | data-class equality is reflexive, and equal values have the same path and anchor; with `SameURIIgnoresOrder` and `SameURIHasSameEntries` it holds exactly when path, anchor and the set of entries agree |
| Uri.SameURIIgnoresOrder | src/main/kotlin/org/drimachine/grakmat/grammars/URI.kt:22 | `params` compares as a map: two values listing the same entries in different orders are equal |
| Uri.SameURIHasSameEntries | src/main/kotlin/org/drimachine/grakmat/grammars/URI.kt:22 | conversely, equal values list the same entries, so values whose parameter maps differ are unequal |
| Uri.AnchorText | src/main/kotlin/org/drimachine/grakmat/grammars/URI.kt:24 | the anchor part is empty exactly when the anchor is; otherwise it is `#` followed by the anchor |
| Uri.JoinedSeparators | src/main/kotlin/org/drimachine/grakmat/grammars/URI.kt:27 | joining `&`-free parts puts an `&` into the text exactly when there are at least two parts (`SegmentsOfJoined` cuts them apart again) |
| Uri.QueryText | src/main/kotlin/org/drimachine/grakmat/grammars/URI.kt:25-27 | the parameters part is empty exactly when there are no parameters; otherwise it starts with `?`, and for well-formed parameters it holds an `&` exactly when there are two or more |
| Uri.ToString | src/main/kotlin/org/drimachine/grakmat/grammars/URI.kt:23-28 | the rendering starts with the path, followed by `#` when there is an anchor, by `?` when there is none but there are parameters, and by nothing otherwise; `RoundTrip` proves that parsing reads it back |
| Uri.EntryTexts | src/main/kotlin/org/drimachine/grakmat/grammars/URI.kt:26 | every entry is rendered as `key=value`, in order |
| Assoc.Put | src/main/kotlin/org/drimachine/grakmat/grammars/URI.kt:58 | a known key is overwritten in place and other entries are kept; a new key is appended; keys stay unique |
| Assoc.ToMap | src/main/kotlin/org/drimachine/grakmat/grammars/URI.kt:58 | `toMap()` yields unique keys drawn from the pairs it is given |
| Assoc.PutView | src/main/kotlin/org/drimachine/grakmat/grammars/URI.kt:58 | as a dictionary, putting is map update |
| Assoc.ToMapView | src/main/kotlin/org/drimachine/grakmat/grammars/URI.kt:58 | as a dictionary, `toMap()` equals `LastWins`: a later duplicate overwrites an earlier one |
| Assoc.LastWinsAt | src/main/kotlin/org/drimachine/grakmat/grammars/URI.kt:58 | a key's value in `LastWins` is the value of its last occurrence |
| Assoc.LastWinsKeys | src/main/kotlin/org/drimachine/grakmat/grammars/URI.kt:58 | the keys of `LastWins` are exactly the keys occurring in the pairs |
| Assoc.ToMapOrder | src/main/kotlin/org/drimachine/grakmat/grammars/URI.kt:58 | `toMap()` lists keys in the order they first occur, so an overwrite does not move a key |
| Assoc.ToMapHasKeys | src/main/kotlin/org/drimachine/grakmat/grammars/URI.kt:58 | every key of the input pairs is in the result of `toMap()` |
| Assoc.ToMapOfUnique | src/main/kotlin/org/drimachine/grakmat/grammars/URI.kt:58 | `toMap()` of pairs whose keys are already unique is those pairs, in the same order |
| UriReference.Segments | src/main/kotlin/org/drimachine/grakmat/grammars/URI.kt:49 | the query cut at every `&` has at least one segment |
| UriReference.SegmentsJoined | src/main/kotlin/org/drimachine/grakmat/grammars/URI.kt:49 | joining the segments with `&` gives back the text they were cut from |
| UriReference.SegmentsHaveNoAmpersand | src/main/kotlin/org/drimachine/grakmat/grammars/URI.kt:49 | no segment holds an `&` |
| UriReference.PairIsSegment | src/main/kotlin/org/drimachine/grakmat/grammars/URI.kt:48-49 | a pair ends exactly where its `&`-free segment ends |
| UriReference.TailIsSegments | src/main/kotlin/org/drimachine/grakmat/grammars/URI.kt:49 | the pairs after each `&` are the segment pairs of the text after that `&` |
| UriReference.PairsIsSegments | src/main/kotlin/org/drimachine/grakmat/grammars/URI.kt:49-56 | `pairs` yields the named pairs of the `&`-segments, in input order |
| UriReference.ParamsFolded | src/main/kotlin/org/drimachine/grakmat/grammars/URI.kt:57-58 | after `?` the parameters are `toMap()` of the pairs, and all input is consumed |
| UriReference.AnchorPart | src/main/kotlin/org/drimachine/grakmat/grammars/URI.kt:61-63 | the optional anchor ends at the first `?`; its value is the text between the `#` ending the path and that `?`, or `""` |
| UriReference.ParamsPart | src/main/kotlin/org/drimachine/grakmat/grammars/URI.kt:57-59 | the optional parameters are those of the query after the first `?`, or empty when there is no `?` |
| UriReference.ParseIsSplit | src/main/kotlin/org/drimachine/grakmat/grammars/URI.kt:67-76 | for every text, the grammar's result equals the cursor-free description `SplitURI` |
| UriProperties.PathIsLongestPrefix | src/main/kotlin/org/drimachine/grakmat/grammars/URI.kt:64-66 | the path is the longest prefix of the text holding neither `#` nor `?` |
| UriProperties.AnchorRunsToQuestionMark | src/main/kotlin/org/drimachine/grakmat/grammars/URI.kt:61-63 | when the path ends at `#`, the anchor is the text after it up to the first `?` or the end |
| UriProperties.NoHashNoAnchor | src/main/kotlin/org/drimachine/grakmat/grammars/URI.kt:67-72 | when the path ends at `?` or at the end, the anchor is `""` |
| UriProperties.NoQuestionMarkNoParams | src/main/kotlin/org/drimachine/grakmat/grammars/URI.kt:67-72 | a text without `?` has no parameters |
| UriProperties.ParamsAfterFirstQuestionMark | src/main/kotlin/org/drimachine/grakmat/grammars/URI.kt:57-58 | the parameters are those of the query after the first `?`: cut at `&`, split at the first `=`, empty names dropped, then `toMap()` |
| UriProperties.PairWithoutValueShadowed | src/main/kotlin/org/drimachine/grakmat/grammars/URI.kt:42-48 | whenever `pairWithoutValue` matches, `pairWithValue` matches too and wins; otherwise the bare-name alternative decides |
| UriProperties.SegmentShapes | src/main/kotlin/org/drimachine/grakmat/grammars/URI.kt:40-47 | `x` and `x=` both read as `(x, "")`, and `x=v` reads as `(x, v)` |
| UriProperties.LaterDuplicateWins | src/main/kotlin/org/drimachine/grakmat/grammars/URI.kt:58 | for a repeated key the parameters hold the value of its last named occurrence |
| UriProperties.ParamsInFirstOccurrenceOrder | src/main/kotlin/org/drimachine/grakmat/grammars/URI.kt:55-58 | the parameters list their keys in the order the keys first occur among the named pairs |
| UriProperties.SegmentsOfJoined | src/main/kotlin/org/drimachine/grakmat/grammars/URI.kt:27 | cutting `&`-free parts joined by `&` gives back those parts |
| UriProperties.SegmentPairsOfTexts | src/main/kotlin/org/drimachine/grakmat/grammars/URI.kt:26 | reading rendered `key=value` texts back as pairs gives the entries |
| UriProperties.JoinedEntriesParams | src/main/kotlin/org/drimachine/grakmat/grammars/URI.kt:26-27 | the rendered entries, read back as a query, are the parameters again |
| UriProperties.RenderedPathEnd | src/main/kotlin/org/drimachine/grakmat/grammars/URI.kt:28 | in a rendered well-formed value, the first `#` or `?` comes right after the path |
| UriProperties.RenderedQueryStart | src/main/kotlin/org/drimachine/grakmat/grammars/URI.kt:24-28 | in a rendered well-formed value, the first `?` comes right after the path and the anchor part |
| UriProperties.RenderedQueryText | src/main/kotlin/org/drimachine/grakmat/grammars/URI.kt:25-27 | after the first `?` of a rendered value come its entries joined by `&` |
| UriProperties.RenderedParams | src/main/kotlin/org/drimachine/grakmat/grammars/URI.kt:25-27 | the query of a rendered value reads back as its parameters |
| UriProperties.RenderedPath | src/main/kotlin/org/drimachine/grakmat/grammars/URI.kt:28 | the path of a rendered value reads back as its path |
| UriProperties.RenderedAnchor | src/main/kotlin/org/drimachine/grakmat/grammars/URI.kt:24 | the anchor part of a rendered value reads back as its anchor, including the empty anchor |
| UriProperties.RenderedQuery | src/main/kotlin/org/drimachine/grakmat/grammars/URI.kt:25-27 | the parameters part of a rendered value reads back as its parameters, including none |
| UriProperties.RoundTrip | src/main/kotlin/org/drimachine/grakmat/grammars/URI.kt:22-29 | rendering a well-formed value and parsing the text gives back the same value, parameters in the same order |
| UriProperties.RoundTripEquals | src/main/kotlin/org/drimachine/grakmat/grammars/URI.kt:22 | the data class's equality, which compares parameters as a map, also holds after the round trip |
| UriProperties.Idempotent | src/main/kotlin/org/drimachine/grakmat/grammars/URI.kt:76 | `parse(toString(parse(s))) == parse(s)` for every text |
| UriProperties.PathAndQuery | src/main/kotlin/org/drimachine/grakmat/grammars/URI.kt:57-58 | `path?seg&seg...` parses to the path, no anchor and `toMap()` of the named segment pairs |
| UriProperties.TwoSegments | src/main/kotlin/org/drimachine/grakmat/grammars/URI.kt:49-58 | `path?a&b` parses to the named pairs of `a` and `b`, folded by `toMap()` |
| UriProperties.BareNameAndEmptyValue | src/main/kotlin/org/drimachine/grakmat/grammars/URI.kt:40-43 | `path?x&y=` parses to `{x: "", y: ""}` |
| UriProperties.BareNamePairs | src/main/kotlin/org/drimachine/grakmat/grammars/URI.kt:40-43 | the segments `x` and `y=` fold to `[(x, ""), (y, "")]` |
| UriProperties.BareNameRendered | src/main/kotlin/org/drimachine/grakmat/grammars/URI.kt:25-27 | that value renders as `path?x=&y=`: every rendered entry carries `=`, so the text round trip is not exact |
| UriProperties.RenderedTwo | src/main/kotlin/org/drimachine/grakmat/grammars/URI.kt:25-28 | a value with two entries and no anchor renders as `path?e&f` |
| UriProperties.EmptyNameDropped | src/main/kotlin/org/drimachine/grakmat/grammars/URI.kt:55 | `path?=v&x=w` parses to `{x: w}`: the pair with the empty name is dropped and the next one kept |
| UriProperties.TrailingAmpersand | src/main/kotlin/org/drimachine/grakmat/grammars/URI.kt:49-55 | a trailing `&` does not fail: `path?x=v&` parses to `{x: v}` |
| UriProperties.QuestionMarkAlone | src/main/kotlin/org/drimachine/grakmat/grammars/URI.kt:57-58 | `path?` parses to no parameters |
| UriProperties.DuplicateOverwrites | src/main/kotlin/org/drimachine/grakmat/grammars/URI.kt:58 | `path?x=v&x=w` parses to `{x: w}` |
| UriProperties.ToMapOverwrite | src/main/kotlin/org/drimachine/grakmat/grammars/URI.kt:58 | `toMap()` of `(x, v), (x, w)` is `[(x, w)]` |
| UriProperties.PathOnly | src/main/kotlin/org/drimachine/grakmat/grammars/URI.kt:64-72 | a text with neither `#` nor `?` is all path, with no anchor and no parameters |
| UriProperties.PathAndAnchor | src/main/kotlin/org/drimachine/grakmat/grammars/URI.kt:61-72 | `p#a`, with `a` free of `?`, parses to path `p`, anchor `a` and no parameters; `p#` gives the empty anchor |
| UriProperties.AnchorThenQuery | src/main/kotlin/org/drimachine/grakmat/grammars/URI.kt:61-72 | in `p#a?x=v` the anchor stops at the `?` and the pair follows it |
| UriProperties.ExampleTwoPairs | src/main/kotlin/org/drimachine/grakmat/grammars/URI.kt:22-29 | `parse("a?x=1&y=2")` is `URI("a", "", {x: 1, y: 2})`, and that value renders back to the same text |

## Left out

- `parseFile` (URI.kt:77) reads a `java.io.File` and then parses its text. File I/O is not modelled.
- The combinator library (`org.drimachine.grakmat`) is not part of this model. Only the observable behaviour of the combinators the grammar uses is modelled: `char`, `except`, `zeroOrMore`, `optional`, `or`, `then`, `before`, `and` and `map`.
  - The `withName` labels (URI.kt:32-35, 39, 46, 59, 63, 66, 74) only affect error messages and are not modelled.
  - Uri.Parse: the engine's `ParseError` and its position are not modelled. `Parse` returns `None` where the engine would throw, and is proved never to do so.
- Kotlin strings are sequences of UTF-16 code units; here they are sequences of Dafny `char`. The grammar only compares characters, so no encoding question arises.
- The data class's `hashCode`, `copy` and component functions are not modelled. Its `equals` is the `SameURI` predicate.
- The literal examples `parse("a?x&y=")`, `parse("a?=1&x=2")`, `parse("p#anchor?x=1")` and `parse("a?x=1&x=2")` are stated for arbitrary paths, names and values rather than for those strings. These are `BareNameAndEmptyValue`, `EmptyNameDropped`, `AnchorThenQuery` and `DuplicateOverwrites`. Only `parse("a?x=1&y=2")` is stated literally, as `ExampleTwoPairs`.
- UriProperties.RoundTrip: the round trip holds only for well-formed values. A value built directly with a `#` or `?` in its path, a `?` in its anchor, a separator in a name, an empty name or an `&` in a value renders to a text that parses differently. For example, `{"": "v"}` renders as `p?=v`, which parses to no parameters, and `{x: "a&b"}` renders as `p?x=a&b`, which parses to `{x: "a", b: ""}`. Nothing in the data class prevents building such a value.
