# splitQuery: a verified model of the REST verticle's query-string parser

`AbstractCailunRestVerticle.splitQuery(String query)` turns the raw query of a request URL,
such as `a=1&b=x%20y`, into a `LinkedHashMap` from decoded key to decoded value. It works like this:

- A `null` query gives an empty map.
- Otherwise the query is cut with `query.split("&")`.
- Each piece is cut at its first `=`.
- Both halves go through `URLDecoder.decode(_, "UTF-8")`.
- Each pair is `put` into the map in turn.

The model has four modules:

- `Sequences` (`sequences.dfy`) holds `IndexOf`, whose contract is that of Java's `indexOf`
  (the first position, or -1). It also holds the distinctness and cardinality facts the other
  modules need.
- `JavaStrings` (`java_strings.dfy`) models `String.split` for a one-character separator with no
  special meaning in a regular expression:
  - `SplitAll` keeps every piece. That is `split(sep, -1)`.
  - `DropTrailingEmpty` applies the limit-0 rule.
  - `Split` adds Java's special case: a string with no separator, the empty string included,
    comes back whole. So `"".split("&")` is `[""]`, while `"&".split("&")` is `[]`.
  - `Join` is the inverse partner of `SplitAll`. The lemmas about the two prove the round trip
    in both directions.
- `LinkedMaps` (`linked_map.dfy`) models a `LinkedHashMap` as a value: the keys in insertion
  order, plus the map itself. `Put` keeps a re-inserted key in its place. `FromPairs` is the map
  after putting a list of pairs in order.
- `QueryString` (`query_string.dfy`) holds the parser itself:
  - `ParsePair` handles one piece.
  - `DecodePairs` handles all the pieces and stops at the first failure.
  - `ParseQuery` is the specification function.
  - `SplitQuery` is the imperative method, and it is proved equal to `ParseQuery`. Its `for` loop
    is the method `PutPieces`, which, like the Java loop, fills a key-order sequence and a map
    piece by piece.

Inputs from outside:

- The URL decoder is a parameter, `decode: string -> Option<string>`, and is never interpreted.
  `None` stands for the `IllegalArgumentException` that `URLDecoder` throws on a malformed
  escape.
- The `null` query is `Option.None`.
- The two exceptions that can escape `splitQuery` are the values of `QueryError`:
  - `MissingEquals(piece)` is the `StringIndexOutOfBoundsException` from `substring(0, -1)`.
  - `Undecodable(text)` is the decoder failure.

The first piece that fails decides which error is returned, as in the source. Within a piece the
check order follows Java's evaluation order: first the missing `=`, then the key's decoding, then
the value's.

## Model

| member | source | states |
|---|---|---|
| `Sequences.IndexOf` | core/src/main/java/com/gentics/cailun/core/AbstractCailunRestVerticle.java:120 | `pair.indexOf("=")`: -1 exactly when the character is absent, otherwise a position holding it with none before |
| `JavaStrings.SplitAll` | core/src/main/java/com/gentics/cailun/core/AbstractCailunRestVerticle.java:118 | the pieces between separators, empty ones kept; there is always at least one piece |
| `JavaStrings.SplitAllPiecesFree` | core/src/main/java/com/gentics/cailun/core/AbstractCailunRestVerticle.java:118 | no piece contains the separator |
| `JavaStrings.JoinSplitAll` | core/src/main/java/com/gentics/cailun/core/AbstractCailunRestVerticle.java:118 | joining the pieces with the separator gives back the original string |
| `JavaStrings.SplitAllJoin` | core/src/main/java/com/gentics/cailun/core/AbstractCailunRestVerticle.java:118 | splitting a join of separator-free pieces gives back exactly those pieces, so `SplitAll` and `Join` are inverse |
| `JavaStrings.SplitAllAround` | core/src/main/java/com/gentics/cailun/core/AbstractCailunRestVerticle.java:118 | a separator cuts the string into the pieces of its left part followed by those of its right part |
| `JavaStrings.DropTrailingEmpty` | core/src/main/java/com/gentics/cailun/core/AbstractCailunRestVerticle.java:118 | the result is the longest prefix whose last piece is non-empty: a prefix of the input, ending in a non-empty piece, with only empty pieces cut off |
| `JavaStrings.Split` | core/src/main/java/com/gentics/cailun/core/AbstractCailunRestVerticle.java:118 | `query.split("&")`: no piece holds the separator; `""` gives `[""]`; the last piece of a non-empty string is never empty |
| `JavaStrings.SplitShape` | core/src/main/java/com/gentics/cailun/core/AbstractCailunRestVerticle.java:118 | the rest of what `split` returns, described by its result rather than how it is computed: the result is empty exactly for a non-empty string of separators; otherwise the joined pieces are the string minus a run of trailing separators |
| `JavaStrings.SplitIgnoresTrailingSeparator` | core/src/main/java/com/gentics/cailun/core/AbstractCailunRestVerticle.java:118 | for a non-empty string, one more separator at the end does not change the pieces |
| `JavaStrings.SplitKeepsLeftPieces` | core/src/main/java/com/gentics/cailun/core/AbstractCailunRestVerticle.java:118 | when something other than separators follows a separator, every piece on its left is kept, empty ones included |
| `JavaStrings.SplitKeepsEmptyPiece` | core/src/main/java/com/gentics/cailun/core/AbstractCailunRestVerticle.java:118 | two separators in a row produce an empty piece, unless only separators follow them |
| `LinkedMaps.Empty` | core/src/main/java/com/gentics/cailun/core/AbstractCailunRestVerticle.java:114 | a new `LinkedHashMap` is consistent and has no entries |
| `LinkedMaps.Put` | core/src/main/java/com/gentics/cailun/core/AbstractCailunRestVerticle.java:121 | `put(k, v)`: consistency is kept; `k` maps to `v`; the key set grows by `k`; every other key keeps its value; a new key goes last in the order, and a key already present keeps its place |
| `LinkedMaps.FromPairs` | core/src/main/java/com/gentics/cailun/core/AbstractCailunRestVerticle.java:119-122 | putting a list of pairs in order gives a consistent map whose keys are exactly the keys of the list |
| `LinkedMaps.OrderAppend` | core/src/main/java/com/gentics/cailun/core/AbstractCailunRestVerticle.java:114 | a longer key history keeps the order of keys already seen, and a key seen for the first time may be placed last |
| `LinkedMaps.FromPairsOrder` | core/src/main/java/com/gentics/cailun/core/AbstractCailunRestVerticle.java:114 | the keys are listed in the order of their first occurrence in the pairs |
| `LinkedMaps.FromPairsLastWins` | core/src/main/java/com/gentics/cailun/core/AbstractCailunRestVerticle.java:121 | a key holds the value of its last occurrence |
| `LinkedMaps.FromPairsSize` | core/src/main/java/com/gentics/cailun/core/AbstractCailunRestVerticle.java:119-122 | the number of entries equals the number of distinct keys, which is at most the number of pairs |
| `QueryString.ParsePair` | core/src/main/java/com/gentics/cailun/core/AbstractCailunRestVerticle.java:120-121 | a piece without `=` fails with `MissingEquals` of that piece; a piece that parses contains `=` |
| `QueryString.ParsePairCutsAtFirstEquals` | core/src/main/java/com/gentics/cailun/core/AbstractCailunRestVerticle.java:120-121 | for a key without `=`: `key=value` has the decoded key and the decoded value, where the value may itself contain `=`; if the key fails to decode, that is the error; otherwise a value that fails to decode is the error |
| `QueryString.LeadingEqualsGivesEmptyKey` | core/src/main/java/com/gentics/cailun/core/AbstractCailunRestVerticle.java:120-121 | for any decoder, a piece that starts with `=` parses exactly when `""` and the rest decode, and its key is the decoding of `""`; so with `URLDecoder`, which maps `""` to `""`, the key is the empty string |
| `QueryString.DecodePairs` | core/src/main/java/com/gentics/cailun/core/AbstractCailunRestVerticle.java:119-122 | the pieces parse exactly when every piece parses, and then the `i`-th pair is the `i`-th piece's pair |
| `QueryString.DecodePairsStopsAtError` | core/src/main/java/com/gentics/cailun/core/AbstractCailunRestVerticle.java:119-122 | after a piece has failed, no later piece changes the outcome |
| `QueryString.DecodePairsFirstFailure` | core/src/main/java/com/gentics/cailun/core/AbstractCailunRestVerticle.java:119-122 | the error returned is the error of a failing piece, and every piece before it parses |
| `QueryString.ParseQuery` | core/src/main/java/com/gentics/cailun/core/AbstractCailunRestVerticle.java:113-124 | a map that results is consistent; a present query succeeds exactly when every `&`-piece has an `=` and both of its halves decode |
| `QueryString.PutPieces` | core/src/main/java/com/gentics/cailun/core/AbstractCailunRestVerticle.java:119-122 | the `for` loop: it fails exactly when some piece fails, and then with the first failing piece's error; otherwise its key-order sequence and map are the puts of the decoded pairs, in order |
| `QueryString.SplitQuery` | core/src/main/java/com/gentics/cailun/core/AbstractCailunRestVerticle.java:113-124 | the method computes `ParseQuery`; a `null` query gives the empty map and cannot fail; a map that results is consistent |
| `QueryString.QueryEntries` | core/src/main/java/com/gentics/cailun/core/AbstractCailunRestVerticle.java:118-123 | on success, each piece gives one decoded pair, and the map's keys are exactly those keys; keys are ordered by first occurrence; a repeated key holds its last value; entries equal distinct keys, which are at most the pieces |
| `QueryString.QueryFailsAtFirstBadPiece` | core/src/main/java/com/gentics/cailun/core/AbstractCailunRestVerticle.java:118-121 | a failed query reports the error of its first failing piece |
| `QueryString.PieceWithoutEqualsFails` | core/src/main/java/com/gentics/cailun/core/AbstractCailunRestVerticle.java:118-121 | any piece without `=` makes the whole call fail |
| `QueryString.EmptyQueryFails` | core/src/main/java/com/gentics/cailun/core/AbstractCailunRestVerticle.java:118-121 | the empty query `""` fails with `MissingEquals("")` |
| `QueryString.SeparatorsOnlyQueryIsEmpty` | core/src/main/java/com/gentics/cailun/core/AbstractCailunRestVerticle.java:118 | a non-empty query made only of `&` gives the empty map |
| `QueryString.LeadingSeparatorFails` | core/src/main/java/com/gentics/cailun/core/AbstractCailunRestVerticle.java:118-121 | a leading `&` followed by anything other than `&` fails with `MissingEquals("")` |
| `QueryString.DoubledSeparatorFails` | core/src/main/java/com/gentics/cailun/core/AbstractCailunRestVerticle.java:118-121 | `&&` followed by anything other than `&` makes the query fail |
| `QueryString.TrailingSeparatorIgnored` | core/src/main/java/com/gentics/cailun/core/AbstractCailunRestVerticle.java:118 | for a non-empty query, a trailing `&` gives the same result, so `a=1&` parses like `a=1` |
| `QueryString.SinglePairQuery` | core/src/main/java/com/gentics/cailun/core/AbstractCailunRestVerticle.java:118-123 | a query with no `&` and a key without `=` gives one entry; its value is the decoding of everything after the first `=` |

## Left out

- The URL decoder's own behaviour (`+` to space, percent-escapes, UTF-8) is not modelled. It is
  foreign library code, so every property holds for any decoder passed in.
- The `UnsupportedEncodingException` in the signature is not modelled. The charset is the
  constant `"UTF-8"`, which every Java runtime supports, so the exception cannot occur.
- `String.split` is modelled only for the separator `&`, a single character with no special
  meaning in a regular expression, which is all this method uses. General regular expressions
  are not modelled.
- Java strings are UTF-16 code-unit sequences. They are modelled as `seq<char>`, where a `char`
  is a Unicode scalar value. So a Java string that holds an unpaired surrogate has no counterpart
  in the model. For all other strings the model is faithful, because `&` and `=` are single code
  units and are never part of a surrogate pair.
- The result map is modelled as a value, and the model does not capture its later mutation by
  callers. The source creates the map inside the method and mutates it only there, before
  returning it.
- The rest of `AbstractCailunRestVerticle` is not modelled: `start`, `stop`, `route`, `toJson`,
  `fromJson` and `getAuthService` are Vert.x server and router setup, Jackson/Gson
  serialisation and configuration lookups, all of which are I/O or foreign calls.
