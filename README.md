# Response masking for KissYourKids, in Dafny

KissYourKids redacts sensitive strings in HTTP response bodies before they are
serialised. Two Java classes do the work:

- `MaskUtil.maskString` obfuscates a string one character at a time, keeping
  its shape. It runs three regex replacements in sequence:
  - digits become `*`;
  - `A`-`Z` become `X`;
  - every other character becomes `x`, except `X` itself, `\s` whitespace
    and the ASCII punctuation bands `!-/`, `:-@`, `` [-` `` and `{-~`.
- `MaskResponseHandler` walks the response body. For each object it reads a
  configuration value made of comma-separated entries `path ["::" regex]*`.
  - It splits the path on the literal `(List).` into segments, one per level
    of the object graph.
  - It resolves each segment by reflection and masks the string it finds,
    either whole or only in the spans a regex's group 1 captures.
  - It descends into every element of a collection it meets, with the
    remaining segments.

The project models both classes and proves what they do to the object graph.

- **`wrappers.dfy`** holds the Option type.
- **`java_strings.dfy`** models the `java.lang.String` operations the engine
  relies on:
  - `indexOf`;
  - `split` with limit 0, which drops trailing empty pieces and gives `[s]`
    when the separator does not occur;
  - `trim`;
  - the regex class `\s`;
  - the blank test.
- **`mask_util.dfy`** models `maskString`.
  - Each regex pass is a `replaceAll` over a character class.
  - An independent per-character reference, `MaskChar`, states what the three
    passes do together.
- **`beans.dfy`** models the object graph and reflective property access.
  - Every bean or map is a record in one store, identified by a reference, so
    objects can be shared.
  - A dotted name walks nested records.
  - A failed read or write is the "no change" the Java code silently
    swallows.
  - The class `ObjectGraph` is the mutable graph that `setProperty` updates
    in place.
- **`mask_response_handler.dfy`** models the engine.
  - The regex engine is an oracle, `Finder`. Given a pattern and the original
    string, it either rejects the pattern or yields what `group(1)` returns
    for each successive match.
  - Each Java method is a specification function (`MaskFieldSpec`,
    `MaskObjectSpec`, `BeforeBodyWriteSpec`, …) on the graph's value.
  - Each also has an imperative method (`MaskField`, `MaskObject`,
    `BeforeBodyWrite`, `MaskSpans`, and one per Java loop) with the Java
    loops. Each
    method is proved to leave the graph exactly as its function says.
  - Exceptions that escape the Java code are `Raised` outcomes. Updates made
    before the exception stay in place.
  - The module `MaskResponseHandlerProperties` proves what the engine
    promises, on the specification functions.

The headline property is `BeforeBodyWriteOnlyMasks`. Whatever the
configuration, the regexes and the matcher's answers, the engine only masks
characters of string properties:
- it adds and removes no record or property;
- it changes no non-string value;
- every string keeps its length;
- each character is either kept or replaced by its own mask.

This holds even when an exception stops the engine part-way.

### Where the code and its description differ

- **Exceptions escape.** One might expect a redaction filter never to throw,
  but the code lets several exceptions escape:
  - a malformed regex raises `PatternSyntaxException`
    (MaskResponseHandler.java:107);
  - a null `group(1)` makes `text.trim()` raise `NullPointerException`
    (MaskResponseHandler.java:110-111);
  - a pattern without a capturing group raises `IndexOutOfBoundsException`;
  - a null body or collection element raises `NullPointerException` at
    `body.getClass()` (MaskResponseHandler.java:62);
  - an entry made only of `::` splits into nothing, so `formats[0]` raises
    `ArrayIndexOutOfBoundsException` (MaskResponseHandler.java:65-66).

  The model follows the code.
- **The output can contain an uppercase letter.** One might expect the output
  of `maskString` to contain no `A`-`Z`. It can contain `X`, which the
  second pass itself writes and the third pass leaves alone. `MaskChar` and
  `MaskStringAlphabet` state the true property: no digit, and no upper-case
  letter other than `X`.
- **The splice masks the first occurrence.** It replaces the first occurrence
  of the captured text in the string as masked so far. That need not be the
  occurrence the match came from. `SpliceFirstOccurrence` states it: when the
  text occurs first at `i` and the match captured it at a later `j`, the span
  at `i` is masked and the span at `j` is left as it was. Lines 112-116 do
  exactly this (MaskResponseHandler.java), so the model keeps it.

## Model

| member | source | states |
|---|---|---|
| `MaskUtil.ReplaceAll` | MaskUtil.java:13-15 | `matcher(s).replaceAll(repl)` for a pattern that matches one character of a class (stated by `ReplaceAllShape`) |
| `MaskUtil.ReplaceAllShape` | MaskUtil.java:13-15 | one `replaceAll` pass of a single-character class: same length, and each position replaced exactly when its character is in the class |
| `MaskUtil.MaskChar` | MaskUtil.java:8-15 | what the three passes together do to one character: never a digit, never an upper-case letter other than `X`; always `*`, `X`, `x`, whitespace or punctuation; whitespace and punctuation map to themselves |
| `MaskUtil.MaskString` | MaskUtil.java:12-16 | `maskString` keeps the length (one output per input code point), and output position i is `MaskChar` of input position i |
| `MaskUtil.MaskStringAlphabet` | MaskUtil.java:8-15 | every output character is `*`, `X`, `x`, whitespace or punctuation; no digit, and no A-Z except `X` |
| `MaskUtil.MaskStringKeepsPunctuation` | MaskUtil.java:10-15 | whitespace and the four punctuation bands pass through unchanged |
| `MaskUtil.MaskStringConcat` | MaskUtil.java:13-15 | `maskString(a + b) == maskString(a) + maskString(b)` |
| `MaskUtil.MaskCharIdempotent` | MaskUtil.java:10-15 | masking a masked character changes nothing: `*` is punctuation, `X` is excluded from the third pass, `x` maps to `x` |
| `MaskUtil.MaskStringIdempotent` | MaskUtil.java:10-15 | `maskString(maskString(s)) == maskString(s)` |
| `MaskUtil.MaskStringMasksAll` | MaskUtil.java:12-16 | the whole-string mask is one instance of "each character kept or masked" |
| `MaskUtil.MaskedFromTransitive` | MaskUtil.java:12-16 | masking some positions and then some more is again masking some positions of the original |
| `MaskUtil.MaskStringExample` | MaskUtil.java:12-16 | `"Ab12"` becomes `"Xx**"` |
| `JavaStrings.IndexOf` | MaskResponseHandler.java:112 | `indexOf` is -1 exactly when the text does not occur; otherwise it is an occurrence with none before it |
| `JavaStrings.Split` | MaskResponseHandler.java:64-67 | `split` with limit 0 for a literal separator: `[s]` when the separator does not occur, otherwise the pieces with the trailing empty ones dropped (its properties are stated by `SplitShape`, `SplitJoinPrefix` and `SplitEmpty`) |
| `JavaStrings.SplitShape` | MaskResponseHandler.java:64-67 | `split` with limit 0: no piece contains the separator; every cut is at the leftmost occurrence, so no occurrence starts inside a piece and runs on into the separator after it; no occurrence gives `[s]`; otherwise the result is empty or ends in a non-empty piece |
| `JavaStrings.PiecesLeftmost` | MaskResponseHandler.java:64-67 | the pieces are cut at successive leftmost, non-overlapping occurrences: no occurrence starts inside a piece that a separator follows |
| `JavaStrings.SplitJoinPrefix` | MaskResponseHandler.java:64-67 | when the separator occurs, the result is the pieces (which glue back into the input) up to a tail of empty pieces, so only trailing empty pieces are lost; gluing the result back gives a prefix of the input |
| `JavaStrings.SplitEmpty` | MaskResponseHandler.java:65-66 | the split is empty exactly when the input is the separator repeated one or more times |
| `JavaStrings.TrimStartShape` | MaskResponseHandler.java:111 | the leading half of `trim`: what is left is a suffix that is empty or starts above U+0020, and every removed code point is at or below it |
| `JavaStrings.TrimEndShape` | MaskResponseHandler.java:111 | the trailing half of `trim`: what is left is a prefix that is empty or ends above U+0020, and every removed code point is at or below it |
| `JavaStrings.SplitThree` | MaskResponseHandler.java:65 | three parts free of the separator's first character, joined by it, split back into those three parts when the last is not empty |
| `JavaStrings.Trim` | MaskResponseHandler.java:111 | `String.trim`: the leading and then the trailing code points at or below U+0020 removed (stated by `TrimShape`) |
| `JavaStrings.TrimShape` | MaskResponseHandler.java:111 | `trim` keeps one contiguous stretch of the input; everything before and after it is at or below U+0020, and the stretch is empty or starts and ends above U+0020 |
| `JavaStrings.IsBlank` | MaskResponseHandler.java:100 | `StringUtil.isBlank`, taken as null or all `\s` whitespace (its use after `trim` is stated by `TrimmedBlank`) |
| `JavaStrings.TrimmedBlank` | MaskResponseHandler.java:111 | `isBlank(text.trim())` holds exactly when every character of `text` is at or below U+0020 |
| `Beans.Field` | MaskResponseHandler.java:94 | a simple property is readable exactly when the value is a bean or map in the graph with that non-empty key, and the read returns the value stored under that key |
| `Beans.Read` | MaskResponseHandler.java:94-97 | a (possibly dotted) property that can be read has an owning record in the graph, holding the last name component, and the read returns the value stored there |
| `Beans.Written` | MaskResponseHandler.java:102-104 | `setProperty` with failures swallowed: an unwritable property leaves the graph unchanged; otherwise that property holds the new value and nothing else in the graph changes |
| `Beans.ReadAfterWrite` | MaskResponseHandler.java:102 | for an undotted name, a successful write is seen by the next read |
| `Beans.ObjectGraph.SetProperty` | MaskResponseHandler.java:120-122 | the graph updated in place is exactly `Written` of the old graph |
| `MaskResponseHandler.WrittenMasks` | MaskResponseHandler.java:119-122 | writing a masked version of a string property back only masks the graph |
| `MaskResponseHandler.StoreMaskedFromTransitive` | MaskResponseHandler.java:88-132 | successive masking updates of the graph compose into one |
| `MaskResponseHandler.Splice` | MaskResponseHandler.java:112-116 | one splice only masks characters of the string it works on |
| `MaskResponseHandler.SpliceShape` | MaskResponseHandler.java:112-116 | one splice: the first occurrence of the text is replaced by its mask, the prefix before it and the suffix after it are kept, the length is kept; no occurrence leaves the string unchanged |
| `MaskResponseHandler.SpliceAtMasks` | MaskResponseHandler.java:114-115 | replacing an occurrence by its mask changes only that span, and only by masking |
| `MaskResponseHandler.SpliceStep` | MaskResponseHandler.java:110-117 | one loop pass, skipping texts blank after `trim`, only masks characters |
| `MaskResponseHandler.SpliceAllText` | MaskResponseHandler.java:109-118 | the splice loop unfolds by one text match |
| `MaskResponseHandler.SpliceAll` | MaskResponseHandler.java:106-118 | the `while (m.find())` loop as a function of the original value and the successive `group(1)` results (stated by `SpliceAllOk`, `SpliceAllMasks`, `SpliceAllRaisesAtFirstFailure` and `MaskSpans`) |
| `MaskResponseHandler.SpliceAllOk` | MaskResponseHandler.java:109-111 | the splice loop over the matches of the original value completes exactly when every `group(1)` is text |
| `MaskResponseHandler.SpliceAllMasks` | MaskResponseHandler.java:106-118 | when the splice loop completes, its result only masks characters of the value |
| `MaskResponseHandler.SpliceAllRaisesAtFirstFailure` | MaskResponseHandler.java:109-111 | the loop raises the exception of the first match whose `group(1)` is null or missing |
| `MaskResponseHandler.MaskSpans` | MaskResponseHandler.java:106-118 | the `while (m.find())` loop on the local `masked` gives the splice result, and a masked version of the value |
| `MaskResponseHandler.MaskFieldSpec` | MaskResponseHandler.java:88-132 | `maskField` on the graph's value, case by case (stated by `MaskFieldCases`, `MaskFieldOnlyMasks`, `BlankRegexNeverRaises` and `MaskField`) |
| `MaskResponseHandler.MaskEachSpec` | MaskResponseHandler.java:125-130 | `maskField` on each element of a collection in order, stopping at the first exception (stated by `MaskEachOnlyMasks`, `MaskEachEmptyPath` and `MaskEach`) |
| `MaskResponseHandler.MaskField` | MaskResponseHandler.java:88-132 | `maskField` updates the graph in place exactly as `MaskFieldSpec` says and returns its outcome |
| `MaskResponseHandler.MaskEach` | MaskResponseHandler.java:125-130 | the loop over a collection updates the graph as `maskField` on each element in turn would, stopping at the first exception |
| `MaskResponseHandler.EntryCalls` | MaskResponseHandler.java:64-75 | the `maskField` calls one entry stands for, or none when `formats[0]` raises (stated by `EntryCallsShape`) |
| `MaskResponseHandler.ClauseCalls` | MaskResponseHandler.java:70-74 | one call per regex clause (stated by `ClauseCallsShape`) |
| `MaskResponseHandler.ClauseCallsShape` | MaskResponseHandler.java:70-74 | one planned call per regex clause, call k applying clause k to the same segments |
| `MaskResponseHandler.EntryCallsShape` | MaskResponseHandler.java:64-75 | an entry with no regex clause (also `a::`) plans one call with no regex; otherwise one call per clause, in order, all with the same segments; no segment contains `(List).`; an entry has no plan exactly when splitting it on `::` yields no piece, which is exactly when it is `::` repeated one or more times |
| `MaskResponseHandler.RunCalls` | MaskResponseHandler.java:68-74 | the planned calls made in order until one raises (stated by `RunCallsOnlyMasks` and `MaskClauses`) |
| `MaskResponseHandler.RunEntry` | MaskResponseHandler.java:65-75 | one entry: its planned calls, or `ArrayIndexOutOfBoundsException` at `formats[0]` (stated by `MaskEntry`) |
| `MaskResponseHandler.RunEntries` | MaskResponseHandler.java:64-76 | the entries in order until one raises (stated by `RunEntriesAppend`, `RunEntriesOnlyMasks` and `MaskEntries`) |
| `MaskResponseHandler.RunCallsSingle` | MaskResponseHandler.java:68-69 | a plan of one call is that single `maskField` call |
| `MaskResponseHandler.MaskEntry` | MaskResponseHandler.java:65-75 | the loop body for one entry updates the graph as `RunEntry` says, raising at `formats[0]` when the entry splits into nothing |
| `MaskResponseHandler.MaskObjectSpec` | MaskResponseHandler.java:61-78 | `maskObject` on the graph's value (stated by `MaskObjectOnlyMasks` and `MaskObject`) |
| `MaskResponseHandler.MaskObject` | MaskResponseHandler.java:61-78 | `maskObject` updates the graph as `MaskObjectSpec` says: a null body raises, a blank configuration changes nothing, otherwise the comma-separated entries run in order until one raises |
| `MaskResponseHandler.MaskEntries` | MaskResponseHandler.java:64-76 | the loop over the entries updates the graph as each entry in turn would, stopping at the first exception |
| `MaskResponseHandler.MaskClauses` | MaskResponseHandler.java:70-74 | the inner loop runs `maskField` once per regex clause, in order, stopping at the first exception |
| `MaskResponseHandler.MaskEachObjectSpec` | MaskResponseHandler.java:46-49 | `maskObject` on each element of a collection body, in order, until one raises (stated by `MaskEachObjectOnlyMasks`) |
| `MaskResponseHandler.BeforeBodyWriteSpec` | MaskResponseHandler.java:44-54 | `beforeBodyWrite` on the graph's value (stated by `BeforeBodyWriteOnlyMasks` and `BeforeBodyWrite`) |
| `MaskResponseHandler.BeforeBodyWrite` | MaskResponseHandler.java:44-54 | `beforeBodyWrite` returns the very same body; a collection body has each element masked in iteration order, any other body is masked once |
| `MaskResponseHandlerProperties.MaskFieldOnlyMasks` | MaskResponseHandler.java:88-132 | `maskField` only masks characters of string properties, whatever the path, regex or matches |
| `MaskResponseHandlerProperties.MaskEachOnlyMasks` | MaskResponseHandler.java:125-130 | so does `maskField` over every element of a collection |
| `MaskResponseHandlerProperties.RunCallsOnlyMasks` | MaskResponseHandler.java:68-75 | so do the calls planned for one entry |
| `MaskResponseHandlerProperties.RunEntriesOnlyMasks` | MaskResponseHandler.java:64-76 | so do all entries of a configuration value |
| `MaskResponseHandlerProperties.MaskObjectOnlyMasks` | MaskResponseHandler.java:61-78 | so does `maskObject`, even when it raises part-way |
| `MaskResponseHandlerProperties.MaskEachObjectOnlyMasks` | MaskResponseHandler.java:46-49 | so does `maskObject` over every element of a collection body |
| `MaskResponseHandlerProperties.BeforeBodyWriteOnlyMasks` | MaskResponseHandler.java:44-54 | the whole response: the graph keeps its shape, and its strings keep their length with only masked characters changed |
| `MaskResponseHandlerProperties.RunEntriesAppend` | MaskResponseHandler.java:64-76 | entries are processed in order on the graph earlier ones left: running `a + b` is running `a` and then, unless it raised, `b` |
| `MaskResponseHandlerProperties.BlankRegexNeverRaises` | MaskResponseHandler.java:99-104 | with a blank regex, `maskField` never raises, at any depth |
| `MaskResponseHandlerProperties.BlankRegexNeverRaisesEach` | MaskResponseHandler.java:125-130 | nor does it over the elements of a collection |
| `MaskResponseHandlerProperties.MaskFieldCases` | MaskResponseHandler.java:88-131 | a null node, an empty path or an unreadable segment changes nothing; a string with a blank regex is replaced by its mask even when segments remain; with a regex, a bad pattern or a bad group raises and otherwise the splice result is written; a collection is descended with the remaining segments and the same regex; any other value, nested beans included, is left alone |
| `MaskResponseHandlerProperties.MaskEachEmptyPath` | MaskResponseHandler.java:89-91 | with no segments left, masking every element of a collection changes nothing |
| `MaskResponseHandlerProperties.MaskFieldTwice` | MaskResponseHandler.java:99-104 | masking an undotted field with no regex twice is the same as masking it once |
| `MaskResponseHandlerProperties.WriteSameAgain` | MaskResponseHandler.java:102 | writing back the value a plain property already holds leaves the graph unchanged |
| `MaskResponseHandlerProperties.SpliceOne` | MaskResponseHandler.java:109-118 | a loop over a single text match is one splice step |
| `MaskResponseHandlerProperties.SpliceAllSingle` | MaskResponseHandler.java:106-118 | a single captured non-blank text whose first character does not occur before it is masked where it stands, the rest of the string kept |
| `MaskResponseHandlerProperties.SpliceFirstOccurrence` | MaskResponseHandler.java:112-116 | when the captured text occurs first at `i` and the match came from a later, disjoint `j`, the span at `i` is masked and the span at `j` is left as it was |
| `MaskResponseHandlerProperties.SameSuffixSameSpan` | MaskResponseHandler.java:115-116 | a splice keeps the suffix after the masked span, so every span there is unchanged |
| `MaskResponseHandlerProperties.EntryCallsPlain` | MaskResponseHandler.java:65-69 | a bare property name plans one call on that segment with no regex |
| `MaskResponseHandlerProperties.EntryCallsEmptyClause` | MaskResponseHandler.java:65-69 | `name::` plans one call on segment `name` with no regex: the empty clause is dropped by `split` |
| `MaskResponseHandlerProperties.EntryCallsOnlySeparator` | MaskResponseHandler.java:65-66 | `::` has no plan: `formats[0]` raises |
| `MaskResponseHandlerProperties.EntryCallsList` | MaskResponseHandler.java:67 | `outer(List).inner` plans one call on the segments `outer`, `inner` |
| `MaskResponseHandlerProperties.EntryCallsTwoClauses` | MaskResponseHandler.java:70-74 | `name::A::B` plans two calls on `name`, with regexes `A` then `B` |

## Left out

- `supports` and the `Environment` lookups (MaskResponseHandler.java:33-41, 62)
  are Spring configuration plumbing.
  - `MaskObject` takes the configuration value for the body as the parameter
    `fields`.
  - `BeforeBodyWrite` takes the per-object lookup as the function `fieldsOf`.
  - The class name and the `.mask` suffix are part of that lookup, not of
    the model.
- `java.util.regex` compilation and matching are an oracle (`Finder`). The
  model does not define which patterns are malformed or what they match.
  It only fixes that matches are taken from the original value, in order.
- `StringUtil` is not part of this model. `isBlank` is taken to mean "null,
  or every character is `\s` whitespace" (`JavaStrings.IsBlank`).
- Commons-BeanUtils reflection is reduced to records of named properties
  with a set of read-only ones.
  - Plain and dotted names are modelled.
  - The indexed `[i]` and mapped `(k)` name syntax is left out.
  - So are the bean properties of strings and collections themselves (such
    as `empty` or `class`): a string or collection has no readable property
    here.
  - A failed read or write is "no change"; what exception BeanUtils threw
    inside is not modelled.
- `Beans.Field` does not tell beans and maps apart: an empty property name
  never reads or writes anything. For a map, Java's `getProperty(map, "")`
  and `setProperty` use the `""` key, so an empty segment (from an entry
  such as `(List).x`) can mask a map's `""` entry in Java but not here.
- Collections are values (`Coll`) that the engine reads and never changes.
  The objects they hold are references into the graph, so updates through
  them are shared.
- Strings are sequences of code points. Java replaces a supplementary code
  point (two UTF-16 `char`s) by a single `x`, so UTF-16 lengths are not
  modelled.
- Spring annotations, dependency injection, the HTTP request and response,
  and serialisation are outside the model.
- Each Java loop is a method of its own, so each can carry its own contract:
  - `MaskEntries` is the loop over the entries of `maskObject`;
  - `MaskEntry` is that loop's body;
  - `MaskClauses` is the inner loop over the regex clauses;
  - `MaskEach` is `maskField`'s loop over a collection;
  - `MaskSpans` is the `while (m.find())` loop.

  Their behaviour is unchanged.
