# Shakesearch search core in Dafny

Shakesearch serves searches over the complete works of Shakespeare. The
corpus is a single text with "\r\n" line breaks, and every search is
case-insensitive. A query is located in one of two ways:

- substring mode: a suffix-array lookup;
- whole-word mode: a scan for the pattern `\b<query>\b`.

Each match becomes a result made of two parts:

- a snippet: the text around the match, with line breaks turned into
  `<br>` and cut down to the complete sentences it holds;
- a play label: the work title and, when there is one, the act. Both are
  recovered by walking the lines above the match backwards.

The response message reports the query that was searched and the number of
results.

The project models that core:

- `go_strings.dfy` (module `GoStrings`): the functions of Go's `strings`
  package that the searcher calls (`ToLower`, `Split`, `Replace`,
  `TrimSpace`, `IndexAny`, `LastIndexAny`, `HasPrefix`), and `Join`, used to
  state what `Split` and `Replace` keep. Each is defined on ASCII text and
  comes with lemmas that pin down its meaning.
- `sentences.dfy` (module `Sentences`): `TrimSentences` and its separators.
- `matching.dfy` (module `Matching`): the two ways a query is located. The
  suffix-array lookup is modelled as the list of every occurrence. The
  `\b<q>\b` scan is modelled as leftmost, non-overlapping matching.
- `provenance.dfy` (module `Provenance`): the work-title and act
  heuristics as recursive specifications over the lines before a match.
- `shakesearch.dfy` (module `Shakesearch`): the `Searcher`, whose methods
  `RecoverWorkTitle`, `RecoverMatchAct` and `Search` are loops proved
  against those specifications. It also holds the window clamping, the
  snippet and the assembly of the results.
- `message.dfy` (module `Message`): the query the response reports and its
  message text.
- `fixtures.dfy` (module `Fixtures`): the unit-test fixtures stated as
  lemmas about the model.

## Model

| member | source | states |
|---|---|---|
| GoStrings.LowerChar | main.go:206 | the fold leaves no upper-case letter, keeps `\w`-ness and changes nothing but A–Z |
| GoStrings.ToLower | main.go:206 | the lowercase copy has the corpus's length and is its character-wise fold, so its offsets are the corpus's offsets |
| GoStrings.HasPrefix | main.go:246 | `s` begins with `prefix`: the act-heading test; its use is stated by `Provenance.ActOfSpec` |
| GoStrings.Split | main.go:218 | a split always has at least one piece |
| GoStrings.JoinSplit | main.go:218 | joining the pieces of `strings.Split` with the separator gives back the text, so the lines lose nothing |
| GoStrings.SplitFirstPiece | main.go:249 | the first piece of a split is a prefix that holds no separator and is followed by one when it is shorter than the text |
| GoStrings.FirstPieceFree | main.go:218 | the first piece of a split holds no occurrence of the separator |
| GoStrings.SplitPiecesFree | main.go:218 | no piece of a split holds the separator, so no line of the corpus holds "\r\n" |
| GoStrings.SliceFree | main.go:302 | a slice of a text without a pattern is without it too |
| GoStrings.SplitWithout | main.go:218 | text without the separator splits into itself alone |
| GoStrings.SplitLinesAppend | main.go:218 | the lines of `a + "\r\n" + b` are the lines of `a` followed by the lines of `b` |
| GoStrings.Replace | main.go:304 | leftmost non-overlapping replacement of every occurrence; its meaning is given by `GoStrings.ReplaceIsJoinSplit` and `GoStrings.ReplaceLinesRemovesCRLF` |
| GoStrings.ReplaceIsJoinSplit | main.go:304 | replacing every "\r\n" is joining the split pieces with the replacement |
| GoStrings.ReplaceLinesRemovesCRLF | main.go:303-304 | after the `<br>` replacement no "\r\n" is left in the snippet |
| GoStrings.TrimSpace | main.go:191 | white space removed from both ends; its meaning is given by `GoStrings.TrimSpaceSpec` and `GoStrings.TrimSpaceOf` |
| GoStrings.TrimSpaceSpec | main.go:191 | `TrimSpace` removes white space, and only white space, from both ends, and its result has no white space at either end |
| GoStrings.TrimSpaceFree | main.go:191 | trimming a text without a pattern leaves a text without it |
| GoStrings.TrimSpaceEmpty | main.go:191 | `TrimSpace` gives "" exactly when the text is all white space |
| GoStrings.TrimSpaceKeepsLast | main.go:191 | a text ending in a non-space keeps that character last |
| GoStrings.TrimSpaceOf | main.go:191 | white space, then a core without outer white space, then white space trims to the core |
| GoStrings.IndexAny | main.go:181 | -1 exactly when no character of the set occurs; otherwise the first offset holding one |
| GoStrings.LastIndexAny | main.go:183 | -1 exactly when no character of the set occurs; otherwise the last offset holding one |
| GoStrings.IndexAnyAt | main.go:181 | any offset that holds a separator with none before it is the `IndexAny` result |
| GoStrings.LastIndexAnyAt | main.go:183 | any offset that holds a separator with none after it is the `LastIndexAny` result |
| Sentences.Separators | main.go:168-178 | the separators are ".,?!", plus the space exactly when cutting at white space |
| Sentences.TrimSentences | main.go:173-192 | a non-empty result has no white space at either end and comes from a text holding separators at two different offsets |
| Sentences.TrimBetweenSeparators | main.go:180-191 | for any separator set: a non-empty result has no white space at either end and the text holds separators at two different offsets |
| Sentences.TrimSentencesFree | main.go:180-191 | trimming a text without a pattern leaves a text without it, so a result built from a snippet holds no "\r\n" |
| Sentences.TrimSentencesBetween | main.go:180-191 | with first separator `i` before last separator `j`, the result is the trimmed text `(i, j]`, and it is "" exactly when that stretch is all white space |
| Sentences.TrimSentencesNoPair | main.go:185-188 | without separators at two different offsets the result is "" |
| Sentences.TrimSentencesSentenceMode | main.go:173-191 | without white-space cutting the result is "" exactly when there are no two separators, and a non-empty result ends with a separator |
| Sentences.TrimSentencesSpacesOnly | main.go:176-191 | with white-space cutting, two adjacent spaces are two separators yet give "" |
| Sentences.TrimSentencesAround | main.go:173-191 | a fragment, ". ", complete sentences, " " and a fragment trim to the complete sentences, for either flag value |
| Sentences.TrimSentencesExample | main_test.go:84-95 | the unit test's window trims to its two complete sentences, for either flag value |
| Matching.LowerOccursAt | main.go:266-272 | the folded query occurs in the folded corpus at `i` exactly when the query matches the corpus there up to case |
| Matching.OccurrencesFrom | main.go:272 | ascending offsets from `from` on, each an occurrence, missing none |
| Matching.Lookup | main.go:272 | `Lookup(q, -1)` gives every occurrence, each once, and nothing for an empty query |
| Matching.FindAllFrom | main.go:274-275 | every match is a bounded occurrence of the query, and the matches do not overlap and come in order |
| Matching.FindAll | main.go:275 | match starts strictly ascend |
| Matching.Starts | main.go:276-280 | the list of offsets is the start of each match, in order |
| Matching.NoOverlap | main.go:274 | two bounded occurrences of a word query never overlap |
| Matching.FindAllFromComplete | main.go:274-275 | resuming after each match skips no bounded occurrence |
| Matching.FindAllStarts | main.go:274-280 | the match starts are exactly the offsets where the query occurs with a `\b` on each side, ascending |
| Matching.FragmentExcluded | main.go:274 | an occurrence followed by a word character is not found in whole-word mode |
| Matching.LowerWordQuery | main.go:267-274 | lowercasing keeps a word query a word query |
| Matching.Located | main.go:269-281 | every located offset is an offset of the corpus |
| Matching.LookupInText | main.go:272 | offsets found in the lowercase copy are offsets of the corpus |
| Matching.LocatedSpec | main.go:269-281 | in substring mode exactly the case-insensitive occurrences are located, each once; in whole-word mode exactly the bounded occurrences in the folded text, ascending |
| Provenance.TitleScan | main.go:222-234 | the backward scan with the contents-found flag; its meaning is given by `Provenance.ScanFound`, `ScanFoundNone`, `ScanToContents` and `ScanNoContents` |
| Provenance.WorkTitle | main.go:214-234 | the scan started without the flag; its meaning is given by `Provenance.WorkTitleIsTitleLine` and `Provenance.WorkTitleUnknown` |
| Provenance.ScanFound | main.go:222-226 | once "Contents" has been passed, the scan returns the last non-empty line |
| Provenance.ScanFoundNone | main.go:222-234 | once "Contents" has been passed, all-empty lines give "?" |
| Provenance.ScanToContents | main.go:222-231 | before "Contents" is met, the scan skips to the last contents line and goes on from there |
| Provenance.ScanNoContents | main.go:222-234 | without a "Contents" line the title is "?" |
| Provenance.WorkTitleIsTitleLine | main.go:214-234 | the title is the last non-empty line above the last "Contents" line |
| Provenance.WorkTitleUnknown | main.go:233-234 | when no such line exists the title is "?" |
| Provenance.ActOf | main.go:244-256 | the act of the last heading, cut at its first '.'; its meaning is given by `Provenance.ActOfSpec` |
| Provenance.ActHeading | main.go:249 | the text of an act heading before its first '.' still starts with "ACT " and holds no '.' |
| Provenance.ActOfAt | main.go:244-251 | the act is taken from the last line that starts with "ACT " |
| Provenance.ActOfNone | main.go:255-256 | lines without an act heading give "" |
| Provenance.ActOfSpec | main.go:238-256 | the act is "" exactly when no line is a heading; otherwise it is the last heading up to its first '.', and so starts with "ACT " and holds no '.' |
| Shakesearch.Play | main.go:308-311 | the label starts with the title; it is the title alone exactly when the act is unknown, otherwise the title, " - " and the act |
| Shakesearch.Window | main.go:290-301 | the clamped bounds lie in `[0, len-1]`, in order; the start lies between half the query size before the match and the match itself, and the end lies at most half the query size after the match |
| Shakesearch.InWindow | main.go:290-302 | an offset is in the snippet exactly when it is within half the query size before the match, or before the point that far after it, and is not the corpus's last offset |
| Shakesearch.WindowLength | main.go:290-301 | the window is at most twice the half size, and exactly that long when the match is that far from both ends |
| Shakesearch.Snippet | main.go:302-304 | the snippet holds no "\r\n" |
| Shakesearch.ResultAt | main.go:286-313 | a match gives at most one result, whose text is non-empty with no white space at either end and holds no raw "\r\n" |
| Shakesearch.MapOffsets | main.go:286 | one entry per offset, in order |
| Shakesearch.Assemble | main.go:284-316 | the per-offset results flattened in offset order; its meaning is given by `Shakesearch.AssembleAppend`, `AssembleOne` and `AssembleTexts` |
| Shakesearch.AssembleAppend | main.go:284-316 | the results of two lists of offsets are the results of each, in order |
| Shakesearch.AssembleNext | main.go:286-313 | one more offset appends its own result |
| Shakesearch.AssembleOne | main.go:306-313 | an offset whose snippet trims to nothing is dropped; any other adds its one result in place |
| Shakesearch.AssembleTexts | main.go:284-316 | there are at most as many results as located offsets, and every result text is non-empty, without white space at either end, and holds no raw "\r\n" |
| Shakesearch.Searcher.Load | main.go:197-211 | the searcher holds the corpus, and its lowercase copy is the fold of the corpus |
| Shakesearch.Searcher.RecoverWorkTitle | main.go:214-235 | the backward loop returns the work title of the lines before `idx` |
| Shakesearch.Searcher.RecoverMatchAct | main.go:238-257 | the backward loop returns the act of the lines before `idx` |
| Shakesearch.Searcher.LocateMatches | main.go:266-281 | the offsets are those located for the query in the selected mode |
| Shakesearch.Searcher.ResultFor | main.go:287-313 | one loop iteration gives that offset's result: the trimmed snippet with its play label, or nothing |
| Shakesearch.Searcher.Search | main.go:262-317 | the results are the per-offset results of the located offsets, in order |
| Message.Itoa | main.go:136 | the numeral is non-empty, all digits, and starts with '0' only for zero |
| Message.AtoiItoa | main.go:136-138 | reading back the numeral of a count gives the count |
| Message.ItoaInjective | main.go:136-138 | different counts have different numerals |
| Message.ResultsPhrase | main.go:133-141 | the count phrase; its meaning is given by `Message.ResultsPhraseSpec` |
| Message.ResultsPhraseSpec | main.go:133-141 | "no results ..." exactly for zero; otherwise "a total of " with the count's decimal numeral (`Itoa`, digits only, no leading zero, reading back as the count), and "result" singular exactly for one |
| Message.FinalQuery | main.go:119-125 | the reported query is the corrected one when there is one, otherwise the original |
| Message.Message | main.go:143-149 | the response message; its meaning is given by `Message.MessageSpec` |
| Message.MessageSpec | main.go:143-149 | the message quotes the reported query after the opening for a corrected or uncorrected search, and ends with the count phrase and "." |
| Fixtures.SonnetsWorkTitle | main_test.go:118-133 | the title recovered at offset 28 of the Sonnets opening is "THE SONNETS" |
| Fixtures.SonnetsLines | main_test.go:121 | the first 28 characters of the Sonnets fixture split into the title, "", "Contents", "" and "b" |
| Fixtures.HamletAct | main_test.go:135-151 | the act recovered at offset 35 of the Hamlet opening is "ACT I" |
| Fixtures.ActOneHeading | main_test.go:147 | "ACT I" holds no '.', so it is its own act |
| Fixtures.TrimBetweenSpaces | main.go:176-191 | with white-space cutting, a fragment, a space, a core, a space and a fragment trim to the core |
| Fixtures.UnknownPlay | main_test.go:172 | a single line without "Contents" or an act heading gives the label "?" |
| Fixtures.FirstResult | main_test.go:169-173 | the match at offset 3 with size 10 gives the result ("be", "?") |
| Fixtures.SecondResult | main_test.go:174-177 | the match at offset 16 with size 10 gives the result ("to be,", "?") |
| Fixtures.SearchBeResults | main_test.go:153-182 | offsets 3 and 16 give exactly the two expected results, in order |
| Fixtures.BeLocated | main_test.go:153-166 | over the opening followed by text without "be", a substring search for "be" locates exactly `[3, 16]` |
| Fixtures.BeMatches | main_test.go:153-166 | "be" matches such a text up to case exactly at offsets 3 and 16 |
| Fixtures.SearchBeOutcome | main_test.go:153-182 | the results assembled from the located offsets are exactly `("be", "?")`, `("to be,", "?")` |
| Fixtures.SearchBe | main_test.go:153-182 | `Search("be", 10, false)` on a searcher loaded with such a text returns exactly the test's expected results |
| Fixtures.QuestioFragment | main_test.go:184-205 | "questio" is located at offset 32 in substring mode and is not located there in whole-word mode |
| Fixtures.QuestioAt | main_test.go:184-194 | "questio" matches the test's text at offset 32 |
| Fixtures.QuestioCut | main_test.go:184-194 | the match at offset 32 is followed by the word character 'n', so it is no whole-word match |
| Fixtures.QuestioMatches | main_test.go:184-194 | over the opening, " is the question" and text without "questio", "questio" matches up to case only at offset 32 |
| Fixtures.QuestioOnlyQ | main_test.go:186 | below offset 40 only offset 32 holds a 'q' or a 'Q' |
| Fixtures.QuestioLocated | main_test.go:184-194 | a whole-word search for "questio" over such a text locates nothing |
| Fixtures.SearchQuestioOutcome | main_test.go:184-205 | the results assembled from the located offsets are empty |
| Fixtures.SearchQuestio | main_test.go:184-205 | `Search("questio", 10, true)` on a searcher loaded with such a text returns no result |
| Fixtures.AssembleTwo | main.go:286-313 | two offsets give the first offset's results followed by the second's |

## Left out

- The HTTP handler and `main` (main.go:21-53, 65-164 apart from the message lines) are left out, because they are I/O. This covers reading the form values, the JSON response and the static file server.
- `Searcher.Correct` and the OpenAI request (main.go:113-117 and the code after line 318) are left out, because they call a network service. `Message.FinalQuery` and `Message.MessageSpec` take the corrected query as a parameter.
- The file read in `Load` is left out, because it is I/O. `Shakesearch.Searcher.Load` takes the text already read.
- The construction of the suffix array is left out. Its `Lookup` is modelled by what it returns.
- The `Searcher.cutAtWhitespacesValue` field is left out, because it is set in `main` and never read. `Search` uses the constant `cutAtWhitespacesValue` (500), modelled as `Shakesearch.CutAtWhitespacesValue`.
- Matching.Lookup: the suffix array reports the occurrences in an order it does not specify. The model lists them in ascending order, so result order in substring mode is one of the possible orders.
- Shakesearch.Searcher.Search: whole-word mode is modelled only for queries made of `\w` characters (`WordQuery`). For these, `\b<q>\b` matches the query literally. Other queries are compiled by `regexp.MustCompile` as regular-expression syntax, and may panic; they are not modelled.
- Shakesearch.Searcher.LocateMatches and Matching.Located carry the same word-query requirement in whole-word mode, for the same reason.
- Shakesearch.Window: the window requires a non-negative query size. For a negative size, Go's `math.Floor` of the halved size makes the start of the slice pass its end, and the Go slice panics.
- Shakesearch.Window: `math.Floor(float64(querySize) / 2.0)` is modelled as integer halving. The two agree for non-negative sizes below 2^53.
- 64-bit overflow of `idx + halfQuerySize` is not modelled, because integers are unbounded here.
- Text is a sequence of characters, not UTF-8 bytes. Case folding, `\w`, `\b` and white space are their ASCII definitions. Offsets into non-ASCII text, such as the curly apostrophes of the corpus, are byte offsets in Go and are not modelled.
- Sentences.TrimSentencesSentenceMode: the "empty exactly when there are no two separators" statement is proved without white-space cutting only. With cutting, adjacent spaces are a counterexample (`Sentences.TrimSentencesSpacesOnly`).
- The unit test at main_test.go:90 calls `TrimSentences` with one argument, while the function takes two. `Sentences.TrimSentencesExample` proves the expected result for both values of the flag.
- The end-to-end test (main_test.go:22-82) is left out, because it needs the corpus file and a server. Its expected message, "The query was 'Luke'. ...", is not the format composed at main.go:147-148.
- The fixture lemmas cover only the part of each fixture text that the offsets reach. The rest of the text is a parameter `rest`.
- Fixtures.BeLocated: exactness holds for any `rest` without "be" up to case; the test's text after the opening has none, but that is not proved of the literal.
- Fixtures.QuestioLocated: the empty result holds for any `rest` without "questio" up to case; the test's text after "question" has none, but that is not proved of the literal.
- `Shakesearch.Searcher.LocateMatches` and `Shakesearch.Searcher.ResultFor` are the two halves of the body of `Search`: the location step and one iteration of its loop. They are split out as methods to keep each proof small.
