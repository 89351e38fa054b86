# pmworks dashboard: the JQL filter builder and the list screens

pmworks is a web dashboard for building Jira Query Language (JQL) filters,
starting collection runs on a remote collector and charting the work logs
it has collected. This project models in Dafny the logic of four of its
client components and proves properties of that model:

- **The filter builder** (`src/components/JQLBuilder.tsx`).
  - The field and operator tables.
  - The compiler that turns the condition list into query text, whenever the list changes.
  - The importer that reads pasted query text back into conditions. It
    splits at `\s+AND\s+` (case-insensitive) and matches each clause
    against `^([a-zA-Z]+)\s*(=|!=|>=|<=|>|<|~|!~|in|not\s+in)\s*(.+)$`.
  - The edits the builder makes to its list: add, remove, update, field
    change and the department bulk add.
- **The user-management screen** (`src/components/UserManagement.tsx`).
  - The department list and filter.
  - The rows kept from an imported sheet.
  - The selection toggles, the deletes and the add/edit form submit.
- **The collection history list** (`src/components/HistoryList.tsx`).
  - The tick-box selection and the guarded delete.
  - The `cn` class-name helper.
- **The dashboard charts** (`src/components/DashboardCharts.tsx`): the bar
  chart height, the bar colours and the month-axis labels.

The code is modelled in the form it has:

- The compiler and the importer loop over their input and push to an
  array. They are methods with loops, proved against recursive specification
  functions (`JqlCompiler.Layout`, `JqlImporter.Clauses`).
- The regular expressions are written out as ECMAScript evaluates them:
  - `\s` is the WhiteSpace and LineTerminator set.
  - `split` uses the SplitMatcher scan.
  - The clause pattern backtracks in its real order: the longest
    identifier first, then the most white space, then the alternatives in
    the order listed, then the value.
- Builder edits produce a new list. They are functions.
- The user-management and history screens hold state that their handlers
  replace. They are classes (`UserManagement.UserList`,
  `HistoryList.History`) whose methods state their whole new state, in
  terms of pure functions on sequences that carry the lemmas.

Every module is small and imports what it uses: `Wrappers` (Option),
`Seqs` (filter, join, split, `Array.from(new Set(...))`), `Text` (white
space, trim, code-point order and sort), then `JqlModel`, `JqlCompiler`,
`JqlImporter`, `JqlImporterExamples`, `JqlRoundTrip`, `JqlEdits`,
`Users`, `UserManagement`, `HistoryList` and `DashboardCharts`.

Behaviour of the code that the proofs make explicit:

- Import does nothing for empty text. The code returns before parsing, so
  the text fallback is used only for non-empty text that yields no clause
  (`JqlImporter.ImportJql`).
- Removing leaves at least one condition only while ids are distinct. Two
  conditions sharing an id are both removed, which empties a two-item list
  (`JqlEdits.RemoveSharedId`).
- Between two parts the compiler writes the connective of the condition
  just before the later part in the list. That condition may itself have
  written nothing (`JqlCompiler.LayoutConnectiveOfSilent`).
- The clause pattern backtracks into the identifier. `domain (x)` reads as
  field `doma`, operator `in`, value `(x)` (`JqlImporterExamples.DomainClause`).
- `not\s+in` keeps its inner white space. The lower-cased operator can be
  `not  in`.
- Ticking a history row does not look for the id first, so it can be
  listed twice (`HistoryList.SelectTwice`).
- The account input is disabled while a user is edited, and the form is
  reset to that user, so an edit submits the edited user's own account.
  An account nobody has replaces nobody (`UserManagement.ReplaceMissing`).
- When a server call of the user screen throws, the handler stops before
  it updates anything: the list, the selection and an open dialog stay as
  they were (`UserManagement.UserList.Submit` and the deletes).
- For `in` on an ordinary field the compiler writes `f in ("")` for empty
  text and `f in ()` for an empty list (`JqlCompiler.PartOfEmptyIn`), and
  the importer reads `()` back as a list of one empty item
  (`JqlRoundTrip.EmptyListReadsBack`).
- The importer strips a quote at each end on its own, so `'abc` and a
  mismatched `"abc'` both give `abc` (`JqlImporter.StripQuotes`); the
  compiler strips `(` and `)` the same way (`JqlCompiler.StripParens`).

## Model

| member | source | states |
|---|---|---|
| JqlModel.OperatorsCoverFields | src/components/JQLBuilder.tsx:66-98 | a field has operators (`Operators`, the OPERATORS table) exactly when it is in `FieldOptions`, the FIELD_OPTIONS list |
| JqlCompiler.StripParens | src/components/JQLBuilder.tsx:192 | a leading `(` and a trailing `)` are each removed on their own: both when both are there, only the one present otherwise, nothing when neither is |
| JqlCompiler.PartOf | src/components/JQLBuilder.tsx:155-210 | a missing field or operator contributes nothing; a part is never empty; custom gives its trimmed text; for the author field, the date fields and an ordinary field, when a part is written (the texts are in the lemmas below) |
| JqlCompiler.PartOfAuthors | src/components/JQLBuilder.tsx:166-170 | the author field writes `ListPart`, `f op ("a", "b")` with each account trimmed and quoted (`QuotedList`), and nothing for an empty list or for text |
| JqlCompiler.PartOfDate | src/components/JQLBuilder.tsx:171-184 | a date field writes the `Comparison` of its trimmed text in the `DateText` form: formatted when it starts with a date (`HasDatePrefix`, the `^\d{4}-\d{2}-\d{2}` test) and the formatting does not throw, as typed otherwise; nothing for blank text or a list |
| JqlCompiler.ListPartOne | src/components/JQLBuilder.tsx:197 | one quoted item in parentheses is the one-item `ListPart` |
| JqlCompiler.InPartText | src/components/JQLBuilder.tsx:190-198 | text that is neither for issueFunction nor a function call is written as its comma pieces quoted, a comma-free text as one piece |
| JqlCompiler.PartOfInText | src/components/JQLBuilder.tsx:185-199 | `in` / `not in` with text: verbatim for issueFunction or a function call (`IsFunctionCall`, the `^[a-zA-Z]+\(.*\)$` test); otherwise the `ListPart` of the comma pieces of the text without its outer parentheses |
| JqlCompiler.PartOfInList | src/components/JQLBuilder.tsx:200-201 | `in` / `not in` with a list writes its `ListPart`, `f in ()` for an empty list |
| JqlCompiler.ListPartEmpty | src/components/JQLBuilder.tsx:201 | an empty list is written as empty parentheses |
| JqlCompiler.PartOfEmptyIn | src/components/JQLBuilder.tsx:185-201 | `in` writes `f in ("")` for empty text and `f in ()` for an empty list |
| JqlCompiler.EmptyInPart | src/components/JQLBuilder.tsx:192-197 | empty text is quoted as one empty item |
| JqlCompiler.PartOfOther | src/components/JQLBuilder.tsx:203-210 | any other operator: a list becomes `AnyOf`, one `Comparison` per item in parentheses joined by `SubLogic`, AND for an operator with `!` and OR otherwise; text becomes `f op "v"`; an empty list or blank text gives nothing |
| JqlCompiler.JoinToken | src/components/JQLBuilder.tsx:215 | the connective is the previous condition's logic, or "AND" when that is empty; it is never empty |
| JqlCompiler.Emitters | src/components/JQLBuilder.tsx:212-219 | the contributing positions, increasing, each with a part |
| JqlCompiler.EmittersComplete | src/components/JQLBuilder.tsx:212 | a position is listed exactly when its condition contributes a part |
| JqlCompiler.EmittersEmpty | src/components/JQLBuilder.tsx:212-222 | no position is listed exactly when no condition contributes |
| JqlCompiler.EmittersSkip | src/components/JQLBuilder.tsx:212 | a silent condition adds no position |
| JqlCompiler.EmittersPush | src/components/JQLBuilder.tsx:212-218 | a contributing condition adds its own position at the end |
| JqlCompiler.LaidSkip | src/components/JQLBuilder.tsx:212 | a silent condition keeps the layout valid |
| JqlCompiler.LaidFirst | src/components/JQLBuilder.tsx:212-218 | the first part is pushed with no connective before it |
| JqlCompiler.LaidNext | src/components/JQLBuilder.tsx:213-218 | a later part is pushed after the connective of the condition before it |
| JqlCompiler.Layout | src/components/JQLBuilder.tsx:212-219 | the parts pushed for the first n conditions; with no condition there are none |
| JqlCompiler.LayoutLaid | src/components/JQLBuilder.tsx:212-219 | the pushed list holds the parts in order at even places, with the connective of each part's previous condition between them |
| JqlCompiler.LaidUnique | src/components/JQLBuilder.tsx:212-219 | that layout determines the pushed list uniquely |
| JqlCompiler.LayoutConnectiveOfSilent | src/components/JQLBuilder.tsx:215 | with a silent middle condition, the connective written is that silent condition's |
| JqlCompiler.PushParts | src/components/JQLBuilder.tsx:155-220 | the forEach loop pushes exactly Layout's list |
| JqlCompiler.Compile | src/components/JQLBuilder.tsx:152-223 | the query is Layout's parts joined by spaces; it is empty exactly when no condition contributes |
| Text.SpaceRun | src/components/JQLBuilder.tsx:379 | the white-space run ends inside the text, at its end or before a non-space |
| Text.SpaceRunSpaces | src/components/JQLBuilder.tsx:379 | every character of the run is ECMAScript white space |
| Text.LetterRun | src/components/JQLBuilder.tsx:387 | `[a-zA-Z]+` taken greedily: all letters, ended by a non-letter or the end |
| Text.TrimStart | src/components/JQLBuilder.tsx:383 | a suffix whose removed prefix is white space and which starts with a non-space |
| Text.TrimEnd | src/components/JQLBuilder.tsx:383 | a prefix whose removed suffix is white space and which ends with a non-space |
| Text.Trim | src/components/JQLBuilder.tsx:383 | the result neither starts nor ends with white space |
| Text.TrimUnpadded | src/components/JQLBuilder.tsx:383 | unpadded text is its own trim |
| Text.TrimSpaced | src/components/JQLBuilder.tsx:396 | one leading space before unpadded text is trimmed away |
| Text.TrimIdempotent | src/components/JQLBuilder.tsx:383 | trimming twice is trimming once |
| Text.TrimEmpty | src/components/JQLBuilder.tsx:384 | the trim is empty exactly when the text is all white space |
| Text.TrimSlice | src/components/JQLBuilder.tsx:383 | the trim is a slice with white space on both sides |
| Text.SliceOfSlice | src/components/JQLBuilder.tsx:383 | a slice of a suffix is a slice of the whole |
| Text.LowerAscii | src/components/JQLBuilder.tsx:390 | lower-casing keeps the length |
| Text.LowerAsciiLowers | src/components/JQLBuilder.tsx:390 | lower-casing leaves no ASCII capital: each becomes its small letter, and every other character is unchanged |
| Text.LowerAsciiAppend | src/components/JQLBuilder.tsx:390 | lower-casing distributes over concatenation |
| Text.SpacesLowered | src/components/JQLBuilder.tsx:390 | lower-casing leaves white space as it is |
| Text.LessIrreflexive | src/components/UserManagement.tsx:75 | the order of `sort()` is irreflexive |
| Text.LessTransitive | src/components/UserManagement.tsx:75 | and transitive |
| Text.LessTotal | src/components/UserManagement.tsx:75 | and total on distinct strings |
| Text.LessAsymmetric | src/components/UserManagement.tsx:75 | and asymmetric |
| Text.Insert | src/components/UserManagement.tsx:75 | inserting into a sorted list keeps it sorted and adds exactly the element |
| Text.SortedCons | src/components/UserManagement.tsx:75 | putting in front an element that nothing later sorts before keeps the list sorted |
| Text.HeadBeforeInserted | src/components/UserManagement.tsx:75 | when the new element goes after the head, nothing else sorts before the head |
| Text.InsertedBeforeAll | src/components/UserManagement.tsx:75 | when the head does not sort before the new element, nothing sorts before the new element |
| Text.Sort | src/components/UserManagement.tsx:75 | the result is sorted and a permutation of the input |
| Text.SortedDistinct | src/components/UserManagement.tsx:75 | sorting distinct strings gives a strictly increasing list |
| Text.DistinctCount | src/components/UserManagement.tsx:75 | in a list without repetitions each element occurs at most once |
| Text.OccursTwice | src/components/UserManagement.tsx:75 | an element equal at two places occurs at least twice |
| Seqs.Filter | src/components/UserManagement.tsx:80 | `filter` keeps only elements that pass, all from the input, and every passing element |
| Seqs.FilterAppend | src/components/UserManagement.tsx:80 | filtering a concatenation concatenates the filters |
| Seqs.FilterCount | src/components/UserManagement.tsx:80 | a passing element keeps its number of occurrences; a failing one has none |
| Seqs.FilterAll | src/components/UserManagement.tsx:80 | a filter everything passes changes nothing |
| Seqs.FilterNone | src/components/HistoryList.tsx:234 | a filter nothing passes gives the empty list |
| Seqs.FilterDistinct | src/components/UserManagement.tsx:75 | filtering keeps a list free of repetitions |
| Seqs.MapIndexedSnoc | src/components/JQLBuilder.tsx:382-422 | mapping with the index over one more element adds its result at the end |
| Seqs.JoinSnoc | src/components/JQLBuilder.tsx:222 | appending a part appends one separator and the part |
| Seqs.JoinNonEmpty | src/components/JQLBuilder.tsx:222 | a join with a non-empty part is non-empty |
| Seqs.Split | src/components/JQLBuilder.tsx:396 | `split(",")` gives at least one piece, none holding the separator |
| Seqs.JoinSplit | src/components/JQLBuilder.tsx:396 | joining the pieces with the separator gives the text back |
| Seqs.SplitJoin | src/components/JQLBuilder.tsx:396 | splitting a join of separator-free pieces gives the pieces back |
| Seqs.SplitFree | src/components/JQLBuilder.tsx:396 | text without the separator is one piece |
| Seqs.SplitPrefix | src/components/JQLBuilder.tsx:396 | a separator-free prefix before a separator is the first piece |
| Seqs.SplitCommaSpace | src/components/JQLBuilder.tsx:396 | comma-free parts joined with `, ` split at commas into the first part and each later part after one space |
| Seqs.Dedup | src/components/JQLBuilder.tsx:674 | `Array.from(new Set(s))` has no repetitions and the same elements |
| Seqs.DedupMembers | src/components/JQLBuilder.tsx:674 | an element is in the deduplication exactly when it is in the list |
| Seqs.DedupPrefix | src/components/JQLBuilder.tsx:674 | appending never reorders the deduplication of what came before |
| Seqs.DedupStep | src/components/JQLBuilder.tsx:674 | one more element only extends the deduplication |
| Seqs.DedupOfDistinct | src/components/JQLBuilder.tsx:674 | a list without repetitions is its own deduplication |
| JqlImporter.AllSpaceWithinRun | src/components/JQLBuilder.tsx:379 | a stretch is all white space exactly when it fits in the white-space run |
| JqlImporter.DelimEnd | src/components/JQLBuilder.tsx:379 | a delimiter match from a position ends after it, inside the text |
| JqlImporter.DelimEndMatches | src/components/JQLBuilder.tsx:379 | a found end bounds a whole `\s+AND\s+` match with greedy trailing white space; none found means no match from there |
| JqlImporter.DelimEndSome | src/components/JQLBuilder.tsx:379 | white space, `and` in any case, white space is a match ending at a non-space |
| JqlImporter.DelimiterIsGreedy | src/components/JQLBuilder.tsx:379 | any match takes the whole white-space run before `and` |
| JqlImporter.DelimEndNone | src/components/JQLBuilder.tsx:379 | without that shape there is no match from the position |
| JqlImporter.SplitFrom | src/components/JQLBuilder.tsx:379 | the split scan gives at least one piece |
| JqlImporter.SplitFromNoDelimiter | src/components/JQLBuilder.tsx:379 | without a match the rest is one piece |
| JqlImporter.SplitAndNoDelimiter | src/components/JQLBuilder.tsx:379 | text without a match splits into itself |
| JqlImporter.AndLetters | src/components/JQLBuilder.tsx:379 | the letters of `and` are ASCII letters |
| JqlImporter.NoDelimiterInside | src/components/JQLBuilder.tsx:379 | no match starts inside a separable piece |
| JqlImporter.NoAndWordExtends | src/components/JQLBuilder.tsx:379 | text lengthened on the right still has no `and` inside the original |
| JqlImporter.ScanSeparable | src/components/JQLBuilder.tsx:379 | the scan passes over a separable piece without cutting |
| JqlImporter.SpaceRunShift | src/components/JQLBuilder.tsx:379 | a prefix does not change a white-space run after it |
| JqlImporter.DelimEndIs | src/components/JQLBuilder.tsx:379 | where a match from a position ends, given its runs |
| JqlImporter.AndAtShift | src/components/JQLBuilder.tsx:379 | a prefix does not change whether `and` stands at a position |
| JqlImporter.DelimEndAgree | src/components/JQLBuilder.tsx:379 | equal runs give equal matches, shifted |
| JqlImporter.DelimEndShift | src/components/JQLBuilder.tsx:379 | matches after a prefix are the matches of the rest, shifted |
| JqlImporter.SplitFromShift | src/components/JQLBuilder.tsx:379 | the scan after a prefix gives the pieces of the rest |
| JqlImporter.ShiftEnd | src/components/JQLBuilder.tsx:379 | the same, at the end of the text |
| JqlImporter.ShiftSkip | src/components/JQLBuilder.tsx:379 | the same, at a position without a match |
| JqlImporter.ShiftCut | src/components/JQLBuilder.tsx:379 | the same, at a cut |
| JqlImporter.SliceShift | src/components/JQLBuilder.tsx:379 | a slice after a prefix is the slice of the rest |
| JqlImporter.SplitSkip | src/components/JQLBuilder.tsx:379 | the scan moves past a position without a match |
| JqlImporter.SplitCut | src/components/JQLBuilder.tsx:379 | at a match the scan ends a piece and restarts after it |
| JqlImporter.JoinDelimiter | src/components/JQLBuilder.tsx:379 | ` AND ` before a non-space is a match of five characters |
| JqlImporter.SplitAndCons | src/components/JQLBuilder.tsx:379 | a separable piece, ` AND `, rest splits into the piece and the rest's pieces |
| JqlImporter.SplitAndJoin | src/components/JQLBuilder.tsx:379 | separable clauses joined with ` AND ` are split back by `SplitAnd` into exactly those clauses |
| JqlImporter.AlternativeEnd | src/components/JQLBuilder.tsx:387 | an operator alternative ends inside the text, after its start |
| JqlImporter.EndsOf | src/components/JQLBuilder.tsx:387 | the ends of the alternatives that match, inside the text |
| JqlImporter.OperatorEnds | src/components/JQLBuilder.tsx:387 | the operator group's ends, in the order tried |
| JqlImporter.ValueFrom | src/components/JQLBuilder.tsx:387 | `\s*(.+)$` gives back white space one character at a time: the latest value start, else none |
| JqlImporter.FirstValue | src/components/JQLBuilder.tsx:387 | the first alternative whose value matches, nothing earlier matching |
| JqlImporter.SearchSpace | src/components/JQLBuilder.tsx:387 | `\s*` before the operator gives back characters: the longest white space that matches |
| JqlImporter.SearchField | src/components/JQLBuilder.tsx:387 | `[a-zA-Z]+` gives back letters: the longest identifier that matches, none failing only if none matches |
| JqlImporter.MatchClause | src/components/JQLBuilder.tsx:387 | a found match satisfies every part of the pattern |
| JqlImporter.SearchFieldSound | src/components/JQLBuilder.tsx:387 | the searched match parses |
| JqlImporter.MatchClauseFirst | src/components/JQLBuilder.tsx:387 | if any match parses, the pattern matches, and at that or at one tried before it |
| JqlImporter.FirstByField | src/components/JQLBuilder.tsx:387 | no parsing match has a longer identifier |
| JqlImporter.FirstBySpace | src/components/JQLBuilder.tsx:387 | with the same identifier, none has more white space before the operator |
| JqlImporter.FirstByOperator | src/components/JQLBuilder.tsx:387 | then none uses an earlier alternative |
| JqlImporter.FirstByValue | src/components/JQLBuilder.tsx:387 | then none has more white space before the value |
| JqlImporter.ParsesValue | src/components/JQLBuilder.tsx:387 | a parsing match has a value start after its operator |
| JqlImporter.ParsesOperator | src/components/JQLBuilder.tsx:387 | and an operator at its position |
| JqlImporter.ParsesSpace | src/components/JQLBuilder.tsx:387 | and a white-space search that succeeds |
| JqlImporter.FirstLetter | src/components/JQLBuilder.tsx:387 | a case-insensitive word match starts with the word's letters |
| JqlImporter.EndsOfNone | src/components/JQLBuilder.tsx:387 | alternatives that all fail give no end |
| JqlImporter.NoOperatorAt | src/components/JQLBuilder.tsx:387 | no alternative matches where no operator can start |
| JqlImporter.OnlyInAt | src/components/JQLBuilder.tsx:387 | at `in` before a non-letter only `in` matches |
| JqlImporter.EndsOfAppend | src/components/JQLBuilder.tsx:387 | the ends of two lists of alternatives concatenate |
| JqlImporter.StripQuotes | src/components/JQLBuilder.tsx:396-399 | a leading and a trailing quote are each removed on their own: `'abc` gives `abc`, a mismatched `"abc'` gives `abc`, a lone quote gives the empty text; unquoted text is unchanged |
| JqlImporter.StripQuotesOfQuoted | src/components/JQLBuilder.tsx:399 | a quoted value loses exactly its quotes |
| JqlImporter.ParseValue | src/components/JQLBuilder.tsx:395-400 | a list exactly for a value in parentheses, with one item per comma piece of the inside, that piece trimmed and its quotes stripped; any other value is the text with its quotes stripped |
| JqlImporter.ClauseCondition | src/components/JQLBuilder.tsx:402-421 | the condition has the given id, logic AND and an offered field |
| JqlImporter.ClauseConditionCases | src/components/JQLBuilder.tsx:387-421 | an unmatched clause, or one naming a field FIELD_OPTIONS does not offer, becomes the `Demoted` condition: custom, operator none, the whole clause as text; a supported one (`Supported`: matched, on an offered field) keeps its `FieldGroup` as field; its operator, the trimmed and lower-cased `OperatorGroup`, has no capital and is an `ImportedOperator`: one of the listed symbols, `in`, or `not`, white space, `in`, so `IN` gives `in`; and its trimmed `ValueGroup` becomes a list of unquoted comma pieces when parenthesised and the unquoted text otherwise |
| JqlImporter.SupportedOperator | src/components/JQLBuilder.tsx:390 | the operator of a supported clause has no capital and is an `ImportedOperator` |
| JqlImporter.SupportedValue | src/components/JQLBuilder.tsx:391-400 | the value of a supported clause is its trimmed value group: the unquoted comma pieces when parenthesised, the unquoted text otherwise |
| JqlImporter.OperatorGroupImported | src/components/JQLBuilder.tsx:387-390 | whatever alternative the operator group matched, trimmed and lower-cased it is one of the listed operators, `not`+white space+`in` keeping the white space |
| JqlImporter.EndsOfFrom | src/components/JQLBuilder.tsx:387 | every end the operator group can take was given by one of the alternatives |
| JqlImporter.NotInGroup | src/components/JQLBuilder.tsx:387-390 | `not\s+in` in any case lower-cases to `not`, the same white space and `in` |
| JqlImporter.LiteralGroup | src/components/JQLBuilder.tsx:387-390 | a symbol or `in` matched in any case lower-cases to the listed word |
| JqlImporter.TrimAll | src/components/JQLBuilder.tsx:383 | one piece out per piece in |
| JqlImporter.TrimAllAt | src/components/JQLBuilder.tsx:383 | each piece is trimmed in its place |
| JqlImporter.ClausesTrimmed | src/components/JQLBuilder.tsx:379-384 | every one of `Clauses`, the pieces of `SplitAnd` kept, is non-blank and trimmed |
| JqlImporter.ConditionsOf | src/components/JQLBuilder.tsx:405-420 | one condition per clause, the k-th from clause k with id `ids(k)`, each joined by AND and on an offered field |
| JqlImporter.ConditionsOfSnoc | src/components/JQLBuilder.tsx:405-420 | one more clause adds its condition at the end |
| JqlImporter.TrimAllSnoc | src/components/JQLBuilder.tsx:383 | one more piece adds its trim |
| JqlImporter.FilterNonBlankOne | src/components/JQLBuilder.tsx:384 | a blank piece is dropped and another kept |
| JqlImporter.ClausesStep | src/components/JQLBuilder.tsx:382-384 | each piece adds its trim when that is not blank |
| JqlImporter.ParseClauses | src/components/JQLBuilder.tsx:379-422 | the loop yields the conditions of the non-blank trimmed pieces, in order |
| JqlImporter.ImportOffered | src/components/JQLBuilder.tsx:424-438 | the parsed conditions, or the `Fallback` text search when there are none, are never empty and each is joined by AND on an offered field |
| JqlImporter.ImportJql | src/components/JQLBuilder.tsx:374-441 | empty text keeps the list; non-empty text without clauses gives the `Fallback` text search; otherwise the conditions of `Clauses`, the non-blank trimmed pieces of `SplitAnd`; non-empty text always leaves at least one condition, each joined by AND on an offered field |
| JqlImporterExamples.DomainClause | src/components/JQLBuilder.tsx:387 | `domain (x)` matches as identifier `doma`, operator `in`, value `(x)` |
| JqlImporterExamples.DomainParses | src/components/JQLBuilder.tsx:387 | that match satisfies the pattern |
| JqlImporterExamples.ParsesAt | src/components/JQLBuilder.tsx:387 | the identifier run, the operator and the value that make it parse |
| JqlImporterExamples.DomainLetters | src/components/JQLBuilder.tsx:387 | the identifier run is six letters |
| JqlImporterExamples.DomainOperator | src/components/JQLBuilder.tsx:387 | after `doma` only `in` matches |
| JqlImporterExamples.DomainValue | src/components/JQLBuilder.tsx:387 | the value starts after one space |
| JqlImporterExamples.DomainNothingEarlier | src/components/JQLBuilder.tsx:387 | no parsing match is tried before it |
| JqlImporterExamples.EarliestAt | src/components/JQLBuilder.tsx:387 | the same, from the facts about the text |
| JqlImporterExamples.SpacesFrom | src/components/JQLBuilder.tsx:387 | white space fits in the run |
| JqlImporterExamples.DomainNoOperator5 | src/components/JQLBuilder.tsx:387 | no operator starts at the `n` |
| JqlImporterExamples.DomainNoOperator6 | src/components/JQLBuilder.tsx:387 | none at the space |
| JqlImporterExamples.DomainNoOperator7 | src/components/JQLBuilder.tsx:387 | none at `(` |
| JqlImporterExamples.DomainSpaces | src/components/JQLBuilder.tsx:387 | the white-space runs of the example |
| JqlRoundTrip.AlternativeIndex | src/components/JQLBuilder.tsx:387 | every symbol operator is one of the listed alternatives |
| JqlRoundTrip.SymbolOperatorText | src/components/JQLBuilder.tsx:387 | symbol operators are one or two symbol characters |
| JqlRoundTrip.SymbolsUnchanged | src/components/JQLBuilder.tsx:390 | lower-casing and trimming leave them unchanged |
| JqlRoundTrip.ListedBefore | src/components/JQLBuilder.tsx:387 | no symbol alternative listed earlier is a prefix of one listed later |
| JqlRoundTrip.EarlierAlternativesFail | src/components/JQLBuilder.tsx:387 | before an operator followed by a space, every earlier alternative fails |
| JqlRoundTrip.SymbolFound | src/components/JQLBuilder.tsx:387 | the operator matches where it is written |
| JqlRoundTrip.FirstAlternative | src/components/JQLBuilder.tsx:387 | the first matching alternative gives the first operator end |
| JqlRoundTrip.ComparisonShape | src/components/JQLBuilder.tsx:209 | the layout of `f op "v"` |
| JqlRoundTrip.ComparisonLetters | src/components/JQLBuilder.tsx:387 | its identifier run is the field |
| JqlRoundTrip.LettersRun | src/components/JQLBuilder.tsx:387 | letters up to a non-letter make the run |
| JqlRoundTrip.OneSpace | src/components/JQLBuilder.tsx:387 | a single space is a run of one |
| JqlRoundTrip.SimpleMatch | src/components/JQLBuilder.tsx:387 | a field, one space, an operator, one space and a one-line value match that way |
| JqlRoundTrip.ComparisonFacts | src/components/JQLBuilder.tsx:387 | the runs and the value of `f op "v"` |
| JqlRoundTrip.QuotedOneLine | src/components/JQLBuilder.tsx:209 | quoting a one-line value keeps it one line |
| JqlRoundTrip.ComparisonMatch | src/components/JQLBuilder.tsx:387 | `f op "v"` matches as field f, operator op, value `"v"` |
| JqlRoundTrip.ComparisonRoundTrip | src/components/JQLBuilder.tsx:387-411 | the `Comparison` text `f op "v"` for an offered field, a symbol operator and a one-line text value is read back as exactly that condition |
| JqlRoundTrip.ComparisonRead | src/components/JQLBuilder.tsx:389-411 | the groups of that match give back the condition |
| JqlRoundTrip.GroupsOfComparison | src/components/JQLBuilder.tsx:389-391 | the groups are the field, the operator and the quoted value |
| JqlRoundTrip.QuotedValue | src/components/JQLBuilder.tsx:395-400 | a quoted value parses back to the value |
| JqlRoundTrip.ConditionOfGroups | src/components/JQLBuilder.tsx:402-411 | a matched clause whose groups are an offered field, an operator unchanged by trim and lower-casing, and a value text, gives the condition of those groups |
| JqlRoundTrip.CompiledComparisonRoundTrip | src/components/JQLBuilder.tsx:208-209 | the compiler writes `f op "v"` for a trimmed text value with a symbol operator on an ordinary field, and the importer reads that back as the condition with its value trimmed |
| JqlRoundTrip.PartOfSymbol | src/components/JQLBuilder.tsx:208-209 | for a symbol operator the compiler writes the `Comparison` of the trimmed text |
| JqlRoundTrip.TrimmedRoundTrip | src/components/JQLBuilder.tsx:387-411 | a comparison of trimmed one-line text reads back as that condition |
| JqlRoundTrip.TrimSliceOneLine | src/components/JQLBuilder.tsx:159 | trimming keeps text on one line |
| JqlRoundTrip.QuotedPiece | src/components/JQLBuilder.tsx:396 | a comma piece of a quoted list, with or without its leading space, reads back as its item |
| JqlRoundTrip.SplitQuoted | src/components/JQLBuilder.tsx:396 | the comma pieces of `QuotedList` of trimmed comma-free items read back as the items |
| JqlRoundTrip.ParseValueOfList | src/components/JQLBuilder.tsx:395-400 | the parenthesised `QuotedList` the compiler writes parses back into exactly its items |
| JqlRoundTrip.ParsedItems | src/components/JQLBuilder.tsx:395-396 | a value in parentheses whose comma pieces read back as given items parses as the list of those items |
| JqlRoundTrip.EmptyListReadsBack | src/components/JQLBuilder.tsx:395-400 | `()` parses as a list of one empty item, not as an empty list |
| JqlRoundTrip.ConcatOneLine | src/components/JQLBuilder.tsx:387 | two one-line texts concatenate to one line |
| JqlRoundTrip.JoinOneLine | src/components/JQLBuilder.tsx:387 | one-line parts joined by a one-line separator stay on one line |
| JqlRoundTrip.ListOneLine | src/components/JQLBuilder.tsx:387 | a list of one-line items is written on one line, as `.+$` needs |
| JqlRoundTrip.ListShape | src/components/JQLBuilder.tsx:201 | `ListPart` with `in` is the field, a space, `in`, a space and the parenthesised list |
| JqlRoundTrip.InShapeOf | src/components/JQLBuilder.tsx:201 | that layout, for any list text |
| JqlRoundTrip.InUnchanged | src/components/JQLBuilder.tsx:390 | trimming and lower-casing leave `in` unchanged |
| JqlRoundTrip.InMatch | src/components/JQLBuilder.tsx:387 | `f in (…)` matches as the field, one space, `in` as the only operator end, one space and the list |
| JqlRoundTrip.InGroups | src/components/JQLBuilder.tsx:389-391 | its groups are the field, `in` and the list text |
| JqlRoundTrip.InRead | src/components/JQLBuilder.tsx:387-411 | a clause laid out as `f in (…)` on one line reads back as the `in` condition of the parsed value |
| JqlRoundTrip.ListRoundTrip | src/components/JQLBuilder.tsx:387-411 | the `ListPart` `f in ("a", "b")` for an offered field and trimmed, comma-free one-line items is read back as exactly that list condition |
| JqlRoundTrip.CompiledListRoundTrip | src/components/JQLBuilder.tsx:200-201 | the compiler writes `ListPart` for `in` with such a list on an ordinary field, and the importer reads it back as the same condition |
| JqlEdits.AddCondition | src/components/JQLBuilder.tsx:269-277 | the list gains `InitialCondition`, the author field with `in` and no accounts, at its end, with the given id, and nothing else changes |
| JqlEdits.RemoveCondition | src/components/JQLBuilder.tsx:279-283 | a list of one is kept; otherwise exactly the conditions with another id stay |
| JqlEdits.RemoveKeepsOne | src/components/JQLBuilder.tsx:279-283 | with distinct ids at most one condition goes and a non-empty list stays non-empty |
| JqlEdits.FilterDropsAtMostOne | src/components/JQLBuilder.tsx:281 | with distinct ids the filter drops at most one, and none for an absent id |
| JqlEdits.RemoveSharedId | src/components/JQLBuilder.tsx:279-283 | two conditions with the same id are both removed |
| JqlEdits.RemoveAdded | src/components/JQLBuilder.tsx:269-283 | removing the condition just added with a new id restores the list |
| JqlEdits.Apply | src/components/JQLBuilder.tsx:286 | each field the update holds is replaced, the others and the id kept |
| JqlEdits.UpdateCondition | src/components/JQLBuilder.tsx:285-287 | the conditions with the id take the update, the others are unchanged, the ids stay |
| JqlEdits.UpdateIdempotent | src/components/JQLBuilder.tsx:285-287 | updating twice is updating once |
| JqlEdits.UpdateEmpty | src/components/JQLBuilder.tsx:285-287 | an empty update changes nothing |
| JqlEdits.FieldChange | src/components/JQLBuilder.tsx:607 | a field change sets the field, the field's first allowed operator and the cleared value for that field (`[]` for the author field, `""` otherwise), and leaves the logic |
| JqlEdits.FieldChangeConsistent | src/components/JQLBuilder.tsx:607 | after it the condition's operator belongs to its field |
| JqlEdits.BulkAdd | src/components/JQLBuilder.tsx:672-675 | without repetitions; exactly the accounts chosen before (`CurrentValues`: the list value, nothing for text) and those of the department's users |
| JqlEdits.BulkAddKeepsCurrent | src/components/JQLBuilder.tsx:674 | the accounts chosen before stay first, in their order |
| JqlEdits.BulkAddTwice | src/components/JQLBuilder.tsx:672-675 | a second bulk add of the same department changes nothing |
| JqlEdits.DedupAbsorbs | src/components/JQLBuilder.tsx:674 | adding accounts already there does not change the deduplication |
| Users.FilteredUsers | src/components/UserManagement.tsx:78-80 | "all" keeps the list; another department keeps only its users |
| Users.FilteredUsersOfPart | src/components/UserManagement.tsx:78-80 | each user of the department keeps its number of occurrences; others have none |
| Users.PartFilterAgrees | src/components/JQLBuilder.tsx:672 | the bulk add's filter (`PartFilter`) selects the same users as the screen's filter |
| UserManagement.Parts | src/components/UserManagement.tsx:75 | sorted, without repetitions, and exactly the non-empty departments of the users |
| UserManagement.Cell | src/components/UserManagement.tsx:96-99 | non-empty exactly when one of the columns has text, and then the text of the first column that has some (`FirstFilled`), as the `||` chain picks it |
| UserManagement.ImportedUsers | src/components/UserManagement.tsx:95-100 | at most one user per row, and every imported user is the `RowUser` of some row, so none is invented |
| UserManagement.ImportedUsersCount | src/components/UserManagement.tsx:95-100 | a user with an account and a name occurs as often as the rows give it, any other user not at all |
| UserManagement.ImportedUsersSnoc | src/components/UserManagement.tsx:95-100 | one more row appends its user exactly when it has an account and a name, so the users keep the rows' order |
| UserManagement.ImportedUsersKept | src/components/UserManagement.tsx:95-100 | a row's user (`RowUser`, the first non-empty cell of each column's headers) is kept (`Importable`) exactly when an account column and a name column have text |
| UserManagement.ImportedUsersValid | src/components/UserManagement.tsx:100 | every imported user has an account and a name |
| UserManagement.ImportRequest | src/components/UserManagement.tsx:102-115 | users are sent exactly when some row gives one and the import is confirmed, and then all of them |
| UserManagement.Replace | src/components/UserManagement.tsx:124 | the users with the submitted account become the submitted user, the others stay |
| UserManagement.ReplaceInPlace | src/components/UserManagement.tsx:123-125 | with distinct accounts the edited user is replaced at its place and nobody else changes |
| UserManagement.ReplaceMissing | src/components/UserManagement.tsx:124 | an account nobody has changes nothing |
| UserManagement.Toggle | src/components/UserManagement.tsx:155-161 | a selected id goes and every other stays; an unselected one is appended |
| UserManagement.ToggleTwice | src/components/UserManagement.tsx:155-161 | toggling twice restores which ids are selected |
| UserManagement.ToggleTwiceAbsent | src/components/UserManagement.tsx:155-161 | toggling an unselected id twice restores the selection exactly |
| UserManagement.ToggleAll | src/components/UserManagement.tsx:147-153 | a selection as long as the view is cleared; otherwise it becomes the view's accounts in order |
| UserManagement.ToggleAllTwice | src/components/UserManagement.tsx:147-153 | from nothing, twice returns to nothing |
| UserManagement.UserList.constructor | src/components/UserManagement.tsx:58-62 | the initial users, nothing selected, "all", no edit, dialog closed |
| UserManagement.UserList.SelectPart | src/components/UserManagement.tsx:192 | only the department changes |
| UserManagement.UserList.Edit | src/components/UserManagement.tsx:133-137 | the dialog opens on the user being edited |
| UserManagement.UserList.OpenChange | src/components/UserManagement.tsx:218-223 | the dialog follows the request; closing ends the edit |
| UserManagement.UserList.Submit | src/components/UserManagement.tsx:120-131 | the values are sent; when the call succeeds an edit replaces by account and an add appends, then the edit ends and the dialog is closed; when it throws the list, the edit and the open dialog stay |
| UserManagement.UserList.Delete | src/components/UserManagement.tsx:139-145 | once confirmed the account is sent; when the call succeeds it leaves the list and the selection; without confirmation or when the call throws, nothing changes |
| UserManagement.UserList.ToggleAllUsers | src/components/UserManagement.tsx:147-153 | the selection becomes ToggleAll of the filtered view |
| UserManagement.UserList.ToggleOne | src/components/UserManagement.tsx:155-161 | the selection becomes Toggle of the id |
| UserManagement.UserList.DeleteSelected | src/components/UserManagement.tsx:163-170 | nothing without a selection or confirmation; otherwise the selection is sent, and when the call succeeds the selected users go and the selection empties, while a throw changes nothing |
| UserManagement.UserList.DeleteAll | src/components/UserManagement.tsx:172-178 | once confirmed the request is sent; when it succeeds both lists are emptied; otherwise nothing changes |
| UserManagement.DeleteSelectedKeeps | src/components/UserManagement.tsx:167 | a selected user is gone; every other keeps its number of occurrences |
| UserManagement.DeleteKeeps | src/components/UserManagement.tsx:142 | the deleted account is gone; every other user keeps its number of occurrences |
| HistoryList.SelectAll | src/components/HistoryList.tsx:55-61 | ticking gives every collection id in order; unticking gives none |
| HistoryList.SelectOne | src/components/HistoryList.tsx:63-69 | ticking appends the id; unticking leaves no occurrence of it |
| HistoryList.DeselectCounts | src/components/HistoryList.tsx:67 | unticking removes every occurrence of the id and keeps every other id as often as before |
| HistoryList.DeselectAbsent | src/components/HistoryList.tsx:67 | unticking an unlisted id changes nothing |
| HistoryList.SelectTwice | src/components/HistoryList.tsx:65 | ticking twice lists the id twice more |
| HistoryList.SelectThenDeselect | src/components/HistoryList.tsx:63-69 | unticking after ticking is unticking alone |
| HistoryList.History.constructor | src/components/HistoryList.tsx:23-24 | the initial collections, nothing selected |
| HistoryList.History.SelectAllIds | src/components/HistoryList.tsx:55-61 | the selection becomes SelectAll |
| HistoryList.History.SelectOneId | src/components/HistoryList.tsx:63-69 | the selection becomes SelectOne |
| HistoryList.History.Delete | src/components/HistoryList.tsx:71-87 | nothing on an empty selection or without confirmation; otherwise the ids are sent, and a successful reload replaces the list and empties the selection |
| HistoryList.CnEmpty | src/components/HistoryList.tsx:233-235 | `Cn`, the `cn` helper, is empty exactly when every class name is |
| HistoryList.CnSplit | src/components/HistoryList.tsx:233-235 | `Cn` writes space-free class names in order, separated by single spaces, the empty ones dropped |
| HistoryList.CnSnoc | src/components/HistoryList.tsx:233-235 | one more class name goes after a single space; an empty one adds nothing, and after only empty names it stands alone |
| HistoryList.CnTwo | src/components/HistoryList.tsx:186-196 | `cn(a, b)`, the form of both calls on the card and the status icon, is the non-empty one, or `a + " " + b` when both have text |
| DashboardCharts.DynamicHeight | src/components/DashboardCharts.tsx:12 | the larger of 150 and 24 per author |
| DashboardCharts.DynamicHeightFloor | src/components/DashboardCharts.tsx:12 | up to six authors the height is 150 |
| DashboardCharts.DynamicHeightGrows | src/components/DashboardCharts.tsx:12 | from seven authors on each author adds 24 |
| DashboardCharts.DynamicHeightMonotone | src/components/DashboardCharts.tsx:12 | more authors never lower the chart |
| DashboardCharts.ColorIndex | src/components/DashboardCharts.tsx:45 | always an index of COLORS; the first five bars take the colours in order |
| DashboardCharts.ColorPeriod | src/components/DashboardCharts.tsx:9-45 | the colours repeat every five bars |
| DashboardCharts.ColorsDiffer | src/components/DashboardCharts.tsx:9-45 | any five bars in a row have five different colours |
| DashboardCharts.TickLabel | src/components/DashboardCharts.tsx:65-75 | an empty value has an empty label; the first tick shows its whole value |
| DashboardCharts.SplitYearMonth | src/components/DashboardCharts.tsx:67 | a "YYYY-MM" value splits into its year and its month |
| DashboardCharts.TickLabelYearMonth | src/components/DashboardCharts.tsx:65-75 | for "YYYY-MM" months, the whole value at the first tick and at a change of year (`YearOf`, the text before the first `-`), the month elsewhere |
| DashboardCharts.TickLabelUndefined | src/components/DashboardCharts.tsx:65-75 | a value without `-` after an entry without a month gives `undefined` |

## Left out

- Server calls are represented by the values a handler would send: the
  account, the ids or the user. Whether the call succeeds is a parameter:
  a boolean for the user screen, and for the history screen the reloaded
  list, where None stands for a failed deletion or reload. Confirmation
  dialogs are boolean parameters. Alerts, `isDeleting` and
  `window.location.reload` are not modelled.
- The ids that `Math.random` gives. The importer takes them from a supply
  indexed by position; the add edit is given the new id.
- `format(new Date(v), "yyyy-MM-dd")` depends on date-fns and the time
  zone. The compiler takes it as a parameter, where None stands for a throw.
- Reading and writing spreadsheets (XLSX). A sheet row is a map from
  header to cell text. A cell the sheet reads as a number or a boolean
  is not modelled: the source tests it with `||` before `String(…)`, so a
  cell holding 0 or false counts as empty and can lose its row at the
  account/name filter, while the model, which has text only, keeps a "0".
- The `created_at` field of a user, which no modelled handler reads.
- The history screen's reload when the filter dates change, its date
  formatting and its URL updates. They are library calls and navigation.
- React's rendering, the form library and the pages around the components.
- Text.Sort: orders strings by code point. JavaScript's `sort()` orders by
  UTF-16 code unit, and the two differ only for characters outside the
  Basic Multilingual Plane.
- Text.LowerAscii: folds only ASCII letters. `toLowerCase` folds every
  letter. The importer applies it to operators, which the pattern makes
  ASCII.
- Strings throughout are sequences of code points, not UTF-16 code units.
- UserManagement.UserList.Submit: requires the form schema's non-empty
  account, name and department. The schema's e-mail format check is not
  modelled.
- JqlCompiler.Compile: the loop pushes parts computed before it (`Outputs`)
  instead of computing each inside the loop; the result is the same because
  `PartOf` is pure.
- JqlImporter.ClauseConditionCases: states the field as the identifier
  group without the `trim()` the code applies. The group is ASCII letters,
  on which the trim changes nothing.
