# Touchpoints, modelled in Dafny

`touchpoints.py` indexes *touchpoints* in a source tree. A touchpoint is a marker string
in a source file followed, on the same line, by a name. The tool works in three steps:

- **Scan.** It finds every occurrence of the marker in a file and records, for the name
  after the marker, the file and the 1-based line number.
- **Reconcile.** It merges the scan with the description file from the previous run.
  Described names that were not found become *missing*. Found names get their locations
  and keep their description, or get `""` if they had none. Missing names come first,
  then found names; each group is in ascending order.
- **Report.** It renders the reconciled file as a Markdown report through a small
  `MarkdownBuilder`.

The model has one Dafny module per part, plus two supporting modules:

- `text.dfy` (`Text`) holds what the tool takes from Python's `str`: `strip()`, the `<`
  order that `list.sort()` uses, counting line breaks, and `str(int)`.
- `scanner.dfy` (`Scanner`) holds the scan loop of `findTouchpoints` and `countLines`.
  It works on the text of one file. Both are methods with loops. `FindTouchpoints` is
  proved against the recursive specification `Scan`, and `CountLines` against
  `LinesBefore`, the count of line breaks in a prefix. The lemmas then state what
  `Scan` records.
- `sorting.dfy` (`Sorting`) models `list.sort()` on strings. A sorted list of given
  contents is unique, so the result does not depend on the algorithm.
- `reconciler.dfy` (`Reconciler`) holds the reconciliation half of
  `updateDescriptions`. It is a method with the source's loops, proved equal to the
  specification `Reconciled`. That function is shown to be a partition, ordered and
  idempotent.
- `markdown.dfy` (`Markdown`) holds the phrase and line types as datatypes with pure
  formatters. `MarkdownBuilder` is a class whose `lines` field `AddLine` appends to.
  The loop of `Line.__str__` is the method `RenderLine`, proved against `LineText`. The
  loop of the builder's `__str__` is the method `ToText`, proved against `Render`.
- `report.dfy` (`Report`) holds `writeOutputFile` up to the text it writes. It is a
  method proved equal to `Render(ReportLines(d))`. The lemmas state the shape of
  the report.

Three behaviours of `touchpoints.py` that the model keeps:

- A name is the whole stripped rest of the line after the marker, spaces included.
- A second marker on the same line is not recorded, because the search resumes after
  the end of the line.
- A marker that contains a line break always yields the empty name.

## Model

| member | source | states |
|---|---|---|
| Text.Strip | touchpoints.py:182 | specification: `s.strip()`, whitespace removed from both ends |
| Text.Less | touchpoints.py:145-146 | specification: Python's `<` on strings, lexicographic by code point with a proper prefix first |
| Text.StripTrimmed | touchpoints.py:182 | `strip()` never lengthens a string, and its result neither starts nor ends with whitespace |
| Text.StripCharacterized | touchpoints.py:182 | whitespace, then a trimmed `r`, then whitespace strips to exactly `r` (an independent characterisation of `strip()`) |
| Text.StripIsSlice | touchpoints.py:182 | `s.strip()` is a contiguous slice of `s`, and only whitespace lies on either side of it |
| Text.StripIdempotent | touchpoints.py:182 | stripping twice is stripping once |
| Text.StripLeadingFacts | touchpoints.py:182 | stripping the front keeps a suffix, removes only whitespace, and leaves no leading whitespace |
| Text.StripTrailingFacts | touchpoints.py:182 | stripping the back keeps a prefix, removes only whitespace, and leaves no trailing whitespace |
| Text.LessIrreflexive | touchpoints.py:145-146 | no string sorts before itself |
| Text.LessTransitive | touchpoints.py:145-146 | the string order `list.sort()` uses is transitive |
| Text.LessTotal | touchpoints.py:145-146 | of two different strings, one sorts before the other |
| Text.LessAsymmetric | touchpoints.py:145-146 | two strings never each sort before the other |
| Text.NewlinesBefore | touchpoints.py:203-212 | the line breaks counted in the first `n` characters are at most `n` |
| Text.NewlinesBetween | touchpoints.py:203-212 | the count never drops as the prefix grows, and stays equal exactly when no `'\n'` is passed |
| Text.Decimal | touchpoints.py:237 | `str(n)` is a non-empty string of digits with no leading zero |
| Text.DecimalRoundTrip | touchpoints.py:237 | reading back the digits of `str(n)` gives `n` |
| Scanner.LinesBefore | touchpoints.py:203-212 | specification: what `countLines(buffer, endIndex)` returns, the `'\n'` count among the first `endIndex` characters, clamped to the buffer |
| Scanner.HitAt | touchpoints.py:177-186 | specification: what is recorded for the marker at `p`, namely the stripped slice from the marker's end to the end of its line, and the line `p` is on |
| Scanner.Positions | touchpoints.py:174-194 | specification: the indices at which the loop records a marker: find the next one, resume past the end of its line, stop when none is left |
| Scanner.Scan | touchpoints.py:174-194 | specification: the hits recorded by scanning a whole file, in order |
| Scanner.Append | touchpoints.py:188-190 | specification: `touchpoints[name].append(location)`, with an empty list created for a new name |
| Scanner.AddHits | touchpoints.py:188-190 | specification: the mapping after appending the location of each hit, in order |
| Scanner.Run | touchpoints.py:174-194 | specification: the scan loop from a given start, one `Round` per step |
| Scanner.Find | touchpoints.py:176 | a found index is at or after the start and the marker fits in the text from there |
| Scanner.FindFacts | touchpoints.py:176 | `str.index` returns the first occurrence at or after the start; "not found" means no occurrence at or after it |
| Scanner.MatchesFromIsMarkerAt | touchpoints.py:176 | comparing the marker character by character is comparing the slice |
| Scanner.LineEnd | touchpoints.py:177-180 | the inner loop stops within the text, at a `'\n'` or at the end |
| Scanner.LineEndFacts | touchpoints.py:177-180 | no `'\n'` lies between the marker and where the inner loop stops |
| Scanner.Slice | touchpoints.py:182 | a Python slice is never longer than the string |
| Scanner.SliceFacts | touchpoints.py:182 | within bounds, the slice has `b - a` characters (none when `a > b`), and they are those of the string from `a` on |
| Scanner.Clamp | touchpoints.py:207 | `countLines` looks at no more than the whole buffer, and at exactly `endIndex` characters when that is within it |
| Scanner.LineOf | touchpoints.py:185 | every recorded line number is at least 1 |
| Scanner.Round | touchpoints.py:175-194 | a round that finds a marker resumes strictly after where it started, and no further than one past the end (so the loop terminates) |
| Scanner.RunRecords | touchpoints.py:174-194 | running the loop from `start` records the hits at the positions found from `start`, in order |
| Scanner.PositionsStep | touchpoints.py:176-192 | a found marker is recorded first, then the search resumes past the end of its line |
| Scanner.HitsAtCons | touchpoints.py:174-194 | the first recorded hit comes first in the hits |
| Scanner.AddHitsCons | touchpoints.py:188-190 | recording the first hit and then the rest is recording them all |
| Scanner.CountLines | touchpoints.py:203-212 | `countLines(buffer, endIndex)` returns the number of `'\n'` among the first `min(endIndex, len(buffer))` characters |
| Scanner.Record | touchpoints.py:188-190 | the location is appended to the name's list, which is created empty for a new name |
| Scanner.SkipToLineEnd | touchpoints.py:177-180 | the inner loop stops at the first `'\n'` at or after the marker's start, or at the end of the text |
| Scanner.RecordOccurrence | touchpoints.py:182-190 | records the stripped rest of the line as the name, with the file and the 1-based line |
| Scanner.ScanRound | touchpoints.py:175-194 | one pass of the `try` block is one `Round`; a failed search changes nothing |
| Scanner.FindTouchpoints | touchpoints.py:171-194 | the loop records exactly the hits `Scan` describes, in order, into the given mapping |
| Scanner.PositionsSound | touchpoints.py:176 | every recorded position holds an occurrence of the marker |
| Scanner.PositionsOrdered | touchpoints.py:177-192 | each recorded position lies past the line end of every earlier one |
| Scanner.PositionsCoverLines | touchpoints.py:176-192 | every occurrence lies on the line of a recorded position at or before it |
| Scanner.HitsAtFacts | touchpoints.py:174-194 | there is one hit per recorded position, made by `HitAt` |
| Scanner.LaterLine | touchpoints.py:185 | a `'\n'` between two indices puts the second on a later line |
| Scanner.SameLine | touchpoints.py:185 | no `'\n'` between two indices keeps them on the same line |
| Scanner.ScanSound | touchpoints.py:176-186 | every hit is an occurrence of the marker, with the name and line `HitAt` gives it |
| Scanner.ScanOrdered | touchpoints.py:174-192 | hits are in strictly increasing position and strictly increasing line, so there is at most one per line |
| Scanner.ScanCoversLines | touchpoints.py:174-192 | every line holding the marker has a hit, at or before the occurrence |
| Scanner.ScanEmptyIffNoMarker | touchpoints.py:174-194 | the scan records nothing if and only if the marker does not occur |
| Scanner.NameProperties | touchpoints.py:177-182 | a name never contains `'\n'`, and a marker containing `'\n'` always yields the empty name |
| Scanner.AddHitsKeys | touchpoints.py:188-189 | recording adds exactly the scanned names to the keys |
| Scanner.AppendGet | touchpoints.py:188-190 | one append adds the location to its name's list and changes no other list |
| Scanner.AddHitsList | touchpoints.py:188-190 | each name's list becomes its old list followed by its new locations, in scan order |
| Scanner.NotNamedNoLocations | touchpoints.py:188-190 | a name no hit carries gets no new location |
| Scanner.AddHitsAppends | touchpoints.py:188-190 | scanning only appends: every old list is a prefix of the new one, and names not scanned are unchanged |
| Scanner.NoMarkerNoChange | touchpoints.py:193-194 | text without the marker leaves the mapping exactly as it was |
| Sorting.NotLessTransitive | touchpoints.py:145-146 | "not less than" is transitive |
| Sorting.NotLessAntisymmetric | touchpoints.py:145-146 | strings neither of which is less than the other are equal |
| Sorting.Insert | touchpoints.py:145-146 | inserting adds exactly one copy of the element |
| Sorting.InsertSorted | touchpoints.py:145-146 | insertion keeps a list sorted |
| Sorting.Sort | touchpoints.py:145-146 | sorting is a permutation |
| Sorting.SortSorted | touchpoints.py:145-146 | sorting gives an ascending list |
| Sorting.SortedFirst | touchpoints.py:145-146 | the first element of a sorted list is not above any other |
| Sorting.SortedUnique | touchpoints.py:145-146 | two sorted lists with the same elements are equal, so every sorting algorithm gives the same result |
| Sorting.StrictlySortedIsSorted | touchpoints.py:145-146 | a strictly ascending list is sorted |
| Sorting.ListsCounts | touchpoints.py:132-143 | a duplicate-free list of a set's elements has that set's multiset |
| Sorting.AppendFresh | touchpoints.py:138-143 | appending a name not yet listed keeps the list free of duplicates |
| Reconciler.MissingEntry | touchpoints.py:150-154 | specification: the entry written for a missing name, `{'description': prior, 'missing': True}` |
| Reconciler.PresentEntry | touchpoints.py:156-160 | specification: the entry written for a scanned name, with its prior description or `""` and its scanned locations |
| Reconciler.MissingEntries | touchpoints.py:150-154 | specification: the missing entries of a list of names, in that order |
| Reconciler.PresentEntries | touchpoints.py:156-160 | specification: the present entries of a list of names, in that order |
| Reconciler.Reconciled | touchpoints.py:132-162 | specification: what `updateDescriptions` returns, the missing names in ascending order and then the scanned names in ascending order, each with its entry |
| Reconciler.Put | touchpoints.py:150-160 | `d[name] = t` adds `name` to the keys and gives it the value `t`; a new key is appended; an existing key keeps its place, the length is unchanged and every other entry stays as it was |
| Reconciler.KeysOfAppend | touchpoints.py:150-160 | appending an entry adds its name to the keys |
| Reconciler.LeastExists | touchpoints.py:145-146 | a non-empty set of names has a least one |
| Reconciler.LeastFirst | touchpoints.py:145-146 | the least name in front of larger ascending names stays ascending |
| Reconciler.SortedNames | touchpoints.py:145-146 | the names of a set, each once, in strictly ascending order |
| Reconciler.StrictlySortedNoDuplicates | touchpoints.py:145-146 | a strictly ascending list has no duplicates |
| Reconciler.SortGathered | touchpoints.py:132-146 | sorting the gathered names gives the set's names in ascending order, whatever order the keys were visited in |
| Reconciler.GatherNames | touchpoints.py:132-143 | the first group lists each described name that was not scanned once; the second lists each scanned name once |
| Reconciler.BuildDescriptions | touchpoints.py:148-162 | the new file is the missing entries in the given order, then the present entries in the given order |
| Reconciler.UpdateDescriptions | touchpoints.py:132-162 | the result is `Reconciled(descriptions, touchpoints)` |
| Reconciler.ReconciledAt | touchpoints.py:148-162 | entry `i` is the `i`-th missing name while any remain, and the matching scanned name after that |
| Reconciler.ReconciledKeys | touchpoints.py:132-162 | the keys of the result are exactly the prior names and the scanned names |
| Reconciler.InKeysOf | touchpoints.py:148-162 | every entry's name is among the keys |
| Reconciler.ReconciledHas | touchpoints.py:132-162 | every prior or scanned name appears in the result |
| Reconciler.ReconciledDistinct | touchpoints.py:132-162 | each name appears once |
| Reconciler.ReconciledMissingIff | touchpoints.py:135-154 | an entry is missing if and only if its name is described and not scanned |
| Reconciler.ReconciledValues | touchpoints.py:150-160 | a missing entry keeps its prior description; a present entry has its prior description or `""`, and exactly the scanned locations |
| Reconciler.ReconciledOrder | touchpoints.py:145-162 | all missing entries come first, and names ascend within each group |
| Reconciler.PriorOf | touchpoints.py:152 | reading a file back as name to description keeps exactly its names |
| Reconciler.PriorOfLookup | touchpoints.py:150-160 | in a file with distinct names, each name reads back as its own description |
| Reconciler.SameMissingNames | touchpoints.py:132-143 | reconciling the output again finds the same names missing |
| Reconciler.IdempotentAt | touchpoints.py:148-162 | reconciling the output again reproduces entry `i` |
| Reconciler.IdempotentLength | touchpoints.py:132-162 | reconciling the output again gives the same number of entries |
| Reconciler.ReconciledIdempotent | touchpoints.py:132-162 | reconciling the output again against the same scan reproduces it |
| Markdown.Underline | touchpoints.py:37 | specification: `'=' * n` |
| Markdown.Joined | touchpoints.py:78-84 | specification: what the loop of `Line.__str__` accumulates, each phrase appended with a space before it once the text is non-empty |
| Markdown.LineText | touchpoints.py:78-84 | specification: `str(line)`, the joined phrases and a line break |
| Markdown.SpaceSeparated | touchpoints.py:78-84 | specification: the phrases separated by single spaces, an independent reference for `Joined` |
| Markdown.Render | touchpoints.py:92-98 | specification: the lines rendered one after another, what the builder's `__str__` accumulates |
| Markdown.PhraseText | touchpoints.py:37-72 | no phrase renders as the empty string |
| Markdown.HeadingUnderlined | touchpoints.py:37 | a heading is its text, a line break, as many `=` as the text has characters, and a line break |
| Markdown.SpaceSeparatedSnoc | touchpoints.py:78-84 | one more phrase adds a space and its text |
| Markdown.JoinedNonEmpty | touchpoints.py:78-84 | a line with a phrase has non-empty text before its line break |
| Markdown.JoinedIsSpaceSeparated | touchpoints.py:78-84 | the loop's emptiness test gives the phrases separated by single spaces |
| Markdown.RenderLine | touchpoints.py:78-84 | `Line.__str__` is the joined phrases and a line break |
| Markdown.RenderAppend | touchpoints.py:92-98 | rendering lines one after another distributes over concatenation |
| Markdown.MarkdownBuilder.constructor | touchpoints.py:86-87 | a new builder has no lines |
| Markdown.MarkdownBuilder.AddLine | touchpoints.py:89-90 | `addLine` appends the line and changes nothing else |
| Markdown.MarkdownBuilder.ToText | touchpoints.py:92-98 | `__str__` renders every line in the order added |
| Report.TouchpointLines | touchpoints.py:217-219 | specification: the two lines `addTouchpoint` adds, the subheading and the italic description or `(No description.)` |
| Report.LocationText | touchpoints.py:237 | specification: `location['file'] + ":" + str(location['line'])` |
| Report.LocationLines | touchpoints.py:236-238 | specification: a code line and an empty line per location |
| Report.MissingTouchpoints | touchpoints.py:223 | specification: the comprehension `missingTouchpoints`, the missing entries in file order |
| Report.MissingLines | touchpoints.py:226-227 | specification: a section per missing entry, titled `[Missing] name` |
| Report.MissingPart | touchpoints.py:225-229 | specification: the missing sections and the rule, or nothing when no entry is missing |
| Report.PresentSection | touchpoints.py:232-238 | specification: a present entry's section with its empty line and its locations, nothing for a missing entry |
| Report.PresentLines | touchpoints.py:231-238 | specification: the sections of the entries, in file order |
| Report.ReportLines | touchpoints.py:214-238 | specification: all lines of the report, the title, then the missing part, then the present sections |
| Report.MissingTouchpointsFacts | touchpoints.py:223 | `missingTouchpoints` holds exactly the missing entries, and is empty if and only if none is missing |
| Report.AddTouchpoint | touchpoints.py:217-219 | `addTouchpoint` appends the subheading line and the description line |
| Report.AddLocations | touchpoints.py:236-238 | appends a code line and an empty line per location, in order |
| Report.AddMissing | touchpoints.py:226-227 | appends a section per missing entry, in order |
| Report.AddSection | touchpoints.py:232-238 | appends a present entry's section, and nothing for a missing one |
| Report.AddPresent | touchpoints.py:231-238 | appends the sections of the present entries, in order |
| Report.WriteReport | touchpoints.py:214-241 | the text written is `Render(ReportLines(descriptions))` |
| Report.TitleLineText | touchpoints.py:221 | the title line renders as `Touchpoints`, its underline and a blank line |
| Report.ReportStartsWithTitle | touchpoints.py:221 | the report begins with `Touchpoints`, a line of as many `=`, and a blank line |
| Report.PlaceholderShown | touchpoints.py:217-219 | a section renders as `## name`, then the description in underscores, or `_(No description.)_` when it is empty |
| Report.LocationTextReadBack | touchpoints.py:237 | a location line is the file, a colon and digits that read back as the line number |
| Report.LocationTexts | touchpoints.py:236-237 | one text per location |
| Report.PickedAppend | touchpoints.py:92-98 | what a projection finds in concatenated lines is what it finds in each part |
| Report.TouchpointLinesShow | touchpoints.py:217-219 | a section shows one title, its name, and no code |
| Report.LocationLinesShow | touchpoints.py:236-238 | the location lines show no title, and one code per location in order |
| Report.MissingLinesShow | touchpoints.py:226-227 | the missing sections show the prefixed missing names in order, and no code |
| Report.MissingPartShows | touchpoints.py:225-229 | the first part shows the missing titles and no code |
| Report.PresentSectionShows | touchpoints.py:232-238 | a present entry's section shows its name and its locations; a missing entry's shows nothing |
| Report.PresentLinesShow | touchpoints.py:231-238 | the second part shows the present names and their locations, entry after entry |
| Report.TitleLineShows | touchpoints.py:221 | the title line is neither a section title nor a code |
| Report.ReportShows | touchpoints.py:221-238 | the report's titles are the prefixed missing names then the present names, and its codes are the present entries' locations, in order |
| Report.LocationLinesNoRule | touchpoints.py:236-238 | location lines contain no rule |
| Report.MissingLinesNoRule | touchpoints.py:226-227 | missing sections contain no rule |
| Report.PresentLinesNoRule | touchpoints.py:231-238 | present sections contain no rule |
| Report.ReportRuleIffMissing | touchpoints.py:225-229 | the report has a horizontal rule if and only if some entry is missing |
| Report.ShownAppend | touchpoints.py:223-233 | missing titles and present names of concatenated files concatenate |
| Report.MissingEntriesShown | touchpoints.py:223-233 | missing entries give their prefixed names as titles and no present names |
| Report.PresentEntriesShown | touchpoints.py:223-233 | present entries give no missing titles, and their names as present names |
| Report.ReconciledReportTitles | touchpoints.py:221-238 | the report of a reconciled file titles the missing names in ascending order with the prefix, then the found names in ascending order |

## Left out

- The directory walk (`os.walk`) and the extension filter (touchpoints.py:125-130) are
  not modelled. The reconciler takes the finished scan mapping as input, and the scanner
  works on the text of one file.
- Reading a file, its `UnicodeDecodeError` skip and the message printed for other
  errors (touchpoints.py:167-169, 195-199) are I/O and console output. The scanner takes
  the contents as a string.
- Loading and dumping the description file as JSON, writing the report file, argument
  parsing and `main` (touchpoints.py:100-120, 240-254) are I/O and glue. The report
  model ends with the text handed to `write`.
- The prior description file is modelled as name to description. No other field of an
  entry is read. The `KeyError` raised for an entry without `description`
  (touchpoints.py:152, 158) is malformed input and is not modelled.
- An entry of the reconciled file is either missing (`'missing': True`) or present (no
  `missing` key). These are the only two forms `updateDescriptions` writes.
  `writeOutputFile` is only given such a file, so other values of `missing` are not
  modelled.
- The mutable default arguments `touchpoints = {}` and `phrases = []` (touchpoints.py:164,
  75) are not modelled. The caller always passes a fresh accumulator, and the phrase
  list is never mutated.
- The `touchpoints` dict and its lists, updated in place, are modelled as a `map` value
  that the scan returns. The caller reassigns the result, so no aliasing is visible.
- Sorting.Sort: `list.sort()` (Timsort) is modelled by insertion sort. By
  `SortedUnique`, any two ascending lists with the same elements are equal, so both
  give the same list.
- Reconciler.GatherNames: the order in which a dict's keys are visited is left open.
  The model picks any remaining key each time. The sorted result is the same for every
  order (`SortGathered`).
- `BoldPhrase` is part of the phrase type but the report never uses it. It has no
  lemma of its own beyond `PhraseText`.
- The scan loop's body is split into the methods `Record`, `SkipToLineEnd`,
  `RecordOccurrence` and `ScanRound`. The reconciliation is split into `GatherNames` and
  `BuildDescriptions`, and `writeOutputFile` into `AddMissing`, `AddPresent`,
  `AddSection` and `AddLocations`. Each keeps the source's statements in order.
