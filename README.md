# Status of professors: a verified model of the report and chart builders

The repository turns two spreadsheets into a report of "교원 보직자 현황", which
lists who currently holds each administrative position at the university:

- the **criteria** sheet lists the canonical positions and their categories;
- the **roster** sheet lists every appointment, with its start date, its end
  date and its status.

This project models the parts that compute that report, in Dafny:

- **The browser report builder** (`script.js`):
  - `processData`: date from the filename, criteria extraction and category
    fill-down, roster header search, active appointments, matching, and the
    two-column layout;
  - `formatDate` on strings;
  - `normalize`, `calculateSimilarity` and `findBestMatch`;
  - the per-name tally of the rendered table.
- **The organisation chart** (`script-orgchart.js`):
  - the row filter of `parseOrgChartFile`;
  - the tree of `buildOrgHierarchyFromFile`;
  - `matchProfessorDataToOrgChart`, which attaches the people of a report to
    the tree nodes named after their position;
  - `buildSimpleHierarchy`, the category/position chart drawn when no
    org-chart file is given.
- **The older Python matcher** (`extract_data.py`):
  - the filename date;
  - `to_date_int` and the active mask;
  - the two position normal forms;
  - the tiered integer score of `find_best_match`;
  - the results loop and the left/right split.

Modules:

| file | module | models |
|---|---|---|
| wrappers.dfy | Wrappers | `Option`, `Result`, and `Find`, the first element passing a test (`Array.prototype.find`) |
| text.dfy | Text | whitespace sets of JavaScript `\s` and Python `str.isspace`, trimming, character removal, containment and suffix tests, the first run of n digits |
| cells.dfy | Cells | spreadsheet cells as JavaScript sees them (`undefined`, `null`, string, number), truthiness, `||`, `indexOf` |
| columns.dfy | Columns | the ceil(n/2) left/right split with blank padding shared by both programs |
| matcher.dfy | Matcher | `normalize`, `calculateSimilarity`, `findBestMatch` |
| report.dfy | Report | `processData`, `formatDate` |
| tally.dfy | Tally | `nameCount` / `professorPositions` of the rendered table |
| orgtree.dfy | OrgTree | `parseOrgChartFile` rows, `buildOrgHierarchyFromFile` (class `OrgChart`), `matchProfessorDataToOrgChart` |
| hierarchy.dfy | Hierarchy | `buildSimpleHierarchy` |
| extract.dfy | Extract | `extract_data.py` |

**Scores.** The JavaScript similarity scores 1.0, 0.9, 0.8 and 0 are kept as
tenths (10, 9, 8, 0), so the acceptance test `> 0.8` becomes `> 8`.

**Python's partial score.** `int(60 * overlap / total)` is modelled as the
exact integer quotient. For 0 < overlap <= total the float quotient is never
close enough to an integer for rounding to change the result.

**Stateful loops.** Loops that build lists or maps are methods with loop
invariants. Each is proved equal to a specification function, and the lemmas
state the properties of that function.

**State in place.** The org tree is a class whose fields are reassigned in
place. Its nodes are identified by id, where JavaScript uses object
references.

## Model

| member | source | states |
|---|---|---|
| Wrappers.Find | script.js:304-308 | the index found passes the test, and every earlier element fails it; None only when every element fails |
| Wrappers.FindIsFirst | script.js:304 | the first element passing the test is the one `find` returns |
| Cells.Or | script.js:193-194 | `a \|\| b` is `a` exactly when `a` is truthy, otherwise `b` |
| Cells.IndexOf | script.js:219-223 | `indexOf` gives the first index holding the value, or -1 exactly when the value is absent |
| Text.Without | script.js:300 | the removal leaves no character of the removed set and never grows the string |
| Text.WithoutConcat | extract_data.py:63 | character removal distributes over concatenation |
| Text.Trim | extract_data.py:51 | the stripped string has no whitespace at either end and is no longer than the input |
| Text.TrimSlice | extract_data.py:51 | `strip()` returns the contiguous middle slice that starts after the leading whitespace, and only whitespace follows it |
| Text.DigitsOf | script.js:290 | `replace(/[^0-9]/g, '')` leaves only digits |
| Text.DigitsOfConcat | script.js:290 | keeping the digits distributes over concatenation |
| Text.FirstDigits | script.js:179 | the match is a run of n digits, and no earlier position starts such a run |
| Columns.Split | script.js:259-271 | the left column is the first ceil(n/2) items; the right column is the rest followed by blanks |
| Columns.SplitRoundTrip | extract_data.py:238-264 | reading the layout column by column, left column then right column, gives back every item in order, followed by at most one blank |
| Matcher.Normalize | script.js:299-301 | the normalised label contains no whitespace |
| Matcher.NormalizeIsReplaceThenTrim | script.js:300 | deleting whitespace runs and then trimming gives the same label as deleting all whitespace |
| Matcher.NormalizeIdempotent | script.js:299-301 | normalising twice is normalising once |
| Matcher.Similarity | script.js:327-336 | the score is one of 1.0, 0.9, 0.8 and 0 |
| Matcher.SimilaritySelf | script.js:331 | a label scores 1.0 against itself |
| Matcher.MutualContainment | script.js:332-333 | two labels that contain each other are equal |
| Matcher.SimilarityAsymmetric | script.js:332-333 | when one normal form properly contains the other, the score is 0.9 one way round and 0.8 the other |
| Matcher.SimilarityAccepts | script.js:322-333 | a score passes `> 0.8` exactly when the candidate's normal form contains the target's |
| Matcher.MatchIndex | script.js:303-325 | the returned index lies in the list (the selection itself is fixed by the lemmas below) |
| Matcher.FindBestMatch | script.js:303-325 | the loop returns the appointment `MatchIndex` selects, or null |
| Matcher.BestCandidate | script.js:311-320 | the strict `>` loop keeps the maximal score and the first appointment reaching it; no candidate exactly when every score is 0 |
| Matcher.ExactMatchWins | script.js:304-305 | the first appointment whose label equals the target wins |
| Matcher.NormalizedMatchWins | script.js:307-309 | without an exact label, the first label equal after normalisation wins |
| Matcher.FuzzyMatchIsFirstContaining | script.js:311-322 | otherwise the first appointment whose normal form contains the target's wins |
| Matcher.MatchFoundIff | script.js:303-325 | a match exists exactly when some appointment's normal form contains the target's |
| Matcher.EmptyTargetTakesFirst | script.js:303-325 | an empty target is matched to the first appointment (see Findings) |
| Report.DottedDigits | script.js:182 | the dotted date `YYYY.MM.DD` keeps its eight digits and has dots at 4 and 7 |
| Report.ExtractDate | script.js:178-183 | the date is `YYYY.MM.DD.` built from the first eight consecutive digits of the filename, or the default date when there are none |
| Report.FormatDate | script.js:284-295 | falsy gives ''; a number goes to the serial-date converter; a string keeps only its digits, dotted when there are exactly eight |
| Report.FormatEightDigits | script.js:291-292 | eight digits are formatted as `YYYY.MM.DD` |
| Report.CriterionOf | script.js:189-197 | a criteria row yields a criterion exactly when it has at least five cells and column 1 or 4 is truthy |
| Report.ExtractCriteria | script.js:186-198 | the loop from row 1 on collects exactly the specified criteria |
| Report.CriteriaSound | script.js:186-198 | every criterion comes from a qualifying row at or after row 1 and carries that row's index |
| Report.CriteriaOrdered | script.js:186-198 | criteria appear in strictly increasing row order |
| Report.CriteriaComplete | script.js:186-198 | every qualifying row contributes its criterion |
| Report.LastCategoryIsNearest | script.js:201-205 | a criterion without a category receives the nearest earlier truthy category |
| Report.LastCategoryNone | script.js:201-205 | with no earlier truthy category it receives '' |
| Report.FilledDown | script.js:200-205 | fill-down keeps the number of criteria |
| Report.FillDown | script.js:200-205 | the in-order loop computes the filled-down list |
| Report.FillDownMeaning | script.js:200-205 | positions and indices are unchanged; truthy categories are kept; a falsy result means no truthy category up to that point |
| Report.HeaderIndex | script.js:208-214 | the header is the first of the first min(10, n) rows containing '성명'; None exactly when none of those rows does |
| Report.FindHeader | script.js:208-214 | the loop with `break` finds that row |
| Report.ActiveStep | script.js:227-243 | one roster row is skipped, throws a TypeError, or appends its appointment |
| Report.ExtractActive | script.js:225-243 | the roster loop computes the specified list of active appointments or the first TypeError |
| Report.ActiveAppointmentsAreServing | script.js:231-242 | every kept appointment comes from a roster row with a truthy name and position and an accepted status; its position is that row's, trimmed; its period is non-empty |
| Report.ActiveFailsIff | script.js:235-240 | the loop throws exactly when some row reaches a string method with a non-string |
| Report.ActiveInRowOrder | script.js:225-243 | the active list holds one appointment per kept roster row after the header, in row order, and no kept row is left out |
| Report.ActiveMatchesKept | script.js:225-243 | the k-th active appointment is the one the k-th kept row contributes |
| Report.FlaggedInOrder | script.js:225-243 | the kept row indices are kept rows, after the header, strictly increasing |
| Report.FlaggedComplete | script.js:225-243 | every kept row after the header is among the kept indices |
| Report.Matched | script.js:249 | the match as written is one of the active appointments, and on a non-blank label it is the corrected match |
| Report.MatchedFound | script.js:249 | a criterion is matched exactly when some active label contains its label after normalisation, so a blank label is matched whenever an appointment is active |
| Report.MatchFor | script.js:249 | the corrected match: a blank target matches nobody, and a match is one of the active appointments |
| Report.MatchForFound | script.js:249 | under the correction, a criterion is matched exactly when its position is not blank and some active label contains it after normalisation |
| Report.BlankLabelDiffers | script.js:249 | the match as written and the corrected match differ exactly when the label is blank after normalisation and some appointment is active; the match as written then gives someone |
| Report.MatchStep | script.js:248-257 | one criterion appends its line or stops the loop with its error |
| Report.MatchCriteria | script.js:246-257 | the loop over the criteria computes the specified report lines |
| Report.MatchAllLines | script.js:246-257 | there is one line per criterion, in criteria order |
| Report.OneLinePerCriterion | script.js:249-256 | each line keeps its criterion's category and position; it has a name and period exactly when `findBestMatch` returns an appointment, blank label or not, and then they are that appointment's |
| Report.MatchAllError | script.js:248-257 | the only error matching can raise is a TypeError |
| Report.ProcessData | script.js:176-282 | the report holds the titled date and both header rows, and its rows are the two-column layout of the report lines; otherwise it is the error those lines raise |
| Report.HeaderNotFoundIff | script.js:216 | the header error is raised exactly when none of the first ten rows contains '성명' |
| Tally.TallyNames | script.js:370-384 | the walk throws a TypeError exactly when some line holds a truthy name that is not a string; otherwise every non-blank string name is counted once per line it holds, its positions are recorded in walking order, and exactly those names are keys |
| Tally.TallyLine | script.js:374-383 | one line throws exactly when its left or right name is truthy and not a string; otherwise its two entries extend the tally |
| Tally.Record | script.js:377-382 | one entry updates the tally of the entries seen so far |
| Tally.TalliedConcat | script.js:373-384 | the tally of a concatenation is the concatenation of the tallies |
| Tally.EntriesCountLikeColumns | script.js:373-374 | counting side by side gives the left-column count plus the right-column count |
| Tally.BlanksCountForNobody | script.js:377 | padding lines count for nobody |
| Tally.LayoutKeepsCounts | script.js:373-384 | each name counts as many lines in the two-column layout as in the report |
| OrgTree.OrgNodeOf | script-orgchart.js:35-46 | a row yields a node exactly when it has three cells, a truthy name and a non-null id; the node takes those cells, a truthy English name (column 3) is kept and a falsy one becomes '' |
| OrgTree.ParseOrgRows | script-orgchart.js:32-48 | the loop from row 1 on collects the specified nodes |
| OrgTree.OrgNodesAreQualifyingRows | script-orgchart.js:33-47 | the nodes are exactly those of the qualifying rows |
| OrgTree.OrgNodesKeepOrder | script-orgchart.js:33-47 | the nodes come in row order |
| OrgTree.NodeMap | script-orgchart.js:56-58 | the map's keys are the ids of the nodes |
| OrgTree.OrgChart.FromNodes | script-orgchart.js:52-71 | the id map holds every node; roots are the nodes with a null or unknown supervisor, in order; every other node is in its supervisor's children list |
| OrgTree.OrgChart.IndexNodes | script-orgchart.js:56-58 | the first pass maps every id to its node, with an empty children list |
| OrgTree.OrgChart.LinkNodes | script-orgchart.js:60-68 | the second pass pushes every node onto the roots or onto its supervisor's children |
| OrgTree.OrgChart.EachNodeOnce | script-orgchart.js:60-68 | with distinct ids, each node is placed exactly once: as a root, or in its own supervisor's children and nowhere else |
| OrgTree.OrgChart.RootIff | script-orgchart.js:62-63 | an id is a root exactly when a node with that id has a null or unknown supervisor |
| OrgTree.OrgChart.MatchProfessorData | script-orgchart.js:74-105 | the tree is unchanged; every node reached from the roots whose name is a recorded position gets that position's people; no other node changes |
| OrgTree.OrgChart.MatchEach | script-orgchart.js:99 | matching each id of a list attaches people over everything reached from those ids |
| OrgTree.OrgChart.MatchNode | script-orgchart.js:93-101 | matching a node attaches its people and those of its subtree |
| OrgTree.OrgChart.AttachedTrans | script-orgchart.js:93-103 | attaching over two node sets in turn attaches over their union |
| OrgTree.OrgChart.BuildPositionMap | script-orgchart.js:75-91 | the position map lists, for every position, the people of the entries recorded under it in walking order |
| OrgTree.OrgChart.RecordRow | script-orgchart.js:78-90 | one line, left then right, extends the map of the entries seen |
| OrgTree.OrgChart.RecordItem | script-orgchart.js:79-89 | one entry with a position and a truthy name is appended to its position's list |
| OrgTree.OrgChart.ListedSound | script-orgchart.js:80-88 | every listed person comes from a recorded entry for that position; the empty position lists nobody |
| OrgTree.OrgChart.ListedComplete | script-orgchart.js:80-88 | every recorded entry is listed under its position |
| OrgTree.OrgChart.PositionMapUnique | script-orgchart.js:75-91 | the position map of a walk is unique |
| Hierarchy.FirstAt | script-orgchart.js:202-212 | the index of the first entry filed under a key, or the length when there is none |
| Hierarchy.BuildSimpleHierarchy | script-orgchart.js:197-242 | the build fails with a TypeError exactly when an entry's category key is an inherited property. Otherwise there is one root per category key, in the order keys first appear, labelled with the first entry's category, with unique position labels in the order their first entries appear, each showing the first named entry for that label |
| Hierarchy.FirstPlaced | script-orgchart.js:221-233 | the index of the first entry placed under a key and label, or the length when there is none |
| Hierarchy.FirstPlacedFound | script-orgchart.js:221-233 | a label has a first place exactly when some entry is placed under it |
| Hierarchy.OrderKept | script-orgchart.js:221-233 | old labels that keep their first places, followed by at most one label first met at the new entry, stay in first-appearance order |
| Hierarchy.NewLabelInOrder | script-orgchart.js:223-233 | a new label's node is appended after the labels met before it, keeping first-appearance order |
| Hierarchy.Visit | script-orgchart.js:217-239 | one entry keeps the roots and index consistent, or fails on an inherited key |
| Hierarchy.Place | script-orgchart.js:219-238 | placing a qualifying entry keeps the roots consistent with the entries seen |
| Hierarchy.GetCategoryNode | script-orgchart.js:201-214 | a known key returns its node unchanged; an unknown key appends a new empty node `cat-<key>` and indexes it |
| Hierarchy.PlacePosition | script-orgchart.js:221-237 | a new label appends a position node; an existing one takes the first name that arrives while it has no person |
| Hierarchy.KeysDistinct | script-orgchart.js:201-213 | no two roots share a category key |
| Hierarchy.EntryIsPlaced | script-orgchart.js:219-237 | every qualifying entry is listed under its category's root with its position label |
| Hierarchy.NewPosition | script-orgchart.js:223-233 | a new label node shows its first entry |
| Hierarchy.ExistingPosition | script-orgchart.js:234-237 | an existing label keeps showing its incumbent |
| Hierarchy.IncumbentSnoc | script-orgchart.js:234-237 | the incumbent changes only when no name was set and a named entry arrives |
| Hierarchy.SkipEntry | script-orgchart.js:219 | an entry without a category or position changes nothing |
| Extract.ExtractDateFromFilename | extract_data.py:31-37 | with eight consecutive digits: the label `(YYYY.MM.DD.)` of the first such run and the number they denote; otherwise the no-date label and no number |
| Extract.DateAgreesWithReport | extract_data.py:31-37 | the Python label is the JavaScript report date in brackets |
| Extract.CurrentDate | extract_data.py:131-136 | the filename's date, or today's date when there is none or it is 0 |
| Extract.ParseInt | extract_data.py:171 | `int()` succeeds exactly on an optional sign followed by digits with single underscores between digits; the value is that decimal number without underscores, negated after '-' |
| Extract.DashedDateIsZero | extract_data.py:167-173 | a date written `2025-01-01` is rejected by `int()` and reads as 0 |
| Extract.ToDateInt | extract_data.py:167-173 | 0 for empty text, 'nan' or text `int()` rejects; otherwise the parsed integer of `str(x)` without dots, stripped |
| Extract.MissingDate | extract_data.py:170 | a missing cell reads as 0 |
| Extract.IntegerDate | extract_data.py:167-173 | an integer cell reads back as itself, negative or not |
| Extract.DottedDate | extract_data.py:169-171 | a dotted date `YYYY.MM.DD` reads as `YYYYMMDD` |
| Extract.ParseDigits | extract_data.py:171 | a digit string parses as its value, and with '-' as its negation |
| Extract.DecimalRoundTrip | extract_data.py:171 | reading back the decimal text of a number gives the number |
| Extract.EndDateInt | extract_data.py:176 | the end date is positive: the date when it is positive, otherwise 99999999 |
| Extract.OpenEnded | extract_data.py:176-179 | an appointment without an end date is active exactly when it started by the current date |
| Extract.Select | extract_data.py:180 | the mask keeps exactly the elements whose flag is set |
| Extract.SelectConcat | extract_data.py:180 | masking keeps order: masking two stretches in turn concatenates what each keeps |
| Extract.ActiveRowsKeep | extract_data.py:179-180 | a row is kept exactly when it is a roster row that started by the current date and ends on or after it |
| Extract.Words | extract_data.py:53 | `split()` yields non-empty words without whitespace |
| Extract.NormalizeCollapsed | extract_data.py:47-55 | the normal form has no surrounding whitespace and no two spaces in a row |
| Extract.WordsOfJoin | extract_data.py:53 | splitting the space-join of words gives the words back |
| Extract.WordsOfTrim | extract_data.py:51-53 | stripping before `split()` changes no word |
| Extract.NormalizeKeepsWords | extract_data.py:47-55 | the normal form has the same words as `str(pos)` |
| Extract.NormalizeIdempotent | extract_data.py:47-55 | normalising a normal form changes nothing |
| Extract.RemoveAllKeeps | extract_data.py:65 | removing '(주)' only deletes characters |
| Extract.RemoveAbsent | extract_data.py:65 | text without the mark is unchanged |
| Extract.ComparisonHasNoSpace | extract_data.py:57-66 | the comparison form has no space |
| Extract.MarkCanSurvive | extract_data.py:65 | the single pass of `replace` can leave a '(주)' formed by the deletion itself |
| Extract.PartialScore | extract_data.py:104-109 | the overlap score is at most 60 |
| Extract.QuotientBound | extract_data.py:109 | the integer quotient of a ≤ k·b by b is at most k |
| Extract.Score | extract_data.py:89-109 | the score is at most 100, equals 100 exactly for equal normal forms, and below 70 it is at most 60 |
| Extract.AcceptedTiers | extract_data.py:91-121 | a score reaches 70 exactly through the four named tiers, never through partial overlap |
| Extract.SelfScore | extract_data.py:92-93 | a position scores 100 against itself |
| Extract.SuffixAsymmetry | extract_data.py:98-102 | a proper suffix longer than 3 scores 80 one way round and 70 the other |
| Extract.BestOf | extract_data.py:111-113 | the strict `>` loop keeps the maximal score and its first index; no index exactly when every score is 0 |
| Extract.AcceptedIndex | extract_data.py:111-121 | an index is returned exactly when some score reaches 70; it is the first maximum |
| Extract.AcceptedSpec | extract_data.py:68-121 | a match exists exactly when some record scores at least 70; it is the first record with the highest score |
| Extract.BestOfSnoc | extract_data.py:111-113 | one more score replaces the best only when it is strictly higher |
| Extract.FindBestMatch | extract_data.py:68-121 | the loop returns the accepted record |
| Extract.Records | extract_data.py:187-196 | every record has a non-empty stripped position |
| Extract.BuildRecords | extract_data.py:187-196 | the loop builds the specified records |
| Extract.ResultForSpec | extract_data.py:205-234 | a result keeps its row's cleaned category and position; its period is empty exactly when nothing is accepted, and then its name is empty too |
| Extract.MatchRow | extract_data.py:206-234 | one pass computes the specified result |
| Extract.BuildResults | extract_data.py:201-234 | one result per criteria row, in order |
| Extract.BuildData | extract_data.py:238-264 | the data holds the title, the date label, both header rows, and the two-column layout of the results |

## Left out

- File reading, `XLSX` parsing, pandas I/O, DOM rendering, drag and drop, the chart layout and drawing, JSON output, and debug or console prints. The model starts from rows of cells.
- Report.FormatDate: a numeric date cell is converted by `XLSX.SSF.parse_date_code`, a library outside this model. It is the parameter `serialDate`.
- Extract.BuildData: the pandas `sort_values` of the active rows by start date is not modelled. `BuildData` takes the active rows in the order the sort leaves them.
- Extract.ToDateInt: Python `int()` also accepts non-ASCII Unicode digits, and pandas may hand over floats, datetimes or booleans. Cells are modelled as NaN, string or integer only, with ASCII digits.
- Cells: booleans, fractional numbers and NaN are not modelled as JavaScript cells.
- Report.ExtractActive: an absent (sparse) row is treated as an empty row. For `!row` the two behave the same.
- OrgTree.OrgChart.MatchProfessorData: recursion depth is bounded by the number of nodes. With duplicate ids the source's tree can contain a cycle, and the recursion then overflows the stack. The model stops instead and does not reproduce the overflow.
- OrgTree.OrgChart: node objects are shared by reference in JavaScript, so `node.professors` is visible through every path to the node. The model stores people per id, which is the same thing when ids are distinct.
- Extract.ExtractDateFromFilename: Python's `\d` also matches non-ASCII decimal digits (full-width digits, for example). The model reads ASCII digits only, so `DateAgreesWithReport` holds for ASCII dates only.
- Tally.TallyNames: keys are plain-object properties, so a name like `constructor` reads an inherited member, and `nameCount[name] \|\| 0` then misbehaves. The model treats every name as an own key.
- The summary modal, the tooltip and the "concurrent arrows" that read the tally are rendering and are not modelled.

## Findings

| source | as written | input that shows it | evidently intended | confidence | as-written member | corrected member |
|---|---|---|---|---|---|---|
| script.js:303-333 | `findBestMatch('', list)` returns the first active appointment whose position is blank (the exact search), or else scores every candidate 0.9, because `n2.includes('')` is true, and returns the first active appointment | a criteria row with a category in column 1 and an empty column 4 (criterion position ''), and a roster whose active positions are all non-blank: the line shows the first appointee | a criterion without a position matches nobody | not executed | Report.BlankLabelDiffers | Report.MatchFor |

The report lines follow the program as written: each criterion gets `Matched`,
what `findBestMatch` returns. `MatchFor` is the intended assignment, and
`BlankLabelDiffers` states exactly where the two part ways.
