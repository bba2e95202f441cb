# Verified model of the grading backend

This project models the parts of the backend whose correctness cannot be read off one
function: turning a PDF's words into a document, linking citations and pacing the calls
that resolve them, the analysis-job protocol, the rate limiters, and the invariants of
provider routing, rubrics and tracked JSON columns. `dafny verify dfyconfig.toml` checks
all of it.

## What is modelled

**Document assembly.** `PageWords`, `ProseGutter` and `LineGrouping` take words to rows,
find the gutter of a two-column page with difference arrays and group rows into lines in
reading order. `ParagraphText` joins words into lines and lines into paragraphs while
superscript markers keep pointing at their digits. `SectionNesting` nests headings with a
stack kept across pages, `ParagraphCuts` cuts the other lines into paragraphs, and
`DocumentIr` puts both together page by page and then drops running heads and feet
(`RepeatedMargins`), rebuilding the forest and every reference. `WholeDocuments`,
`WholeParagraphs` and `EdgeText` say what the result amounts to, read off the pages' lines,
and `GutterRows` what the gutter search counts, read off its words.

**Citations.** `BibliographyClosure` is the worklist over the section forest,
`CitationLinks` the linking of mentions to references with the counts of the report, and
`CrossrefPacing` the slot reserver shared by all threads, the deadline and breaker of one
job, and the retrying request.

**Analysis jobs.** `AnalysisJobs` and `AnalysisDispatch` are the row operations and the
outbox loop. `AnalysisRuns` interleaves them: a step is a committed transaction, a row lock
is a guard, the clock is a value that does not go back. `AnalysisTheorems` says what holds
over all runs, `AnalysisLeases` what a claim gives its worker and what each step does,
`AnalysisStranding` exactly which runs lose a job's wake-up, and `StatusMigration` adds the
migration before and after.

**Limiters.** `LoginLockout` and `JoinRateLimit` give time bounds over whole runs, with the
settings for which they hold and runs that reach them.

**State invariants.** `LlmRouting` is the optimistic concurrency around providers, the
route and catalogue tests in flight. `Rubrics` is the running total of a rubric, and
`RubricFreeze` the triggers and foreign keys that freeze it. `NestedJson` and
`NestedTracking` are a heap of dictionaries and lists that all report to one root, and
`NestedRuns` two runs to its corners.

Times stored in the database are integer microseconds and monotonic readings are reals, as
are coordinates. Weights are whole hundredths. Text normalisation, regular expressions,
hashing, encryption, HTTP outcomes and lock waits are parameters.

## Where the code does not meet the expectation

Each of these has a lemma with the exact condition or a run that shows it.

- A rubric's total is computed from a rubric row loaded before the lock is taken, so two
  concurrent additions both stay and one weight is missing from the total
  (`Rubrics.ConcurrentAddsLoseOne`, `Rubrics.AccountKeptExactlyOnAgreement`).
- The login bound needs a lock at least as long as the window, which the settings do not
  enforce (`LoginLockout.BoundHoldsExactlyForLongLocks`).
- The join limiter reads its clock before its locks; out of order, cleanup can be observed
  for every setting (`JoinRateLimit.OutOfOrderCleanupIsVisible`), exactly when a request
  reads a time inside the window of a deleted row of its own
  (`JoinRateLimit.GuardKeepsAgreementExactly`, `JoinRateLimit.UnguardedCleanupShows`). With
  a limit of one Retry-After is not enough (`JoinRateLimit.RetryAfterIsHonestExactly`).
- A delivery that meets a locked row is acknowledged without effect, and a poller deletes a
  row whose message may be used up already, so a queued job can be left with neither an
  outbox row nor a message: exactly by the steps of
  `AnalysisStranding.StepStrandsExactlyTheLastWakeUp` and in the runs of
  `AnalysisStranding.RunStrandsExactly`.
- An active route need not stay ready after a test; `LlmRouting.RouteStaysReadyExactly` says
  when it does.
- `update` and `extend` on a tracked container keep what went in before a cyclic value and
  do not report it (`NestedTracking.World.Update`, `NestedTracking.World.Extend`,
  `NestedRuns.StuckUpdateIsUnreported`).
- An empty container counts as false, so a value put into a container that was taken out of
  a now empty root reports to that container and not to the root
  (`NestedTracking.World.Adopt`, `NestedRuns.PoppedChildBecomesRoot`).

## Model

| member | source | states |
|---|---|---|
| PageWords.SortSorts | backend/app/services/document_ir.py:490-497 | The ordering used for words is a sort: its result is in key order and is a permutation of its input. |
| PageWords.GatherOrdered | backend/app/services/document_ir.py:490-496 | Words read down the page fall into rows: every word lands in exactly one row, a row keeps within three points of its first word, and each row starts more than three points below the one before. |
| PageWords.WordRows | backend/app/services/document_ir.py:490-497 | Rows hold every word once, rows run down the page without overlapping in height, and each row runs left to right. |
| ProseGutter.SpansCoverTheWords | backend/app/services/document_ir.py:618-623 | Merging touching words loses and adds no ink: a point lies in a span exactly when it lies in a word. |
| ProseGutter.SpansAndGapsAreDisjoint | backend/app/services/document_ir.py:624-631 | At no x can a row count both as crossing and as clear: spans and wide gaps never both contain it. |
| ProseGutter.RowCountsOnce | backend/app/services/document_ir.py:617-631 | One row adds at most one to the crossing count plus a clear count at any x. |
| ProseGutter.CountsFitTheRows | backend/app/services/document_ir.py:617-634 | For every x, crossing plus left-clear, and crossing plus right-clear, are at most the number of rows. |
| ProseGutter.Mark | backend/app/services/document_ir.py:610-615 | Marking an interval in a difference array, within its bounds, adds that interval to what the array represents. |
| ProseGutter.Accumulate | backend/app/services/document_ir.py:632-634 | The prefix pass turns each cell into the direct count of marked intervals strictly containing that x. |
| ProseGutter.CountRow | backend/app/services/document_ir.py:617-631 | One row marks its covered stretches and its wide gaps in the three arrays. |
| ProseGutter.CountAll | backend/app/services/document_ir.py:604-634 | After all rows and the prefix pass each cell of each array equals the direct count. |
| ProseGutter.BestCandidates | backend/app/services/document_ir.py:636-649 | The search returns the first and the last of the best-scoring admissible x, or nothing when no x is admissible. |
| ProseGutter.FindGutter | backend/app/services/document_ir.py:587-676 | A split is found exactly when the page is searchable, some x is admissible and the middle of the best ones passes the justification check; it lies in the central fifth. |
| GutterRows.CountsCountRows | backend/app/services/document_ir.py:617-634 | At every position the three counts are the numbers of rows that have ink on both sides of it, or nothing there, text to the left or right, and a gutter's width between their neighbouring words. |
| GutterRows.CandidateExactly | backend/app/services/document_ir.py:635-644 | A position may be the gutter exactly when it lies in the middle fifth, ten rows are clear there with text on the left and ten on the right, and at most three or a fifth cross it. |
| GutterRows.ScoreExactly | backend/app/services/document_ir.py:645-650 | Candidates are scored by the rows clear on either side less those that cross. |
| LineGrouping.GroupRows | backend/app/services/document_ir.py:679-737 | The grouping loop computes the specified line groups. |
| LineGrouping.GroupLines | backend/app/services/document_ir.py:679-737 | The line groups of a page are its rows as `_word_rows` gives them, or those rows grouped at the split the page calls for, with that split's gutter; every word is in them once. |
| LineGrouping.RowSplitsInOrder | backend/app/services/document_ir.py:703-706 | The parts of a row are exactly its words that start at or before the split and exactly its others, each in row order. |
| LineGrouping.SpanningMeans | backend/app/services/document_ir.py:717-731 | A row spans exactly when a word lies across the split, a word starting up to it and one starting beyond are less than the gutter apart, or a row of at most 16 words with both kinds has one set at 1.2 times the body size. |
| LineGrouping.PageReadsInOrder | backend/app/services/document_ir.py:690-737 | Between two rows that span in that sense the other rows are read as they are when they have words of one column only, and else as left lines and then right lines, each running down the page, with all their words. |
| LineGrouping.UnspannedPageReads | backend/app/services/document_ir.py:690-737 | A page on which no row spans reads as one such stretch. |
| LineGrouping.GroupingConserves | backend/app/services/document_ir.py:690-737 | Grouping neither loses nor repeats a word. |
| LineGrouping.SegmentIsFlushedWhole | backend/app/services/document_ir.py:697-737 | Rows between two spanning rows are emitted as one segment. |
| LineGrouping.SpanningRowIsABarrier | backend/app/services/document_ir.py:716-737 | No text moves across a spanning row: above, the row itself, below. |
| LineGrouping.LeftColumnReadsFirst | backend/app/services/document_ir.py:697-715 | Within a segment every line of the left column comes before every line of the right column. |
| ParagraphText.LineFromWords | backend/app/services/document_ir.py:427-475 | A line joins its visible words with spaces, and its markers are exactly the qualifying words, each at its place in the text. |
| ParagraphText.LineMarkersPoint | backend/app/services/document_ir.py:433-475 | Every marker of a line spans its own digits in the line text, its number is positive and is what they spell, and markers are ordered and disjoint. |
| ParagraphText.JoinedHolds | backend/app/services/document_ir.py:433-441 | The joined text has each part at the place the parts before it leave, after one space, and nothing else. |
| ParagraphText.VisibleKeeps | backend/app/services/document_ir.py:428 | The words of a line are those with text, in order. |
| ParagraphText.MarkersExactly | backend/app/services/document_ir.py:436-461 | Every word that qualifies by digits, size, height and what is before it has a marker at its own place, and there are no other markers. |
| ParagraphText.ParagraphFromLines | backend/app/services/document_ir.py:1791-1827 | A paragraph joins its lines and shifts every marker with its line. |
| ParagraphText.ParagraphMarkersPoint | backend/app/services/document_ir.py:1791-1827 | After both joins every marker still satisfies text[start:end] == raw with a positive matching number, in order and disjoint. |
| ParagraphText.ParagraphMarkersExactly | backend/app/services/document_ir.py:1783-1828 | A paragraph's markers are exactly its lines' markers, each moved by where its line stands. |
| ParagraphText.ParagraphMarkersPassCitationChecks | backend/app/services/citation.py:1280-1295 | Every such marker passes the shape and range checks of the citation parser. |
| SectionNesting.NearestSmaller | backend/app/services/document_ir.py:1587-1590 | The specification: the nearest earlier heading of strictly smaller level, or none. |
| SectionNesting.NearestSmallerIgnoresLater | backend/app/services/document_ir.py:1587-1590 | Later headings do not change an earlier one's parent. |
| SectionNesting.PoppedStackGivesParent | backend/app/services/document_ir.py:1588-1590 | Whatever remains after popping deeper headings has the nearest smaller heading on top. |
| SectionNesting.PushHeading | backend/app/services/document_ir.py:1586-1606 | Popping and pushing one heading yields the nearest smaller heading as parent and keeps the stack a chain of nearest smaller headings. |
| DocumentParts.NestedOneMore | backend/app/services/document_ir.py:1586-1606 | A document whose every section has the right parent keeps that property when a heading is appended. |
| DocumentParts.NestedMeans | backend/app/services/document_ir.py:1583-1606 | A section's parent is the nearest section before it of strictly smaller level, and it has none exactly when there is no such section. |
| ParagraphCuts.CutParagraphs | backend/app/services/document_ir.py:1614-1654 | The paragraph loop cuts a page into contiguous runs of content lines that follow one another, are parted by a break, and leave no content line out. |
| ParagraphCuts.SharedExactlyWithoutBreak | backend/app/services/document_ir.py:1628-1646 | Neighbouring content lines share a paragraph exactly when section, indent and gap do not break between them. |
| ParagraphCuts.PlacedOnce | backend/app/services/document_ir.py:1614-1654 | No content line is in two paragraphs. |
| ParagraphCuts.OneSectionPerRange | backend/app/services/document_ir.py:1627-1632 | All lines of a paragraph belong to one section. |
| DocumentIr.DocumentIr.constructor | backend/app/services/document_ir.py:1409-1414 | An empty document satisfies the invariant. |
| DocumentIr.DocumentIr.NestHeadings | backend/app/services/document_ir.py:1574-1612 | The heading loop appends exactly the page's headings in order, nested, and files every line under the latest heading of the document. |
| DocumentIr.DocumentIr.AssembleParagraphs | backend/app/services/document_ir.py:1783-1828 | Runs of lines become paragraphs with their text, markers, section, line range and box, numbered on. |
| DocumentIr.DocumentIr.AddPage | backend/app/services/document_ir.py:1574-1671 | One page adds its headings, its paragraphs and a page record listing exactly these; numbering, nesting and cross-references stay sound. |
| DocumentIr.ParagraphsStayNumbered | backend/app/services/document_ir.py:1614-1654 | Paragraph ids keep counting up and name sections that exist. |
| DocumentIr.DocumentIr.DropRepeatedMarginElements | backend/app/services/document_ir.py:1676-1780 | The pass drops exactly the repeated margin elements, re-nests what survives, moves paragraphs off dropped sections and clears the page lists; nothing then names a dropped element. |
| DocumentIr.DocumentIr.RebuildForest | backend/app/services/document_ir.py:1732-1769 | Survivors keep everything but their parent, which is again the nearest preceding survivor of smaller level. |
| DocumentIr.DocumentIr.AddPages | backend/app/services/document_ir.py:1419-1671 | Before the margin pass the document is exactly its pages one after the other: each starts where the last ended, its sections are its heading lines, its paragraphs the runs of its other lines, and its record lists both. |
| DocumentIr.DocumentIr.ParsePages | backend/app/services/document_ir.py:1396-1673 | The parsed document is that whole document after dropping exactly the repeated margin elements, re-nesting, moving paragraphs and clearing lists; every parent is the nearest preceding surviving section of smaller level and no list or paragraph names what is gone. |
| WholeDocuments.ContentLinesHaveOneParagraph | backend/app/services/document_ir.py:1614-1654 | In the whole document a line of any page is in some paragraph exactly when it is content, and then in only one. |
| WholeDocuments.HeadingLinesAreSections | backend/app/services/document_ir.py:1574-1612 | Every heading line of every page is a section, at its rank over all pages. |
| WholeDocuments.SectionsAreHeadingLines | backend/app/services/document_ir.py:1574-1612 | Every section is a heading line of some page, so none is made up. |
| WholeParagraphs.NeighboursShareExactly | backend/app/services/document_ir.py:1614-1654 | Neighbouring content lines are in one paragraph exactly when they start within 36 points of each other and at most six points, or one and a half line heights, lie between them. |
| WholeParagraphs.SectionIsLastHeadingBefore | backend/app/services/document_ir.py:1574-1612 | A paragraph hangs under the last heading before it in the whole document. |
| WholeParagraphs.ParagraphBoxesItsLines | backend/app/services/document_ir.py:1783-1828 | A paragraph's box is the least that holds all its lines. |
| WholeParagraphs.ParagraphReadsItsLines | backend/app/services/document_ir.py:1783-1828 | Its text is the texts of its lines in order with one space between. |
| WholeDocuments.CutIsUnique | backend/app/services/document_ir.py:1614-1654 | The cutting rules leave one way to cut a page into paragraphs. |
| WholeDocuments.AssemblyIsUnique | backend/app/services/document_ir.py:1396-1671 | The pages decide the assembled document: pages, sections with their parents, paragraphs. |
| WholeDocuments.ParsedDocumentIsUnique | backend/app/services/document_ir.py:1396-1780 | So do they decide the parsed one, after the margin pass. |
| DocumentIr.StaysConsistent | backend/app/services/document_ir.py:1732-1780 | Filtering lists, re-nesting and moving paragraphs together leave no dangling reference. |
| EdgeText.ParagraphGoesExactly | backend/app/services/document_ir.py:1682-1713 | A paragraph is gone after the margin pass exactly when it lies within 72 points of the top or bottom of its page and two pages have a short text reading the same within those bounds. |
| EdgeText.SectionGoesExactly | backend/app/services/document_ir.py:1682-1727 | So is a section, except that of bibliography headings with the same text the first such stays. |
| EdgeText.ClearOfEdgesStays | backend/app/services/document_ir.py:1687-1693 | Whatever is clear of both edges of its page is still there, whatever it says. |
| EdgeText.SurvivorsInOrder | backend/app/services/document_ir.py:1729-1767 | What stays keeps its order. |
| EdgeText.SurvivorsKeepTheirFields | backend/app/services/document_ir.py:1729-1773 | A section that stays keeps all but its parent, a paragraph all but its section, and that too if the section stays. |
| EdgeText.PageListsWhatStays | backend/app/services/document_ir.py:1775-1780 | A page lists exactly those of its sections and paragraphs that stay. |
| RepeatedMargins.FindRepeated | backend/app/services/document_ir.py:1694-1706 | A text counts as repeated exactly when short margin elements on two different pages fold to it. |
| RepeatedMargins.DroppedSections | backend/app/services/document_ir.py:1712-1724 | A repeated margin heading is dropped, except the first hit of each bibliography text. |
| RepeatedMargins.RetainedBibliography | backend/app/services/document_ir.py:1733-1741 | The retained heading of a bibliography text is the last surviving one. |
| RepeatedMargins.Renest | backend/app/services/document_ir.py:1742-1764 | Walking the old sections re-nests the survivors and records a replacement for each dropped one. |
| RepeatedMargins.SomeNamesakeStays | backend/app/services/document_ir.py:1718-1724 | A bibliography text always keeps a surviving heading. |
| RepeatedMargins.BibliographyMovesToNamesake | backend/app/services/document_ir.py:1747-1752 | Paragraphs under a dropped bibliography heading move to a surviving heading with the same normalised text. |
| RepeatedMargins.NamesakeIsLast | backend/app/services/document_ir.py:1736-1743 | Of several surviving bibliography headings with that text it is the last. |
| RepeatedMargins.OthersMoveToNearestBefore | backend/app/services/document_ir.py:1747-1752 | Paragraphs under any other dropped heading move to the nearest surviving heading before it. |
| CitationLinks.ExpandNumbers | backend/app/services/citation.py:675-697 | Expansion succeeds exactly within the length, part, range and total limits. |
| CitationLinks.ExpandedNumbers | backend/app/services/citation.py:675-697 | The expanded numbers are those the parts name, each once, at most 64. |
| CitationLinks.ExpandableExactly | backend/app/services/citation.py:675-697 | A mention's numbers are read exactly within 512 characters, 64 parts, ranges that run up by at most 50, and 64 numbers in all. |
| CitationLinks.DeduplicatedInOrder | backend/app/services/citation.py:697 | They stand in the order in which they first stood. |
| CitationLinks.IndexByNumber | backend/app/services/citation.py:1360-1363 | The number index holds, for each number, the references that carry it explicitly, in order. |
| CitationLinks.IndexByAuthorYear | backend/app/services/citation.py:1364-1372 | The author-year index holds each reference once under each of its words and its year. |
| CitationLinks.Link | backend/app/services/citation.py:1360-1454 | The linking loops give each mention and each reference the status the specification gives it. |
| CitationLinks.StatusExactly | backend/app/services/citation.py:1371-1436 | A cleanly read mention is linked exactly when each of its numbers is carried explicitly by one reference alone, or its author and year are those of one alone, all cleanly read; otherwise in a clear report it is ambiguous if it points to some reference and an orphan if to none. |
| CitationLinks.ListsExactlyPointedTo | backend/app/services/citation.py:1389-1436 | A cleanly read mention lists exactly the references it points to. |
| CitationLinks.LinkageExactly | backend/app/services/citation.py:1437-1457 | A reference counts as linked exactly when a mention that is linked in that sense points to it. |
| CitationLinks.LinkedNumbersResolve | backend/app/services/citation.py:1394-1413 | A linked numeric mention names, number by number, the only reference with that number, and it was read cleanly. |
| CitationLinks.LinkedNumbersNameDistinctReferences | backend/app/services/citation.py:1394-1413 | A linked numeric mention names no reference twice. |
| CitationLinks.LinkedAuthorResolves | backend/app/services/citation.py:1414-1433 | A linked author-year mention names the only reference of that year with that author word, read cleanly. |
| CitationLinks.LinkedExactlyWhenNamed | backend/app/services/citation.py:1436-1454 | A reference is linked exactly when some linked mention names it. |
| CitationLinks.BlameNeedsAClearReport | backend/app/services/citation.py:1373-1435 | Orphan and ambiguous occur only in a report that is parsed throughout, ambiguous mapping only in one that is not; an orphan has no candidate at all, and a mention is uncertain exactly when its mapping is ambiguous. |
| CitationLinks.AsDict | backend/app/services/citation.py:325-366 | The report counts what it says it counts. |
| CitationLinks.CountsAddUp | backend/app/services/citation.py:325-392 | Linked, orphan and ambiguous mentions sum to all mentions; linked, uncited and uncertain references sum to all references. |
| BibliographyClosure.SectionMembership | backend/app/services/citation.py:497-525 | The worklist returns exactly the ids of sections whose chain of parents reaches a bibliography heading, where of several sections with one id the last counts, and terminates on any parent map. |
| BibliographyClosure.BelongsExactly | backend/app/services/citation.py:497-525 | Membership said of the list itself: a chain of parents, by position, where of several sections with one id the last counts, up to a heading. |
| BibliographyClosure.Visit | backend/app/services/citation.py:519-524 | One worklist step keeps the found set sound and its finished part closed, and makes progress. |
| BibliographyClosure.ListChildren | backend/app/services/citation.py:512-516 | The child lists invert the parent map, restricted to known sections. |
| BibliographyClosure.ClosedHoldsPath | backend/app/services/citation.py:517-525 | Any set closed under children that has the headings has every section that climbs to one. |
| BibliographyClosure.HeadinglessCycleBelongsToNothing | backend/app/services/citation.py:497-525 | Sections on a cycle of parents without a heading are never members. |
| CrossrefPacing.Pacer.Reserve | backend/app/services/citation.py:1654-1665 | A reservation takes the next free slot or, when that is not before the deadline, changes nothing. |
| CrossrefPacing.ReservationRespectsDeadline | backend/app/services/citation.py:1654-1665 | A granted slot is not in the past, not before the reserved time, and strictly before the deadline. |
| CrossrefPacing.SlotsAreSpaced | backend/app/services/citation.py:1654-1665 | Whoever calls and whenever, slots are at least one interval apart. |
| CrossrefPacing.WindowBound | backend/app/services/citation.py:1654-1665 | At most the ceiling of W over the interval slots fall in any half-open window of length W. |
| CrossrefPacing.WindowBoundIsReached | backend/app/services/citation.py:1654-1665 | A crowd of callers reaches that bound. |
| CrossrefPacing.JobLimits.Record | backend/app/services/citation.py:1633-1638 | Successes clear the failure streak, failures extend it, throttling leaves it. |
| CrossrefPacing.Client.Request | backend/app/services/citation.py:1672-1710 | A request gets its payload exactly when some attempt is made and answered with one, gives up exactly on a final answer, with what the breaker hears read off the code, and reaches the limits exactly when the breaker is open or a slot or wait would reach the deadline; attempts are made exactly as long as the ones before failed for now and everything fits, each with its slot before the deadline, and all is over by the deadline plus slack. |
| CrossrefPacing.FirstPayloadIsTaken | backend/app/services/citation.py:1684-1705 | A payload on the first attempt is taken whenever its slot fits. |
| CrossrefPacing.CallsLast | backend/app/services/citation.py:1629-1631 | A call runs its course within fifteen seconds and the deadline, and is cut off at the earlier, a millisecond in at the soonest. |
| CrossrefPacing.WaitsMean | backend/app/services/citation.py:1641-1653 | The waits are one, two and four seconds, or what the server asked for up to ten. |
| CrossrefPacing.StreakIsFailuresSinceSuccess | backend/app/services/citation.py:1634-1639 | The breaker counts the failures since the last success, and nothing else. |
| AnalysisJobs.RetryDelayIsTight | backend/app/services/analysis_job.py:229-249 | The computed delay lands strictly after an untouched lease runs out, at most a second later than necessary. |
| AnalysisJobs.UntouchedLeaseIsTakenAtWake | backend/app/services/analysis_job.py:229-249 | The delivery that wakes then finds the lease stale and takes the job over, or fails it once attempts are used up. |
| AnalysisJobs.JobRecord.constructor | backend/app/services/analysis_job.py:164-205 | A new job is queued with no attempts used. |
| AnalysisJobs.JobRecord.HandleLocked | backend/app/services/analysis_job.py:289-356 | Claiming a locked row: queued is claimed, a live lease is left, a stale one is re-claimed or failed. |
| AnalysisLeases.ClaimMeans | backend/app/services/analysis_job.py:252-356 | A claim takes a queued row, or one untouched since the cutoff with attempts left, as a new attempt whose heartbeat and start are now; without attempts left it fails the row; others it leaves alone. |
| AnalysisLeases.ClaimStartsLease | backend/app/services/analysis_job.py:252-258 | A claimed row counts as touched at the moment of the claim. |
| AnalysisJobs.JobRecord.UpdateHeartbeat | backend/app/services/analysis_job.py:208-222 | A heartbeat counts only for the running attempt. |
| AnalysisJobs.JobRecord.MarkDone | backend/app/services/analysis_job.py:413-460 | Completion counts only for the running attempt. |
| AnalysisJobs.JobRecord.MarkError | backend/app/services/analysis_job.py:463-509 | Failure counts only for the running attempt. |
| AnalysisJobs.JobRecord.Retry | backend/app/services/analysis_job.py:512-565 | A retry is accepted only from ERROR with attempts left, and clears the legacy marker. |
| AnalysisDispatch.Outbox.Enqueue | backend/app/services/analysis_dispatch.py:50-71 | An upsert that keeps an existing row without a due time and moves it with one. |
| AnalysisDispatch.Outbox.DispatchBatch | backend/app/services/analysis_dispatch.py:74-113 | A batch removes the rows that were published, backs off the ones that failed, and touches no other. |
| AnalysisDispatch.BackoffIsBoundedAndMonotone | backend/app/services/analysis_dispatch.py:102-108 | A failed row is due again after two to sixty seconds, never sooner than last time. |
| AnalysisRuns.StepKeepsInv | backend/app/services/analysis_job.py:164-565 | Every step of workers, pollers and users keeps the protocol invariant. |
| AnalysisRuns.RunKeepsInv | backend/app/services/analysis_job.py:164-565 | So does every run. |
| AnalysisRuns.RetryKeepsInv | backend/app/services/analysis_job.py:541-553 | A retry waits for a poller that holds the row, so the wake-up it leaves is not deleted. |
| AnalysisRuns.CommitKeepsInv | backend/app/services/analysis_dispatch.py:96-113 | A poller deletes only rows published since their job was last queued. |
| AnalysisRuns.ClaimingIsCalm | backend/app/services/analysis_job.py:252-356 | Claiming loses no wake-up and numbers its attempt correctly. |
| AnalysisTheorems.NoLostWakeUp | backend/app/services/analysis_dispatch.py:50-113 | In every reachable state a queued job has an outbox row or was published since it was queued; and the broker holds a message unless a delivery since then was consumed without effect. |
| AnalysisTheorems.AttemptsCountClaims | backend/app/services/analysis_job.py:252-356 | Attempts equal claims, never exceed the limit, and are strictly below it while queued. |
| AnalysisTheorems.LegalHistoryIsFenced | backend/app/services/analysis_job.py:413-505 | Each attempt ends at most once, before the next claim, and nothing follows DONE. |
| AnalysisTheorems.DoneIsAbsorbing | backend/app/services/analysis_job.py:413-505 | Over any run attempts only grow, history is only appended to, and DONE never changes. |
| AnalysisTheorems.OldAttemptIsPowerless | backend/app/services/analysis_job.py:208-222 | A worker holding an older attempt can never heartbeat, finish or fail the job again. |
| AnalysisTheorems.StepMovesRow | backend/app/services/analysis_job.py:208-565 | The complete list of what one step can do to a job row and its history. |
| AnalysisTheorems.SpacedWorkerKeepsItsJob | backend/app/services/analysis_job.py:289-298 | A worker whose touches are spaced under the lease keeps its attempt until it finishes. |
| AnalysisLeases.ClaimedWorkerKeepsItsJob | backend/app/services/analysis_job.py:252-298 | From the claim on, a worker whose heartbeats come less than a lease apart has its attempt until it ends it. |
| AnalysisLeases.StepDoesExactly | backend/app/services/analysis_job.py:208-565 | Every step does to a job's row exactly what its kind says, and nothing to other rows. |
| AnalysisLeases.RefusedDeliveryComesBack | backend/app/workers/tasks.py:62-88 | A delivery that meets a live lease changes no row, keeps its message, and has the job published again within a second of the moment the lease runs out. |
| AnalysisLeases.RunKeepsStamps | backend/app/services/analysis_job.py:252-565 | In every reachable state a row's time stamps are in order and fit its status. |
| AnalysisTheorems.SilentWorkerIsReplaced | backend/app/services/analysis_job.py:289-356 | A worker silent for a whole lease loses the row to the next claim, and only then. |
| AnalysisStranding.StepStrandsExactlyTheLastWakeUp | backend/app/services/analysis_job.py:385-410 | A job that had a wake-up is left queued with neither a row nor a message exactly by a delivery that skips its locked row or a task failure that uses up its last message, or by a poller deleting its row after the message was used up. |
| AnalysisStranding.StepRescuesExactly | backend/app/services/analysis_job.py:385-410 | A stranded job stays so exactly until the analysis is requested again, a late publication arrives or a worker claims it outright. |
| AnalysisStranding.RunStrandsExactly | backend/app/services/analysis_dispatch.py:73-113 | Over any run, a job ends stranded exactly when some step took its last wake-up and no later step gave it another. |
| AnalysisStranding.SkippedDeliveryStrandsTheJob | backend/app/services/analysis_job.py:385-410 | Such a run by a skipped delivery. |
| AnalysisStranding.LateCommitStrandsTheJob | backend/app/services/analysis_dispatch.py:73-113 | Such a run by a commit after the task has failed. |
| AnalysisTheorems.TriggerAloneWouldLoseTheWakeUp | backend/alembic/versions/20260829_0007_analysis_job_dispatch_outbox.py:80-101 | With the status trigger alone, and not the upsert of the retry, a queued job could lose its wake-up. |
| StatusMigration.RoundTrip | backend/alembic/versions/20260828_0006_pdf_upload_job_lifecycle.py:42-92 | The upgrade succeeds exactly without the reserved key and with unique pairs, and the downgrade then restores every row. |
| StatusMigration.UpgradeMeans | backend/alembic/versions/20260828_0006_pdf_upload_job_lifecycle.py:58-92 | Each status goes to its new name, CANCELLED to an error with the marker, and everything else stays. |
| StatusMigration.RunKeepsMarker | backend/app/services/analysis_job.py:533-540 | Over any run the marker sits on ERROR rows only and goes exactly with a retry. |
| StatusMigration.CancelledSurvivesUnlessRetried | backend/alembic/versions/20260828_0006_pdf_upload_job_lifecycle.py:149-165 | After any lifecycle run a job comes back as CANCELLED exactly when it was cancelled before and never retried. |
| StatusMigration.NewJobsAreNeverCancelled | backend/alembic/versions/20260828_0006_pdf_upload_job_lifecycle.py:149-165 | Jobs created after the upgrade never come back as CANCELLED. |
| LoginLockout.UserRow.Authenticate | backend/app/services/auth.py:179-215 | One call: a locked account sees a dummy check, failures count in a fixed window, the last allowed one locks, a success clears. |
| LoginLockout.TryMeans | backend/app/services/auth.py:164-215 | While a lock lasts nothing is compared or changed; else the right password is accepted and clears everything, and a wrong one counts within its window and locks at the limit. |
| LoginLockout.LocksExactlyAtTheLimit | backend/app/services/auth.py:189-203 | Of wrong passwords within one window all up to the limit are compared, and just the one that reaches it locks. |
| LoginLockout.GuessSpendsBudget | backend/app/services/auth.py:179-204 | Each failed check spends what the interval has left. |
| LoginLockout.LockoutBound | backend/app/services/auth.py:179-204 | With the lock at least as long as the window, an interval of one window without a success holds at most max(N, 2N - 2) failed checks of the real hash. |
| LoginLockout.BoundIsReached | backend/app/services/auth.py:179-204 | That bound is reached for every setting. |
| LoginLockout.BoundHoldsExactlyForLongLocks | backend/app/core/config.py:54-56 | The bound holds exactly when the lock is at least as long as the window, which the settings do not enforce. |
| JoinRateLimit.JoinLimiter.Enforce | backend/app/services/course_join.py:305-376 | One request touches both rows, answers from both, and deletes expired rows of others. |
| JoinRateLimit.AnswerExactly | backend/app/services/course_join.py:325-376 | A request is refused exactly when the account or the address has used up the limit in an open window, and told the least whole number of seconds, one at least, that outlasts the open windows of both. |
| JoinRateLimit.RowsExactly | backend/app/services/course_join.py:325-366 | Both rows count the request, in their open window or from one, and of all others just those the cleanup names are gone. |
| JoinRateLimit.CleanupIsInvisible | backend/app/services/course_join.py:350-366 | As long as no request reads a time inside the window of a deleted row of its own subjects, all answers are those of a limiter that never deletes. |
| JoinRateLimit.GuardKeepsAgreementExactly | backend/app/services/course_join.py:325-366 | A request keeps the remaining rows what they would be without cleanup exactly when it meets that condition, and then it gets the same answer. |
| JoinRateLimit.GuardedExactlyWhileTablesAgree | backend/app/services/course_join.py:325-366 | Over a run, every request meets the condition exactly when the rows agree after every one of them. |
| JoinRateLimit.UnguardedCleanupShows | backend/app/services/course_join.py:325-366 | Where the condition first fails, for every setting, requests of the same subject at the same reading get answers that show the cleanup. |
| JoinRateLimit.OrderIsGuarded | backend/app/services/course_join.py:312-366 | Requests processed in the order of their clock readings all meet the condition. |
| JoinRateLimit.OutOfOrderCleanupIsVisible | backend/app/services/course_join.py:312-366 | The clock is read before the lock; for every setting there are three kinds of requests, from an empty table, whose answers cleanup changes. |
| JoinRateLimit.RequestSpendsBudget | backend/app/services/course_join.py:325-348 | Each admission spends what the interval has left for its subject. |
| JoinRateLimit.AdmissionBound | backend/app/services/course_join.py:305-376 | A subject is admitted at most 2 max - 1 times in any half-open interval of one window. |
| JoinRateLimit.AdmissionBoundIsReached | backend/app/services/course_join.py:305-376 | That bound is reached for every setting. |
| JoinRateLimit.RetryAfterIsHonestExactly | backend/app/services/course_join.py:341-376 | In every table the limiter can come to, waiting out Retry-After with no other request guarantees admission exactly when the limit is at least two or the window one second. |
| LlmRouting.Operations.UpdateProvider | backend/app/services/llm_providers.py:284-403 | The checks in their order; an update is done exactly when the declared conditions hold, the row is then the old one with what was asked for, no other row changes, and a refusal changes nothing. |
| LlmRouting.UpdateAllowedExactly | backend/app/services/llm_providers.py:284-352 | The ordered checks let an update through exactly when all conditions on variable, key, keyring, provider kind and revision hold. |
| LlmRouting.UpdateApplies | backend/app/services/llm_providers.py:333-386 | The key, its revision and the catalogue verdict stay exactly when source, variable and key do; the route goes off exactly when it runs on this provider and that lost its credential, its approval or its being enabled. |
| LlmRouting.Operations.DeleteCredential | backend/app/services/llm_providers.py:406-441 | Removing a credential clears the key material and the catalogue verdict, and deactivates the route. |
| LlmRouting.Operations.FinishTest | backend/app/services/llm_providers.py:560-598 | A catalogue result is recorded only against the row it started from, and a rotated environment key starts a new credential revision. |
| LlmRouting.Operations.SaveRoute | backend/app/services/llm_providers.py:695-753 | Saving a route makes it a draft on the chosen provider's current credential. |
| LlmRouting.Operations.SetRouteActive | backend/app/services/llm_providers.py:756-801 | The checks in their order; switching is done exactly when the provider is still the route's, the revision current and, to switch on, the fees acknowledged and every requirement met; settings and provider stay, and a refusal changes nothing. |
| LlmRouting.SwitchAllowedExactly | backend/app/services/llm_providers.py:765-788 | The ordered checks let a switch through exactly when those conditions hold together. |
| LlmRouting.ReadyMeans | backend/app/services/llm_providers.py:625-660 | There are no blockers exactly when every requirement holds. |
| LlmRouting.StepKeepsSound | backend/app/services/llm_providers.py:268-281 | Every step keeps active routes on an enabled, approved provider with its current credential, and verified catalogues on the current credential. |
| LlmRouting.RunKeepsSound | backend/app/services/llm_providers.py:268-281 | So does every interleaving of steps and finished tests. |
| LlmRouting.RunKeepsKeysSound | backend/app/services/llm_providers.py:333-441 | No interleaving leaves a provider whose source and key material disagree: a stored key is there, a variable is a known one, and nothing is left of either otherwise. |
| LlmRouting.SameRevisionSameRow | backend/app/services/llm_providers.py:249-253 | A row whose revision is what it was is the row it was, whatever ran in between. |
| LlmRouting.RecordedTestSawTheCurrentRow | backend/app/services/llm_providers.py:560-574 | A recorded catalogue result was obtained for the row as it still is. |
| LlmRouting.AcceptedWriteSawTheCurrentRow | backend/app/services/llm_providers.py:249-253 | An accepted write was decided on the row it overwrites. |
| LlmRouting.StepKeepsKey | backend/app/services/llm_providers.py:354-386 | While the credential revision stands, the key material is the same. |
| LlmRouting.ActiveRouteWasReady | backend/app/services/llm_providers.py:784-801 | Every active route was switched on, fees acknowledged, when it was ready, and still has the settings, provider and key of that moment. |
| LlmRouting.TestSwitchesOffExactlyOnRotation | backend/app/services/llm_providers.py:580-598 | A test switches an active route off exactly when it finds a rotated environment key; a failed one leaves it active and not ready. |
| LlmRouting.RouteStaysReadyExactly | backend/app/services/llm_providers.py:580-660 | A test leaves an active and ready route both exactly when it succeeds, finds no rotated key and, where a key is needed, used the key in use now. |
| Rubrics.Session.AddCriterion | backend/app/services/rubric.py:273-330 | An accepted addition stores the criterion and the loaded total plus its weight if enabled. |
| Rubrics.Session.UpdateCriterion | backend/app/services/rubric.py:333-426 | Adjusting the total field by field comes to the loaded total less the old share plus the new. |
| Rubrics.Session.DeleteCriterion | backend/app/services/rubric.py:429-457 | An accepted deletion removes the criterion and its share. |
| Rubrics.FreshEditStoresWhatWasAsked | backend/app/services/rubric.py:333-427 | An accepted edit on current rows stores every value asked for, keeps the others, and moves the total by the difference in weight. |
| Rubrics.FreshEditAcceptedExactly | backend/app/services/rubric.py:333-427 | It is accepted exactly when something is asked for, no submission froze the rubric, and weight and total stay in range. |
| Rubrics.PutOne | backend/app/services/rubric.py:291-313 | Storing one criterion changes the sum of enabled weights by the difference of its shares. |
| Rubrics.AccountKeptExactlyOnAgreement | backend/app/services/rubric.py:291-313 | An accepted request keeps the total equal to the sum exactly when the rows it loaded agree with the stored ones on the outcome. |
| Rubrics.FreshRequestKeepsAccounts | backend/app/services/rubric.py:365-387 | A request that loaded the stored rows keeps the total of every rubric equal to its sum. |
| Rubrics.SerialRequestsKeepAccounts | backend/app/services/rubric.py:437-457 | So does any sequence of requests that each load after the one before. |
| Rubrics.AddKeepsAccountExactlyWhenTotalIsCurrent | backend/app/services/rubric.py:273-313 | An addition that weighs something keeps the account exactly when the total it loaded is the stored one. |
| Rubrics.ConcurrentAddsLoseOne | backend/app/api/routers/rubrics.py:64-77 | Two additions that loaded the same rubric are both stored, and the total has only the second. |
| RubricFreeze.ParentMutable | backend/alembic/versions/20260924_0018_direct_rubric_editing.py:55-88 | The trigger loop passes exactly when no assignment of the rubric has had a submission. |
| RubricFreeze.StepKeepsFrozenCriteria | backend/alembic/versions/20260825_0002_create_domain_schema.py:1210-1251 | No statement, request or direct change, alters a criterion of a frozen rubric. |
| RubricFreeze.StepKeepsFrozenRubric | backend/alembic/versions/20260924_0018_direct_rubric_editing.py:18-50 | No statement, request or direct change, alters or removes the row of a frozen rubric, its total included. |
| RubricFreeze.MarkedAssignmentGoesExactlyUnsubmitted | backend/alembic/versions/20260825_0002_create_domain_schema.py:1255-1277 | A marked assignment keeps its rubric and its marker, and goes exactly by a deletion while nothing is submitted to it. |
| RubricFreeze.ThawsExactlyWithItsLastAssignment | backend/alembic/versions/20260825_0002_create_domain_schema.py:677-682 | A frozen rubric thaws exactly when the only marked assignment using it is deleted, which its submissions forbid. |
| RubricFreeze.RunKeepsSubmissionsMark | backend/alembic/versions/20260825_0002_create_domain_schema.py:1050-1065 | After any run every submission is to an assignment that is there and carries the marker. |
| RubricFreeze.FirstSubmissionFreezes | backend/alembic/versions/20260924_0018_direct_rubric_editing.py:18-88 | After the first submission, whatever runs, the assignment's rubric, its marker, all criteria of that rubric and the rubric's row stay as they are, unless the assignment is deleted once nothing is submitted to it. |
| RubricFreeze.StaysExactlyUnlessRemoved | backend/alembic/versions/20260825_0002_create_domain_schema.py:655-690 | A marked assignment is there throughout a run exactly when no step deletes it at a moment when nothing is submitted to it. |
| RubricFreeze.StandingSubmissionKeepsFreeze | backend/alembic/versions/20260825_0002_create_domain_schema.py:655-690 | One submission that stays keeps its assignment from being deleted, and everything frozen with it as it is. |
| RubricFreeze.MarkerComesFromSubmission | backend/alembic/versions/20260825_0002_create_domain_schema.py:1050-1133 | Only a submission sets the marker, once, and at its own time. |
| NestedJson.RepresentsOne | backend/app/models/mixins.py:44-77 | A value spells out at most one JSON text. |
| NestedJson.KidComesRound | backend/app/models/mixins.py:44-55 | If an item comes back to a container on the path, so does the container: it has no finite spelling of its own. |
| NestedJson.Reparent | backend/app/models/mixins.py:44-77 | The copy spells what the value spells, its containers are new, all under the root given and pointing only to younger ones; it fails only when the value comes round to a container on its path, and it terminates on every input. |
| NestedTracking.World.Adopt | backend/app/models/mixins.py:109-112 | A value is taken in exactly when it has a finite spelling, and its copy reports to the container's root, or to the container itself when that root is empty. |
| NestedTracking.World.SetKey | backend/app/models/mixins.py:109-112 | Setting a key stores a copy under it, moves nothing else and reports once; a cyclic value changes and reports nothing. |
| NestedTracking.World.SetDefault | backend/app/models/mixins.py:118-121 | The value under the key is returned; a copy is stored and reported only if the key was missing. |
| NestedTracking.World.Update | backend/app/models/mixins.py:123-128 | Pairs go in up to the first cyclic value; the root is told exactly when all went in, and the ones before a failure stay. |
| NestedTracking.World.PopKey | backend/app/models/mixins.py:134-137 | Popping removes the key and reports; with a default it reports even if nothing was there. |
| NestedTracking.World.SetAt | backend/app/models/mixins.py:181-188 | A list item is replaced by a copy at the index named, also from the end, and reported once. |
| NestedTracking.World.SetSlice | backend/app/models/mixins.py:181-188 | A slice assignment happens whole or not at all. |
| NestedTracking.World.Append | backend/app/models/mixins.py:194-197 | Appending adds one copy at the end and reports once. |
| NestedTracking.World.Extend | backend/app/models/mixins.py:199-204 | Values go in up to the first cyclic one; the root is told exactly when all went in. |
| NestedTracking.World.Insert | backend/app/models/mixins.py:206-209 | Insertion clamps its index, adds one copy there and reports once. |
| NestedTracking.World.Repeat | backend/app/models/mixins.py:236-239 | Repetition shares containers and keeps the structure sound. |
| NestedTracking.RepeatedIsCopies | backend/app/models/mixins.py:236-239 | Each of the copies is the items whole. |
| NestedTracking.World.Coerce | backend/app/models/mixins.py:83-87 | Loading a plain value makes a top container that spells it out and is its own root. |
| NestedTracking.ReachableReportsToTop | backend/app/models/mixins.py:102-107 | In every state the operations can reach, each container reachable from a top container reports to it. |
| NestedTracking.DescentIsYounger | backend/app/models/mixins.py:44-77 | References lead only to younger containers. |
| NestedTracking.NoCycles | backend/app/models/mixins.py:44-77 | No container contains itself at any depth. |
| NestedRuns.PoppedChildBecomesRoot | backend/app/models/mixins.py:109-137 | A run: what is put into a dictionary popped out of a column left empty reports to that dictionary and not to the column. |
| NestedRuns.StuckUpdateIsUnreported | backend/app/models/mixins.py:123-128 | A run: an update whose second value holds itself leaves the first key in and is not reported. |

## Left out

- PDF reading, table finding and merging, review flags, links, page text, rounding of page sizes and the node budget: foreign calls or plain counting beside the structures modelled.
- The wide-gap column split and the final check that both sides read as justified prose: parameters of `LineGrouping.GroupLines` and `ProseGutter.FindGutter`; both only choose where a page is split.
- The heading test, the textual condition under which a word is a superscript, and the median body size: parameters; only their results enter the structures.
- ProseGutter.FindGutter: whether both sides read as justified prose at the split found is a parameter.
- ParagraphText.LineFromWords: marker digits are the ten ASCII digits; other decimal digits that the pattern admits are not modelled.
- Extracting references and mentions from paragraphs, and scoring provider records: text recognition; linking starts from the parsed lists.
- Fanning out resolutions over distinct identities and bounding the issue rows of a report: loops with a seen-set, settled by reading one body.
- CrossrefPacing.Client.Request: lock waits and late wake-ups are bounded by a slack that is part of the stated end; a Retry-After given as a date is a number of seconds here.
- The OpenAlex and arXiv pacers: the same slot reserver with other constants.
- Marking duplicate references, the truncation of long lists and the ids given to references and mentions: a truncation enters linking as one flag, ids as distinct numbers.
- Which queued job a worker takes next: any may be taken; the order by queue time is not modelled.
- Document status fields, notifications and audit rows written beside a job, provider or rubric change: they guard nothing.
- AnalysisTheorems.NoLostWakeUp: that a published message is still with the broker holds only outside the deliveries recorded as dropped; `AnalysisStranding.RunStrandsExactly` says exactly when it fails.
- The in-memory limiter per client address and the join-code steps: single guards over one counter or one row.
- Waiting and deadlock between row locks and advisory locks: every step is a committed transaction.
- LlmRouting.Operations.UpdateProvider: the actor and time of a policy approval are not kept; they mirror the approval flag.
- Rubrics.Session.UpdateCriterion: all fields but weight and switch are one content field.
- Who may submit, one submission a student, and the documents that forbid deleting a submission: a submission here is one the course admits, and may be deleted or moved.
- CitationLinks.AsDict: the counts of identity states, fragments, duplicates and the two rates are not in it; each is one count or one quotient of the fields that are there.
- NestedTracking.World.SetSlice: slices of step one; an extended slice takes as many copies as it names places, taken in the same way.
- NestedTracking.World.Reorder: sorting is a given order of the items; a comparison that fails half way is not modelled.
- NestedTracking.World.Extend: what copies spell is related to the state before the call only when the values do not contain the list itself; the structure stays sound in any case.
- NestedTracking.World.Update: the same holds for values that contain the dictionary itself.
- Pickling of tracked containers and their direct construction: the same copying under a new root as `NestedTracking.World.Coerce`.
