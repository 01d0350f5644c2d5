# FinanceRAG: a verified model

FinanceRAG answers tax questions from a firm's documents. This project models the parts of it whose
correctness is hard to see from one function at a time, and proves what they promise.

- **From page to index** (`Text`, `PdfLayout`, `TableRoundTrip`, `TokenWindows`, `Hierarchical`,
  `TableAtomicity`, `ProseConservation`). Parsed blocks are printed as markdown, cut into sections, split
  into table and prose segments, and packed into overlapping token windows. Tables must arrive whole, and
  prose must arrive without loss. Both are proved from the blocks to the texts of the chunks: tables up to
  the one family of inputs that breaks them (a paragraph of bare hash marks right above), which is
  characterised exactly, and prose up to white space and the punctuation at which it may be cut.
- **The multi-agent graph** (`Orchestrator`, `OrchestratorSafety`, `OrchestratorHistory`, `Guardrails`). Nodes overwrite a
  shared record that a checkpointer carries from turn to turn, and a critic may send a draft back.
  Every outside verdict (planner, retriever, gate, analyst, critic, patterns) is an arbitrary function
  of what the node passes along and of how many nodes ran before it, so the theorems hold for all
  behaviours of the models.
- **Fusion** (`Ordering`, `Fusion`, `PgVectorStore`, `HybridRetriever`). Reciprocal Rank Fusion is
  written three times: over dictionaries, as a full outer join, and as a fold over entries that change
  in place. The project proves where they agree and which inequalities the constants must satisfy.
- **Metrics** (`RetrievalMetrics`, `LabeledEvaluation`, `CutAveragePrecision`). nDCG against an ideal
  pool, with the discount any positive strictly increasing function of the rank, and the effect of
  promoting a relevant result. Average precision with a cutoff is the one metric that a promotion can
  lower; the positions at which it can are given exactly.
- **Stateful services** (`RateLimit`, `Jobs`, `SemanticCache`). Each class is proved against a history
  of the calls it has seen; the job table is also proved under every interleaving of dispatchers,
  workers and the reaper.
- **API keys** (`Auth`). The parser of the key table, and who a request is authenticated as.

Arithmetic is exact: reals stand for floats. Tokenizer, digest, cosine, lowering of text and redaction
are function parameters, with an assumption stated wherever one is needed. `Option` and `Result` stand
for `None` and for raised exceptions. A method that follows a loop of the program is proved against a
function, and the lemmas are about that function.

`dafny verify dfyconfig.toml` checks the whole project.

## Where the code and its documentation differ

The code is followed in each case.

- A table is not always kept whole, as `hierarchical.py` says it is: after a paragraph of one to six
  bare `#` its header line becomes a section title (`TableAtomicity.TablesReachTheIndexWhole`,
  `TableAtomicity.HeaderLost`).
- A turn is not independent of the turn before it: the reasons of the last rejected draft stay in the
  checkpoint and reach the next turn's analyst, joined to one text, and every later turn of a thread
  answers under the trace id of the first (`OrchestratorSafety.TurnsDependExactly`,
  `OrchestratorSafety.FeedbackReads`, `Orchestrator.TraceOfTurn`).
- A job that has ended can change again, also after it was reaped, and a worker that has marked it
  succeeded can still mark it failed (`Jobs.EndIsFinal`, `Jobs.RowIsFinal`, `Jobs.ReapedJobCanSucceed`).
- The SQL limit cuts rows before the graph fold, so an id that was cut and comes back as a neighbour
  is scored without its SQL part (`HybridRetriever.FoldRefinesFusion`, `HybridRetriever.CutIdReturns`).
- Two service lines can share a cache entry when one of them is the other followed by a bar and by text
  that could start a normalised query (`SemanticCache.KeysDistinguishExactly`).

## Model

| member | source | states |
|---|---|---|
| PdfLayout.CleanCorrect | src/finance_rag/parsing/pdf_layout.py:57-58 | cleaning removes white space only, leaves single inner spaces, and leaves a text alone exactly if it is clean already |
| PdfLayout.BlocksToMarkdown | src/finance_rag/parsing/pdf_layout.py:214-228 | the loop prints every block that is not blank, headings with at most six marks, two line feeds apart |
| PdfLayout.UsableExactly | src/finance_rag/parsing/pdf_layout.py:89-102 | a table is used exactly if it has two rows, one of them with two cells, and ink in at least three tenths of its cells |
| TableRoundTrip.TableRoundTrip | src/finance_rag/parsing/pdf_layout.py:105-117 | a reader that splits at unescaped pipes recovers the cleaned, padded rows of every printed table, whatever backslashes and pipes its cells hold, exactly if the table has a column |
| TableRoundTrip.CellsReadBack | src/finance_rag/parsing/pdf_layout.py:105-117 | cell by cell, what the reader finds is the cleaned text of the cell in its place, and empty cells up to the width of the longest row |
| TableRoundTrip.DelimiterRow | src/finance_rag/parsing/pdf_layout.py:115 | the second line reads as one cell of dashes for each column, which makes the first a header |
| TableRoundTrip.UnescapeEscape | src/finance_rag/parsing/pdf_layout.py:105-108 | the escape of a cell can be undone, and never starts with a bare pipe |
| TableRoundTrip.TableLineFresh | src/finance_rag/parsing/pdf_layout.py:111-117 | no printed table line contains a line break |
| TokenWindows.SplitOnce | src/finance_rag/chunking/hierarchical.py:89-96 | one pass of the loop over pieces keeps those that fit and cuts the others at the separator, dropping blank parts |
| TokenWindows.SplitPieces | src/finance_rag/chunking/hierarchical.py:87-96 | all six passes in their order yield the pieces that the lemmas below are about |
| TokenWindows.CascadeSettles | src/finance_rag/chunking/hierarchical.py:87-96 | after any list of passes every piece fits or is free of every separator used, for any tokenizer |
| TokenWindows.CascadeKeepsText | src/finance_rag/chunking/hierarchical.py:87-96 | no pass loses a character other than white space and the punctuation of the separators |
| TokenWindows.PiecesCorrect | src/finance_rag/chunking/hierarchical.py:87-96 | both guarantees for the six separators of the program and every text, tokenizer and size |
| TokenWindows.PassesInOrder | src/finance_rag/chunking/hierarchical.py:87-96 | paragraphs are parted first, then lines, sentences, clauses, phrases and words |
| TokenWindows.FittingPieceStays | src/finance_rag/chunking/hierarchical.py:91-92 | a piece that fits is cut no further, whatever stands beside it |
| TokenWindows.OversizedPieceCut | src/finance_rag/chunking/hierarchical.py:93-95 | a piece that does not fit is cut at every occurrence of the next separator, into parts that join to it |
| TokenWindows.CascadeLeavesNoBlank | src/finance_rag/chunking/hierarchical.py:94 | no pass leaves a blank piece |
| TokenWindows.Pack | src/finance_rag/chunking/hierarchical.py:98-112 | the packing loop yields the windows that the lemmas below are about |
| TokenWindows.PackingLosesNothing | src/finance_rag/chunking/hierarchical.py:98-112 | dropping from each window as many tokens as the overlap has, or all of the window before if it is shorter, gives back exactly the tokens of the pieces |
| TokenWindows.WindowsOverlap | src/finance_rag/chunking/hierarchical.py:105-108 | each window starts with the last tokens of the one before, as many as the overlap has, or all of it if it is shorter, and none for an overlap that is not positive |
| TokenWindows.PackingIsGreedy | src/finance_rag/chunking/hierarchical.py:98-112 | the pieces fall into consecutive groups, one to a window; each piece that joined others fitted behind them, and each that opens a window would not have fitted into the one before |
| TokenWindows.WindowsBounded | src/finance_rag/chunking/hierarchical.py:98-112 | no window is empty, and none exceeds the larger of the size and the overlap plus the longest piece |
| TokenWindows.SplittingKeepsText | src/finance_rag/chunking/hierarchical.py:98-112 | the token windows of an oversized text decode, without their repeats, to all its characters, white space and separator punctuation aside |
| TokenWindows.EmittedFromWindow | src/finance_rag/chunking/hierarchical.py:104-112 | each window emits the one text that it decodes to, stripped, unless that is blank |
| TokenWindows.RecursiveTokenSplit | src/finance_rag/chunking/hierarchical.py:81-112 | a text that fits is the one string emitted unless blank; any other is cut, packed, decoded and stripped into the strings of the next row |
| ProseConservation.SplitKeepsText | src/finance_rag/chunking/hierarchical.py:81-112 | the strings emitted for a text hold exactly its characters, white space and separator punctuation aside, once each drops what the tokens carried over into it decode to; with a byte-pair tokenizer that is what the one before ends with, but for a cut character, and with no overlap it is nothing |
| ProseConservation.SegmentsKeepText | src/finance_rag/chunking/hierarchical.py:52-78 | the table and prose segments of a text hold all its characters, in order |
| ProseConservation.SectionKeepsText | src/finance_rag/chunking/hierarchical.py:147-180 | so do the child chunks of a section for its body, segment after segment, without what they repeat of the window before |
| ProseConservation.SectionsKeepText | src/finance_rag/chunking/hierarchical.py:31-46 | section bodies and headers hold all characters of a text, in order; a header is the hash marks and the title of its section, or nothing |
| ProseConservation.DocumentKeepsText | src/finance_rag/chunking/hierarchical.py:115-182 | headers apart, the characters of a document are exactly those of the texts of its child chunks, in order, once each drops what it repeats of the one before |
| ProseConservation.ChunksKeepText | src/finance_rag/chunking/hierarchical.py:105-108 | without overlap, headers and chunk texts hold each character of a document exactly once |
| ProseConservation.PageKeepsText | src/finance_rag/parsing/pdf_layout.py:214-228 | from the page to the index, the characters of the printed blocks are those of headers and chunks |
| Hierarchical.SplitByStructure | src/finance_rag/chunking/hierarchical.py:31-46 | the loop over parts yields the titled and untitled sections, the whole text if there is none, a part itself as body if nothing follows its title |
| Hierarchical.CutsExactly | src/finance_rag/chunking/hierarchical.py:14-31 | a text is cut at exactly those line feeds that a heading mark follows, and nowhere else |
| Hierarchical.SplitOffTables | src/finance_rag/chunking/hierarchical.py:52-78 | the loop with its buffer yields the maximal runs of table lines and of other lines, stripped, without blank ones |
| Hierarchical.TableLineExactly | src/finance_rag/chunking/hierarchical.py:52-78 | a line counts as one of a table exactly if it stands between two bars, white space around them aside |
| Hierarchical.RunsExactly | src/finance_rag/chunking/hierarchical.py:52-78 | the runs are all the lines in order; each is of one kind, and neighbours are not of the same |
| Hierarchical.ChunkDocument | src/finance_rag/chunking/hierarchical.py:115-182 | the nested loops yield, section by section, the parent chunk and the numbered child chunks |
| Hierarchical.ChunksFiled | src/finance_rag/chunking/hierarchical.py:121-180 | every chunk names the section it is from and its own number of tokens; a parent shows at most 4000 characters of its section, and a child points to the parent chunk before it, with only its siblings in between |
| Hierarchical.ChunksSelfDescribed | src/finance_rag/chunking/hierarchical.py:26-28 | every chunk of a document is numbered by its position, and its id is the digest of that number and of the first 120 characters of its own text, for parents as for children |
| Hierarchical.ChunkIdsDistinct | src/finance_rag/chunking/hierarchical.py:26-28 | with a collision-free digest no two chunks of a document share an id, even if their texts are equal |
| Hierarchical.ChunkTables | src/finance_rag/chunking/hierarchical.py:147-180 | the chunks marked as tables are exactly the table segments of the section bodies, whole and in order |
| TableAtomicity.DocSections | src/finance_rag/chunking/hierarchical.py:31-46 | the sections of a printed document are those of its blocks, grouped before each block that opens a heading |
| TableAtomicity.HeadingsTitleSections | src/finance_rag/parsing/pdf_layout.py:222-223 | every heading of a page titles a section of its own, whose body is the blocks below it; no section holds a second heading, and no block is lost or moved |
| TableAtomicity.DocTables | src/finance_rag/chunking/hierarchical.py:52-78 | the table segments of a printed document are the texts of its blocks that look like tables, one segment each |
| TableAtomicity.SwallowedHeader | src/finance_rag/chunking/hierarchical.py:14 | a paragraph of bare hash marks right above a table takes the table's header line as its section title |
| TableAtomicity.TableChunksOf | src/finance_rag/chunking/hierarchical.py:115-182 | for every list of parsed blocks, without exception, which table texts reach the index |
| TableAtomicity.TablesReachTheIndexWhole | src/finance_rag/chunking/hierarchical.py:31-182 | every table reaches the index whole, once and in order, exactly if no table directly follows a paragraph of bare hash marks |
| TableAtomicity.HeaderLost | src/finance_rag/chunking/hierarchical.py:14 | a concrete document, a lone hash mark above a table of four cells, whose table does not reach the index whole |
| TableAtomicity.IndexedTablesReadBack | src/finance_rag/parsing/pdf_layout.py:111-228 | reading the table chunks of an indexed document recovers the rows that the parser found, each cell in its place with its cleaned text |
| Guardrails.MentionsComplete | src/finance_rag/guardrails/pipeline.py:29 | the scanner finds exactly the bracketed ids of four or more characters, in text order: none missed, none invented |
| Guardrails.ScanCitations | src/finance_rag/guardrails/pipeline.py:109-113 | the loop collects the cited ids that the next row is about |
| Guardrails.CitedIdsCorrect | src/finance_rag/guardrails/pipeline.py:109-113 | the cited ids are exactly the tokens that are neither digits nor redaction marks, each once, in order of first mention |
| Guardrails.NonCitationsExactly | src/finance_rag/guardrails/pipeline.py:30-34 | what is no citation: digits alone, or the mark of a redaction and capital letters |
| Guardrails.IdCharsExactly | src/finance_rag/guardrails/pipeline.py:29 | the characters of an id are letters, digits, the underscore and the hyphen |
| Guardrails.CheckOutput | src/finance_rag/guardrails/pipeline.py:74-157 | the method follows the branches of the program and yields the verdict that the next rows are about |
| Guardrails.VerdictText | src/finance_rag/guardrails/pipeline.py:84-152 | an answer that is let through is redacted, after the disclaimer was added behind its text where it is no refusal and carries none; a blocked one has no text |
| Guardrails.VerdictReasons | src/finance_rag/guardrails/pipeline.py:86-145 | each reason is given exactly for its cause, once and in a fixed order, and no other |
| Guardrails.VerdictRisk | src/finance_rag/guardrails/pipeline.py:125-157 | the risk score of each outcome, by causes read off the answer |
| Guardrails.BlockedExactly | src/finance_rag/guardrails/pipeline.py:118-144 | an answer is blocked exactly if it orders a filing today or, where citations are required, everything it cites is fabricated |
| Guardrails.VerdictCitations | src/finance_rag/guardrails/pipeline.py:108-157 | in every verdict but the block of a directive, whose lists are empty, an id counts as cited exactly if it stands bracketed in the text and is no digit string or redaction mark; grounded if known, hallucinated if not |
| Orchestrator.RunMeasure | src/finance_rag/agent/orchestrator.py:174-243 | every step of the graph lowers the retries left or comes nearer to the end, so every run ends |
| Orchestrator.RunAgrees | src/finance_rag/agent/orchestrator.py:224-442 | from any node, two states that agree on what the rest of the run reads visit the same nodes and end in the same response, metrics included, but for the trace id |
| Orchestrator.TurnsIndependent | src/finance_rag/agent/orchestrator.py:557-583 | two turns with equal requests, verdicts and left-over feedback text visit the same nodes and return the same response but for its trace id, whatever else their checkpoints hold |
| Orchestrator.TraceOfTurn | src/finance_rag/agent/orchestrator.py:253 | a response carries the trace id that the checkpoint of its thread holds, and a new one only if it holds none |
| OrchestratorSafety.TurnsDependExactly | src/finance_rag/agent/orchestrator.py:247-258 | two checkpoints give equal turns for all requests, verdicts and settings exactly if they hold the same feedback text for the analyst's prompt and the same trace id, an empty one counting as none |
| OrchestratorSafety.FeedbackReads | src/finance_rag/agent/orchestrator.py:337-343 | that text is the same exactly for reasons that read alike once joined, or for none on both sides; so one reason "a; b" passes for the two reasons "a" and "b" |
| OrchestratorSafety.RunEnds | src/finance_rag/agent/orchestrator.py:174-243 | from any node every run ends with one visit to compliance, in a state that keeps the safety invariant and the bounds |
| OrchestratorSafety.SafeAnswer | src/finance_rag/agent/orchestrator.py:310-397 | an answer that is not refused is the last draft, with the disclaimer behind its text where it carried none, redacted; gate, analyst and an approving critic all worked on exactly the passages reported as retrieved |
| OrchestratorSafety.PromptReads | src/finance_rag/agent/orchestrator.py:334-350 | word by word, what the analyst is told: question, caption, passages, and the reasons of the last rejection |
| OrchestratorSafety.RefusedExactly | src/finance_rag/agent/orchestrator.py:376-442 | a response is refused exactly for one of four causes: blocked question, unanswerable, exhausted critic budget, blocked output |
| OrchestratorSafety.RunBounds | src/finance_rag/agent/orchestrator.py:232-243 | in every run one visit to compliance, at most one draft more than the retries and at most 2 + 5 visits per round; and where retrieval and search return no more than asked for, no more passages than the rounds can add up to although web results are kept on retries |
| OrchestratorSafety.CitationsSound | src/finance_rag/agent/orchestrator.py:399-442 | in every run, of the state that compliance reviews: the response cites retrieved passages only, the grounded ids in order of first mention if there are any, else all retrieved; and its metrics report the guardrail's hallucinated ids and its own refusal |
| OrchestratorSafety.VerdictAgrees | src/finance_rag/metrics/retrieval_metrics.py:193-203 | over what compliance holds, the guardrail's hallucinated ids are those of the citation metrics and its grounded ids were all retrieved |
| OrchestratorHistory.PassagesFound | src/finance_rag/agent/orchestrator.py:286-308 | every passage of a response was retrieved for the org and the date of the caller, or found on the web, at a visit to the node that does so and by the query in force there: the last one that a critic suggested, else that of the plan with the caption, else the question |
| OrchestratorHistory.PassagesKept | src/finance_rag/agent/orchestrator.py:286-308 | and a run still holds all that it found, at each visit to research or web search, except for what the corpus gave before the last research: a rejected draft does not cost its web sources |
| OrchestratorHistory.PassagesInOrder | src/finance_rag/agent/orchestrator.py:286-308 | the passages of a response in their order: research puts its own in front of the web passages held so far, web search adds behind |
| OrchestratorHistory.RunFollowsGraph | src/finance_rag/agent/orchestrator.py:174-243 | every visit follows an edge of the graph, and at each fork the one that the verdict given there demands |
| OrchestratorHistory.DraftTold | src/finance_rag/agent/orchestrator.py:337-343 | a draft is told the reasons of the last rejection of its own turn, and what the checkpoint holds only if there was none |
| OrchestratorHistory.BudgetCounted | src/finance_rag/agent/orchestrator.py:368-397 | the critic is asked once for each attempt counted, and a run that ends rejected has asked it exactly once more than it may retry |
| OrchestratorHistory.RefusalSays | src/finance_rag/agent/orchestrator.py:260-440 | the text and the confidence of every refusal, by the node that decided it |
| OrchestratorHistory.ReasonsReported | src/finance_rag/agent/orchestrator.py:433-441 | the guardrail reasons of a response are those of the question, then those of the answer |
| OrchestratorHistory.CitationsShowPassages | src/finance_rag/agent/orchestrator.py:456-468 | every citation of a response shows id, document, title, source, score and an excerpt of a passage that was retrieved |
| OrchestratorHistory.MetricsReported | src/finance_rag/agent/orchestrator.py:399-425 | the metrics of a response report number, extremes and mean of the cosines and best rerank score of exactly the passages that it reports, the share of the cited ids that were retrieved, and its own refusal |
| Ordering.TakeTop | src/finance_rag/retrieval/hybrid.py:131 | sort and cut return the best ids by score, however ties fall |
| Fusion.ReciprocalRankFusion | src/finance_rag/retrieval/fusion.py:49-73 | every ranked document once, with the sum of its contributions over all rankers, by descending score and then by id; it fails exactly if a list reaches the rank at which a negative constant divides by zero |
| Fusion.ListScoreAt | src/finance_rag/retrieval/fusion.py:67-72 | in a list without repeats a document scores the contribution of its one rank |
| PgVectorStore.HybridSearchRrf | src/finance_rag/store/pgvector_store.py:316-362 | the page holds the joined rows of the best ids by fused score, each with both parts and ranks |
| PgVectorStore.RowFields | src/finance_rag/store/pgvector_store.py:338-358 | a row holds for each ranking the place of its id, counted from 1, and the reciprocal of the constant plus that place; none and 0 where the ranking lacks it |
| PgVectorStore.GraphExpand | src/finance_rag/store/pgvector_store.py:409-436 | the expansion returns the children that share most entities with the seeds |
| PgVectorStore.ExpansionShape | src/finance_rag/store/pgvector_store.py:425-430 | no neighbour is a seed, none repeats, and each shares an entity with a seed |
| PgVectorStore.ExpansionTakesMost | src/finance_rag/store/pgvector_store.py:419-436 | in order of how many entities they share with the seeds; what is left out shares no more than what is taken, and nothing is left out below the limit |
| PgVectorStore.AgreementOutweighsFirst | src/finance_rag/config.py:165-168 | being found by both rankers outweighs the first place in one, at all ranks up to c, exactly if c <= k + 1 |
| PgVectorStore.FoundByBothOutranks | src/finance_rag/store/pgvector_store.py:342-361 | so every document found by both SQL rankers strictly outranks every document found by only one |
| PgVectorStore.NeighbourStaysBelow | src/finance_rag/config.py:167-170 | a weighted neighbour stays below every rank up to c of one ranker exactly if w (k + c) < k + 1 |
| HybridRetriever.Candidates.constructor | src/finance_rag/retrieval/hybrid.py:114-127 | one entry for each row of the page, with its fused score, and no two entries the same object |
| HybridRetriever.Candidates.FoldKnown | src/finance_rag/retrieval/hybrid.py:159-164 | an id that is known gains its contribution in place, and every other entry keeps its scores |
| HybridRetriever.Candidates.FoldUnknown | src/finance_rag/retrieval/hybrid.py:165-175 | an id that is new gains an entry of its own, and the entries held before stay the same objects |
| HybridRetriever.Candidates.ApplyGraphRanker | src/finance_rag/retrieval/hybrid.py:136-175 | throughout the loop each score is dense part plus sparse part plus graph part; no entry is replaced |
| HybridRetriever.Retrieve | src/finance_rag/retrieval/hybrid.py:102-131 | page, eight seeds, expansion and final cut fit together: the result is the top of the folded scores |
| HybridRetriever.FoldRefinesFusion | src/finance_rag/retrieval/hybrid.py:136-175 | the folded score never exceeds that of the fusion of all three rankers, and equals it exactly if the id is on the page or was found by neither SQL ranker |
| HybridRetriever.CutIdReturns | src/finance_rag/store/pgvector_store.py:360-361 | a concrete page and graph in which an id that the limit cut comes back as a neighbour and scores less than the fusion of all three rankers gives it |
| HybridRetriever.ShortPageFoldsExactly | src/finance_rag/store/pgvector_store.py:360-361 | when the page is not full, SQL join and fold together are exactly the fusion of all three rankers |
| HybridRetriever.SeedsUnmoved | src/finance_rag/retrieval/hybrid.py:144-152 | the seeds keep their scores, and so their order among themselves |
| HybridRetriever.GraphOnlyBelow | src/finance_rag/retrieval/hybrid.py:165-175 | when w (k + c) < k + 1 no id that only the graph found reaches the score of any SQL row |
| HybridRetriever.FullPageKeepsItsIds | src/finance_rag/retrieval/hybrid.py:131 | a full page then keeps exactly its own ids through fold, sort and cut |
| HybridRetriever.DefaultsSuffice | src/finance_rag/config.py:161-170 | as configured, a document found by both rankers outranks every one found by only one, and neighbours never displace a row of a full page |
| RetrievalMetrics.AveragePrecision | src/finance_rag/metrics/retrieval_metrics.py:31-41 | the loop yields the mean of the precisions at the relevant results, 0 if there is none |
| RetrievalMetrics.AveragePrecisionExactly | src/finance_rag/metrics/retrieval_metrics.py:31-41 | average precision times the number of relevant results is the sum of the precisions at their ranks |
| RetrievalMetrics.PrecisionExactly | src/finance_rag/metrics/retrieval_metrics.py:87-91 | precision is the share of relevant results among the first k, or all but the last -k for a negative one |
| RetrievalMetrics.RecallExactly | src/finance_rag/metrics/retrieval_metrics.py:94-103 | recall is the share of the known relevant documents that these hold, at most 1, and 0 where none is known |
| RetrievalMetrics.Mrr | src/finance_rag/metrics/retrieval_metrics.py:76-80 | the loop with its early return yields the reciprocal rank that the next row is about |
| RetrievalMetrics.ReciprocalRankFirst | src/finance_rag/metrics/retrieval_metrics.py:76-80 | the reciprocal rank is that of the first relevant result |
| RetrievalMetrics.SortedUnique | src/finance_rag/metrics/retrieval_metrics.py:68 | a descending list is determined by its elements, so the ideal ranking is well defined |
| RetrievalMetrics.NdcgExactly | src/finance_rag/metrics/retrieval_metrics.py:44-73 | nDCG is the sum of relevances over their discounts, of the results at the cutoff over that of the best of the pool, however that is put in falling order |
| RetrievalMetrics.Surplus | src/finance_rag/metrics/retrieval_metrics.py:44-46 | summation by parts: dominance of all prefix sums carries over to discounted sums, with the equality case |
| RetrievalMetrics.Rearrangement | src/finance_rag/metrics/retrieval_metrics.py:44-73 | no choice from a pool has a larger DCG than the pool sorted in descending order, and equality holds exactly for its prefix with only zeros left over |
| RetrievalMetrics.NdcgBounds | src/finance_rag/metrics/retrieval_metrics.py:49-73 | nDCG lies in [0, 1] at every cutoff, and is 1 exactly if the judged results are the first of the ideal ones, the rest of these are zeros and not all are |
| RetrievalMetrics.GroundingExactly | src/finance_rag/metrics/retrieval_metrics.py:182-211 | grounding lies in [0, 1], and is 1 exactly if something is cited and nothing is hallucinated |
| RetrievalMetrics.CitationsCounted | src/finance_rag/metrics/retrieval_metrics.py:182-201 | every id counts once; the share of those retrieved is the grounding, and the others are listed in order of first mention |
| LabeledEvaluation.EvaluateLabeled | src/finance_rag/metrics/retrieval_metrics.py:135-168 | hit rate and reciprocal rank are those of the first relevant document, all rank scores are 0 without one, nDCG lies in [0, 1] and is 1 exactly if the top is relevant as far as the cutoff and the known documents go |
| LabeledEvaluation.MetricsExactly | src/finance_rag/metrics/retrieval_metrics.py:147-160 | precision and recall count the relevant documents up to the cutoff that was given, else among all |
| LabeledEvaluation.ContextExactly | src/finance_rag/metrics/retrieval_metrics.py:161-165 | context precision is the mean of the precisions at relevant documents, context recall the share of the known documents that were retrieved at all |
| LabeledEvaluation.LabeledNdcgExactly | src/finance_rag/metrics/retrieval_metrics.py:152-159 | labelled nDCG divides by the discounted sum of ones, as many as documents are known or retrieved, whichever is more |
| LabeledEvaluation.LabeledNdcg | src/finance_rag/metrics/retrieval_metrics.py:147-159 | labelled nDCG lies in [0, 1] and is 1 exactly if relevant documents fill the top of the ranking, as many as are known or the cutoff admits |
| LabeledEvaluation.PromotionFromSwaps | src/finance_rag/metrics/retrieval_metrics.py:31-103 | a measure that no exchange of neighbours lowers is lowered by no promotion over any distance |
| LabeledEvaluation.PromotionRaises | src/finance_rag/metrics/retrieval_metrics.py:31-103 | promoting a relevant result over an irrelevant one lowers none of MRR, average precision, precision, recall and nDCG |
| LabeledEvaluation.PromotionImprovesEvaluation | src/finance_rag/metrics/retrieval_metrics.py:135-168 | the same for the scores of a labelled evaluation, in terms of document ids |
| CutAveragePrecision.HarmfulPromotion | src/finance_rag/metrics/retrieval_metrics.py:31-41 | concrete rankings in which a promotion lowers the average precision at a cutoff from 1 |
| CutAveragePrecision.CutAveragePrecisionExactly | src/finance_rag/metrics/retrieval_metrics.py:31-41 | with a cutoff, promotion from place j to i is harmless for all rankings exactly if it stays within the cutoff, stays beyond it, or ends on one of the first two places |
| RateLimit.Tightest | src/finance_rag/api/ratelimit.py:150-151 | the chosen limit is among the candidates and none of them allows fewer requests per second |
| RateLimit.LimitsFor | src/finance_rag/api/ratelimit.py:134-151 | the limit returned is that of one of the route's scopes, which none has a tighter one than, and the read limit exactly if none of them has one |
| RateLimit.KeyTextsExactly | src/finance_rag/api/ratelimit.py:161 | the text of a counter's key tells credentials, scope sets and windows apart, whatever the credential's name holds, so counting by records is counting by texts |
| RateLimit.LocalWindows.Incr | src/finance_rag/api/ratelimit.py:74-89 | the count returned is the number of calls so far on this key and window, in spite of eviction beyond 10,000 counters |
| RateLimit.LiveCounter | src/finance_rag/api/ratelimit.py:82-88 | under a monotone clock and one window length a counter that was evicted belongs to a window long closed |
| RateLimit.LocalWindows.Check | src/finance_rag/api/ratelimit.py:154-186 | the in-process decision is the one that the history of calls determines |
| RateLimit.RedisWindows.Check | src/finance_rag/api/ratelimit.py:163-170 | so is the decision by INCR and EXPIRE: no key expires inside its own window |
| RateLimit.BackendsAgree | src/finance_rag/api/ratelimit.py:154-186 | both backends decide every sequence of calls by any number of keys alike |
| RateLimit.FirstCallsAllowed | src/finance_rag/api/ratelimit.py:14-18 | of the calls of a credential, scope set and window exactly the first `limit` are allowed |
| RateLimit.RemainingExactly | src/finance_rag/api/ratelimit.py:171-186 | after a decision exactly as many more calls of its window are allowed as it says remain |
| RateLimit.DecisionSays | src/finance_rag/api/ratelimit.py:171-186 | a decision names its limit, and a time to come back that is at least a second, no later than the end of the window and less than a second before it |
| RateLimit.BurstBound | src/finance_rag/api/ratelimit.py:14-18 | in no interval of one window's length are more than twice the limit allowed |
| RateLimit.BurstReached | src/finance_rag/api/ratelimit.py:14-18 | and twice the limit can indeed be allowed across the instant that parts two windows |
| Jobs.JobTable.CreateJob | src/finance_rag/pipeline/jobs.py:43-57 | a new id gets a queued row with the given paths, no times and no error, for the given org, or the default one if it is missing or empty; all other rows stay |
| Jobs.JobTable.SetStatus | src/finance_rag/pipeline/jobs.py:60-74 | the row changes as its new status demands whatever its old status was; without a row nothing changes |
| Jobs.JobTable.ReapStaleJobs | src/finance_rag/pipeline/jobs.py:144-167 | exactly the running rows started before the cutoff are failed, with an end time and an error that keeps one already there; all others stay as they are, and the number of the failed is returned |
| Jobs.JobTable.RunJob | src/finance_rag/pipeline/jobs.py:77-117 | uninterrupted, a job counts one more attempt and ends as the indexing of its own paths for its own org ended, with its figures or the first 2000 characters of its error; a missing row changes nothing |
| Jobs.JobTable.DispatchIndexJob | src/finance_rag/pipeline/launcher.py:102-131 | the row exists before the launch; a refused launch fails that row with its message, and touches no other |
| Jobs.EveryRowHonest | src/finance_rag/pipeline/jobs.py:43-167 | under every interleaving of creations, launches, workers, late failures, kills, reaps and clock ticks the invariant of all rows and workers is kept |
| Jobs.RowsTellTheTruth | src/finance_rag/pipeline/jobs.py:60-117 | from an empty table, in every run: attempts count the starts; a running row's last starter is at work or was killed; ended rows have an end time, failed ones an error; a succeeded row has the figures that a worker reported; workers act for the org and paths of their row |
| Jobs.RowsComeFromEvents | src/finance_rag/pipeline/jobs.py:43-117 | from an empty table, in every run: job n has the paths and the org of the n-th creation, and an error it shows is the reaper's, or that of a refusal of its own launch, or that of a worker which failed on it |
| Jobs.RowsPersist | src/finance_rag/pipeline/jobs.py:60-74 | no run changes the org or the paths of a job, forgets an attempt, clears an error or queues it again |
| Jobs.ReapCorrect | src/finance_rag/pipeline/jobs.py:150-164 | after a reap no running row is older than the cutoff, the stale ones are failed with an error and an end time, all others are untouched |
| Jobs.AbandonedJobsFail | src/finance_rag/pipeline/jobs.py:144-149 | a job left running fails at the first reap after its time is up, and not before |
| Jobs.EndIsFinal | src/finance_rag/pipeline/jobs.py:94-117 | an ended job keeps its status, short of a worker that reads it anew, exactly if no worker has yet to end it and, when it succeeded, no worker that reported is still inside its `try` and no launch is open |
| Jobs.RowIsFinal | src/finance_rag/pipeline/jobs.py:60-74 | its whole row stays as it is exactly if no worker on it is active, reporting ones included, and its launch is no longer open |
| Jobs.QuietReachable | src/finance_rag/pipeline/jobs.py:77-117 | and from every state such an end can be reached, with the table left as it is: workers may be killed, or leave once they have reported, and launches close |
| Jobs.ReapedJobCanSucceed | src/finance_rag/pipeline/jobs.py:144-167 | a slow worker of a reaped job still makes it succeed, and the reaper's error stays on the succeeded row |
| Jobs.SlowWorkerOccurs | src/finance_rag/pipeline/jobs.py:144-167 | such a worker occurs in a run from an empty table |
| Jobs.UninterruptedRun | src/finance_rag/pipeline/jobs.py:77-117 | the atomic steps of a worker, with nobody in between, leave the table that the sequential method leaves |
| SemanticCache.IdsDistinct | src/finance_rag/cache/semantic_cache.py:31-33 | with a collision-free hash, keys tell corpus versions apart, and bodies within a version |
| SemanticCache.KeysDistinguishExactly | src/finance_rag/cache/semantic_cache.py:31-33 | keys tell service lines and queries apart, for all normalised queries, exactly if no line is another one followed by a bar and by text in lower case that does not start with white space |
| SemanticCache.LastIsForLine | src/finance_rag/cache/semantic_cache.py:31-33 | then what is found under a key is what was last stored for that service line and normalised query |
| SemanticCache.LastIsForPlainLine | src/finance_rag/cache/semantic_cache.py:31-33 | in particular where service lines hold no bar |
| SemanticCache.BarConfuses | src/finance_rag/cache/semantic_cache.py:31-33 | a concrete pair of service lines and queries that share one entry |
| SemanticCache.Cache.BumpCorpusVersion | src/finance_rag/cache/semantic_cache.py:85-92 | after a bump the cache is that of an empty history: nothing stored before can be found |
| SemanticCache.Cache.Set | src/finance_rag/cache/semantic_cache.py:164-184 | the history gains one entry with the query as asked, the response, its expiry and the vector given or computed, unless the response is a refusal or the cache is off |
| SemanticCache.Cache.Get | src/finance_rag/cache/semantic_cache.py:127-162 | every hit was stored since the last bump, is no refusal and is unexpired; for service lines kept apart, an exact hit is the latest entry whose query and service line match the asked ones up to outer white space and lowering; failing that there is a hit exactly if a scanned live entry meets the threshold, and it is one that no other scanned live entry is nearer than |
| SemanticCache.LatestUnderKey | src/finance_rag/cache/semantic_cache.py:31-33 | what is found under the key of a query is the latest entry stored for that service line and for a query that reads the same, outer white space and case aside |
| SemanticCache.OuterSpaceIgnored | src/finance_rag/cache/semantic_cache.py:31-33 | white space around a query makes no difference to its key |
| SemanticCache.Cache.NearestId | src/finance_rag/cache/semantic_cache.py:145-155 | the scan finds a live vector that is maximal among those scanned, the first of them, or none if all are opposite |
| Auth.ScopesGranted | src/finance_rag/api/auth.py:109-121 | a scope field parses exactly if it names something, and the wildcard or nothing unknown; it grants exactly the scopes it names, or all by the wildcard |
| Auth.UnknownScopesNamed | src/finance_rag/api/auth.py:109-121 | an error names the key and exactly the names in its field that are no scopes |
| Auth.ParseApiKeys | src/finance_rag/api/auth.py:124-166 | the loop yields the table of all entries or the error of the first bad one, with its position |
| Auth.ParsedExactly | src/finance_rag/api/auth.py:124-166 | a setting parses exactly if every entry that is not blank is complete with known scopes and no two share a secret; then no entry is dropped and none invented |
| Auth.FieldsExactly | src/finance_rag/api/auth.py:136-145 | the fields of an entry are what stands before its first three colons and all the rest, without white space around them |
| Auth.ErrorsExactly | src/finance_rag/api/auth.py:124-166 | a setting that does not parse fails at its first bad entry, with the position or the keys of that entry, and the kind of its fault |
| Auth.TablesGrantKnownScopes | src/finance_rag/api/auth.py:109-166 | every principal of a table that parses has an org, a key id as its subject, and scopes, all of them known |
| Auth.AuthenticatedExactly | src/finance_rag/api/auth.py:317-356 | on the key path a request is let in as a principal exactly if the setting parses and an entry with the presented secret names it: its key, its scopes, and its org, or the default one where tenancy is not enforced |
| Auth.CredentialExactly | src/finance_rag/api/auth.py:177-184 | a header is a credential exactly if it is the bearer scheme, a space and a value that is not blank |
| Auth.LooksLikeJwtExactly | src/finance_rag/api/auth.py:187-196 | a credential is taken for a signed token exactly if it is three parts between two dots, none of them empty |
| Auth.AnonymousHasAll | src/finance_rag/api/auth.py:302-340 | without authentication everyone is one principal with all scopes, for the org that the header names where tenancy is enforced |
| Auth.OrgHeaderIgnored | src/finance_rag/api/auth.py:302-356 | the org header makes no difference to who is let in exactly if authentication is on or the headers name one tenant |
| Auth.KeysRoundTrip | src/finance_rag/api/auth.py:124-184 | for every list of well-formed keys with distinct secrets, which may hold colons, `Bearer <secret>` gives exactly the principal of the key with that secret: its key id, its scopes or all by the wildcard, and its org, or the default one where tenancy is not enforced, whatever the org header says; any other secret gives nobody |

## Left out

- Foreign calls: language models, embeddings, reranker, web search, ECS, JWKS and token signatures appear
  as function parameters or as arbitrary events.
- Floating point: all scores, times and metrics are exact reals; times of jobs and cache entries are integers.
- Postgres: dense and sparse rankings are arbitrary lists, and ties of an ORDER BY fall any way;
  approximation, text ranking, scope predicates and the child-level filter of both rankers are not modelled.
- Graph-state keys that no edge and no part of the response reads: rationale, service line, user, thread,
  audit record and progress events; and the latency among the metrics of a response, read off a clock.
  The step limit of the graph library is not part of this model either, so a retry budget beyond it would
  end in an error that the model lacks.
- The sort and the cut of retrieval report ids; the attachment of parent excerpts and the reranker that
  follow are not modelled.
- Block texts: headings and paragraphs are cleaned single lines and tables are printed from usable rows,
  as the page parser emits them; page geometry and word extraction are not modelled.
- TablesReachTheIndexWhole: paragraphs that themselves look like table lines are excluded, since they
  reach the index as tables of their own; TableChunksOf covers them.
- ProseConservation: assumes that the tokens of a text, put behind any others, decode to that text behind
  theirs; and, only for what a chunk repeats, that the last tokens of a list decode to the end of what it
  decodes to, but for a character that they cut, which leaves three replacement characters at most.
- Tokenizer: encoding is total here, while the program's encoder raises on a text that spells out one of
  its special tokens, such as `<|endoftext|>`.
- Fusion in SQL and in the fold: the smoothing constant is taken to be at least 0, as it is configured.
- RateLimit: one window length per set of counters and a clock that does not run backwards, since
  eviction by the caller's window is unsound for counters of longer windows; scope names are not empty
  and hold neither `-` nor `:`; backend faults, the fail-open decision and the switch of backends are not
  modelled, and Redis reads the same clock as the service.
- Jobs: a database write that fails appears as a kill of the worker, and one whose success goes unnoticed
  as a worker that reported and then fails; the source URI of a job is not modelled.
- SemanticCache: operations are atomic, the hash is free of collisions and never empty, an entry holds
  what was serialised, and the members of the id set come in an arbitrary order.
- KeysRoundTrip: only for secrets that are not taken for signed tokens, which needs a token issuer to be
  configured and a secret with two dots.
- Lowering of text is an arbitrary function that fixes the lower-case names and, in the cache, is
  idempotent, works on both sides of a bar apart and keeps the ends of a text free of white space.
- Input guardrail, prompts, page furniture, tag and entity extraction, provider selection, HTTP routes,
  streaming, command line, storage and infrastructure: pattern lists, wiring or single branches.
