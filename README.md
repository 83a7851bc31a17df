# Structural bioinformatics pipeline: a verified model of its core logic

The pipeline filters an InterProScan table by prediction method and
domain, cuts the chosen domains out of the protein sequences, runs
BLASTp against the PDB, aligns the domains with Clustal Omega, builds
column consensus sequences, gathers the PDB hits per query and
downloads their structures, prepares one FASTA file per record for
modelling and picks a MODELLER template. Around every outside tool
sits plain list, dictionary and string logic. This project models that
logic in Dafny, one module per stage:

- `Common` (common.dfy): the parts of Python's `str`, `int()`,
  `sorted()` and `os.path` that the stages rely on. This covers strip,
  split/join, lower/upper, `splitext`, `join`, `int()` on a token and
  the "0 = all, else 1-based digit tokens" file-selection rule.
- `FilterUtils` (filter.dfy), `filtrar_por_dominios_e_metodo`:
  - the method prompt loop;
  - the comma-separated output selection;
  - the case-insensitive method filter;
  - the per-protein summary and the all-outputs list;
  - the filtered FASTA and the files written.
- `ExtractUtils` (extract.dfy), `extrair_outputs_fasta`:
  - domain-name cleaning;
  - the 1-based inclusive slice, with Python's slice semantics;
  - the record header and the per-domain output files;
  - the skip rules.
- `BlastUtils` (blast.dfy), `rodar_blast`:
  - file selection;
  - output naming and the skip-if-non-empty rule;
  - the exact `blastp` argument list;
  - the per-file loop over the output directory.
- `AlignUtils` (align.dfy), `alinhar_dominios_clustalo_online`:
  - file selection and the e-mail default;
  - the polling loop that ends on `FINISHED` or `ERROR`;
  - output naming and the per-file loop, including its failure modes.
- `ConsensusUtils` (consensus.dfy), `gerar_consenso_e_relatorio` and
  `gerar_consensos_para_diretorio`:
  - per-column counting, the tie-break and the alert grading;
  - residue classes and 60-column FASTA wrapping;
  - the recursive job collection and the combined consensus file.
- `PdbUtils` (pdb.dfy), `extrair_pdb_codes`, `baixar_pdb_files` and
  `_download_worker`:
  - folder-name sanitisation;
  - the `pdb|CODE|CHAIN` descriptor;
  - the minimum-e-value registry fold;
  - the cache-aware downloader, as the class `PdbWorkspace` whose state
    is the registries written, the files present and the requests made.
- `ModelUtils` (modelprep.dfy), `enviar_para_modelagem`: id
  sanitisation and one output file per record.
- `ModellerUtils` (modeller.dfy):
  - the `.ali` text and the PDB resolution scan;
  - candidate building and the stable ranking;
  - automatic and manual template choice;
  - the best-model pick.

Each loop of the source is a method with loop invariants. It is proved
equal to a specification function, and the lemmas about that function
state what the stage promises.

Things outside the program are parameters:
- directory listings;
- file contents, with `None` where a read or parse raises;
- the user's answers, as a sequence, so that running out of answers
  stands for end of input;
- whether a download succeeds;
- what `blastp` leaves on disk;
- the responses of the Clustal Omega service.

Scores (e-value, bitscore, identity, DOPE) are reals, compared only.

## Model

| member | source | states |
|---|---|---|
| Common.StripLeftSpec | pipeline_utils/blast_utils.py:37 | the result is a suffix of the input, starts with a non-space, and everything dropped is whitespace |
| Common.StripRightSpec | pipeline_utils/blast_utils.py:37 | the result is a prefix of the input, ends with a non-space, and everything dropped is whitespace |
| Common.StripIdempotent | pipeline_utils/align_utils.py:45 | stripping twice is stripping once |
| Common.Upper | pipeline_utils/pdb_utils.py:18 | `str.upper()` keeps the length and upper-cases each character in place |
| Common.Lower | pipeline_utils/filter_utils.py:38 | `str.lower()` keeps the length and lower-cases each character in place |
| Common.Split | pipeline_utils/filter_utils.py:47 | `str.split(sep)` gives at least one field and no field contains the separator |
| Common.JoinSplit | pipeline_utils/filter_utils.py:47 | joining the fields of a split with the same separator gives back the string |
| Common.SplitJoin | pipeline_utils/blast_utils.py:72 | splitting a join of separator-free fields gives back the fields |
| Common.SortedSet | pipeline_utils/pdb_utils.py:54 | `sorted(set)` lists every element exactly once in strictly increasing order |
| Common.LeastCons | pipeline_utils/pdb_utils.py:54 | the least element followed by the sorted rest lists the whole set once each, in strictly increasing order |
| Common.PyInt | pipeline_utils/filter_utils.py:28 | `int()` succeeds only on a string with a non-blank body |
| Common.DigitStringIsInt | pipeline_utils/blast_utils.py:43 | `int()` of an all-digit token is its decimal value |
| Common.IntToStringRoundTrip | pipeline_utils/extract_utils.py:67 | `int(str(i)) == i` for every integer |
| Common.NatToString | pipeline_utils/blast_utils.py:71 | `str(n)` is all digits and reads back as `n` |
| Common.SplitExtSpec | pipeline_utils/model_utils.py:34 | `splitext` cuts the path into root and extension, which concatenate back to it; the extension is empty or a dot with no further dot or slash |
| Common.LastIndexOfSpec | pipeline_utils/model_utils.py:34 | the position of the last occurrence of a character, or -1 when it does not occur; no later position holds it |
| Common.NonDotInSpec | pipeline_utils/model_utils.py:34 | the leading-dot test holds exactly when some character of the range is not a dot |
| Common.StemOfName | pipeline_utils/align_utils.py:87 | `splitext("<name>.<ext>")` is `("<name>", ".<ext>")` for a plain file name |
| Common.PathJoinInjective | pipeline_utils/blast_utils.py:56 | joining two different relative names to one folder gives different paths |
| Common.FastaFiles | pipeline_utils/blast_utils.py:16 | exactly the listed names that end in `.fasta` |
| Common.PickByNumber | pipeline_utils/align_utils.py:36 | the picked items are items of the list, at most one per number |
| Common.PickByNumberAppend | pipeline_utils/align_utils.py:36 | picking by `a + b` is picking by `a`, then by `b` |
| Common.PickByNumberInRange | pipeline_utils/blast_utils.py:44 | when every number is in 1..n, item `k` is `items[numbers[k]-1]`, kept in order with duplicates |
| Common.PickByNumberOutOfRange | pipeline_utils/blast_utils.py:44 | numbers outside 1..n pick nothing |
| Common.SelectByNumbers | pipeline_utils/align_utils.py:31-36 | the answer `0` selects every file; any selection holds only listed files |
| FilterUtils.Methods | pipeline_utils/filter_utils.py:21 | the distinct methods of the table, strictly sorted |
| FilterUtils.Chosen | pipeline_utils/filter_utils.py:29-30 | a valid number picks a listed method |
| FilterUtils.MethodChoice | pipeline_utils/filter_utils.py:26-35 | whatever the prompt loop accepts is a listed method |
| FilterUtils.MethodChoiceMeaning | pipeline_utils/filter_utils.py:26-35 | the first answer that is an integer in 1..number of methods decides the method; with no such answer the input ends with no choice |
| FilterUtils.ChooseMethod | pipeline_utils/filter_utils.py:26-35 | the prompt loop returns the choice `MethodChoice` specifies |
| FilterUtils.MethodRows | pipeline_utils/filter_utils.py:38 | exactly the rows whose method equals the chosen one, ignoring case |
| FilterUtils.Outputs | pipeline_utils/filter_utils.py:40 | exactly the outputs that occur in the rows |
| FilterUtils.Selection | pipeline_utils/filter_utils.py:45-49 | every selected output is an available output |
| FilterUtils.SelectionNeedsAllDigits | pipeline_utils/filter_utils.py:47 | one token that is not all digits after stripping makes the selection empty |
| FilterUtils.DoubleCommaTokens | pipeline_utils/filter_utils.py:45-47 | an answer `x,,y` of two digit strings is unchanged by stripping and its second comma-separated token is empty |
| FilterUtils.EmptyTokenSelectsNothing | pipeline_utils/filter_utils.py:47 | an answer such as `1,,3` selects nothing |
| FilterUtils.DigitTokensAll | pipeline_utils/filter_utils.py:48 | when all tokens are digits, every token gives its value, in order |
| FilterUtils.PickByTokens | pipeline_utils/filter_utils.py:48-49 | digit tokens that are all in range pick, in order, the outputs they number |
| FilterUtils.SelectionInRange | pipeline_utils/filter_utils.py:47-49 | with all tokens digits and in range, output `k` is the one numbered by token `k`, in the given order |
| FilterUtils.SelectedRows | pipeline_utils/filter_utils.py:57-58 | exactly the rows whose output mentions one of the selected outputs |
| FilterUtils.Proteins | pipeline_utils/filter_utils.py:64-68 | the distinct protein ids of the rows, strictly sorted |
| FilterUtils.Found | pipeline_utils/filter_utils.py:70-71 | exactly the selected outputs, in selection order, that one of the protein's rows mentions |
| FilterUtils.SummaryAllMeaning | pipeline_utils/filter_utils.py:68-80 | a protein is in the all-outputs list exactly when it was visited, something was found for it and it has every selected output |
| FilterUtils.SummaryLinesMeaning | pipeline_utils/filter_utils.py:68-78 | every summary line belongs to a visited protein with something found, and carries its found outputs joined by commas |
| FilterUtils.SummaryCoversAll | pipeline_utils/filter_utils.py:68-78 | when something is found for every protein, the summary has one line per protein, in visiting order |
| FilterUtils.SummaryMeaning | pipeline_utils/filter_utils.py:68-80 | a protein is summarised only when something was found for it, with its found list joined by commas; it is in the all-outputs list exactly when it has every selected output |
| FilterUtils.HasAllFindsSomething | pipeline_utils/filter_utils.py:79 | a protein with every selected output (of at least one) has a non-empty found list |
| FilterUtils.EveryProteinFindsSomething | pipeline_utils/filter_utils.py:64-73 | every protein of the filtered rows has a non-empty found list |
| FilterUtils.Summarise | pipeline_utils/filter_utils.py:64-80 | the per-protein loop builds the summary and the all-outputs list that `SummaryOf` specifies |
| FilterUtils.FilteredFasta | pipeline_utils/filter_utils.py:98-105 | exactly the input records whose id occurs in the filtered rows, unchanged |
| FilterUtils.FilteredFastaMeaning | pipeline_utils/filter_utils.py:99-105 | an id is in the filtered FASTA exactly when it is in the input FASTA and among the filtered proteins |
| FilterUtils.Prompted | pipeline_utils/filter_utils.py:26-62 | a successful dialogue has a non-empty selection and non-empty filtered rows |
| FilterUtils.PromptedMeaning | pipeline_utils/filter_utils.py:26-62 | the method is listed, each selected output belongs to it, and the filtered rows are exactly its rows that mention a selected output |
| FilterUtils.SummaryListsEveryProtein | pipeline_utils/filter_utils.py:68-77 | the summary has one line per filtered protein, in sorted id order, each with its found list |
| FilterUtils.NamesDiffer | pipeline_utils/filter_utils.py:82-101 | distinct relative names give distinct paths in one folder |
| FilterUtils.PathsDiffer | pipeline_utils/filter_utils.py:82-101 | the summary table, the all-outputs list and the filtered FASTA are three different files |
| FilterUtils.ReportFilesMeaning | pipeline_utils/filter_utils.py:82-96 | the summary table is always written; the all-outputs list is written exactly when some protein has every output, and then holds those ids |
| FilterUtils.AllListMeaning | pipeline_utils/filter_utils.py:79-80 | the all-outputs list holds exactly the filtered proteins that have every selected output |
| FilterUtils.FilterFiles | pipeline_utils/filter_utils.py:10-108 | a run that returns a result read both inputs and wrote the reports plus the filtered FASTA |
| FilterUtils.WriteReports | pipeline_utils/filter_utils.py:82-96 | writes the report files `ReportFiles` specifies |
| FilterUtils.Prompt | pipeline_utils/filter_utils.py:21-62 | the two prompts and the row filters return the dialogue outcome `Prompted` specifies |
| FilterUtils.FilterByDomainsAndMethod | pipeline_utils/filter_utils.py:10-117 | the stage returns and writes what `FilterEffect` specifies, including every early `(None, None, None)` return |
| ExtractUtils.ReplaceSpaces | pipeline_utils/extract_utils.py:40 | same length; every space becomes `_` and every other character is kept |
| ExtractUtils.RemoveCommas | pipeline_utils/extract_utils.py:40 | keeps exactly the characters other than commas |
| ExtractUtils.CleanName | pipeline_utils/extract_utils.py:40 | the cleaned name has no space and no comma, and is no longer than the domain |
| ExtractUtils.RemoveCommasFixed | pipeline_utils/extract_utils.py:40 | a comma-free string is left unchanged |
| ExtractUtils.CleanNameFixed | pipeline_utils/extract_utils.py:40 | a name without spaces or commas is left unchanged |
| ExtractUtils.CleanNameIdempotent | pipeline_utils/extract_utils.py:40 | cleaning twice is cleaning once |
| ExtractUtils.ClampIndex | pipeline_utils/extract_utils.py:64 | a slice bound lands in 0..len and an in-range bound is kept |
| ExtractUtils.PySlice | pipeline_utils/extract_utils.py:64 | a slice is never longer than the sequence |
| ExtractUtils.FragmentInRange | pipeline_utils/extract_utils.py:63-64 | for 1 <= start <= end <= len the fragment is residues start..end inclusive, of length end - start + 1 |
| ExtractUtils.FragmentIsPiece | pipeline_utils/extract_utils.py:64 | every fragment is a contiguous piece of the sequence; end < start gives the empty fragment |
| ExtractUtils.ZeroStartCountsFromEnd | pipeline_utils/extract_utils.py:64 | start 0 makes the slice begin at index -1, so only the last residue is kept |
| ExtractUtils.NatToStringDigits | pipeline_utils/extract_utils.py:67 | a natural number prints as digits only |
| ExtractUtils.IntToStringHasNo | pipeline_utils/extract_utils.py:67 | a printed integer holds no character other than digits and `-` |
| ExtractUtils.HeaderReadBack | pipeline_utils/extract_utils.py:67 | the header starts with `>`, and its last two `_` fields read back as start and end |
| ExtractUtils.HeaderFields | pipeline_utils/extract_utils.py:67 | when the two number texts hold no `_`, the header starts with `>` and its last two `_` fields are exactly those texts |
| ExtractUtils.SplitLastTwo | pipeline_utils/extract_utils.py:67 | splitting on `_` ends with the last two fields when neither holds a `_` |
| ExtractUtils.HeaderOneLine | pipeline_utils/extract_utils.py:67-68 | a header built from an id and a name without newlines is one line |
| ExtractUtils.FragmentOneLine | pipeline_utils/extract_utils.py:64-68 | a fragment of a one-line sequence is one line |
| ExtractUtils.RecordLines | pipeline_utils/extract_utils.py:67-68 | a record is exactly the header line then the fragment line |
| ExtractUtils.Matching | pipeline_utils/extract_utils.py:47 | exactly the rows whose output contains the domain, ignoring case |
| ExtractUtils.Present | pipeline_utils/extract_utils.py:59-61 | keeps exactly the rows whose id is in the filtered FASTA |
| ExtractUtils.Records | pipeline_utils/extract_utils.py:54-68 | one record per row |
| ExtractUtils.RecordsSnoc | pipeline_utils/extract_utils.py:54-68 | one more known row appends its record after those of the earlier rows |
| ExtractUtils.DomainTextIsKnownRecords | pipeline_utils/extract_utils.py:54-68 | a domain file is the records of its rows with a known id, in table order |
| ExtractUtils.WriteDomain | pipeline_utils/extract_utils.py:53-68 | the row loop writes the text `DomainText` specifies |
| ExtractUtils.WrittenFiles | pipeline_utils/extract_utils.py:37-51 | a file is written exactly for each domain with at least one matching row, at `<name>_<tool>.fasta` |
| ExtractUtils.DomainsEffectSnoc | pipeline_utils/extract_utils.py:37-68 | a domain with no matching row writes nothing; otherwise its file is set to its text, replacing any earlier file at that path |
| ExtractUtils.DomainFileContents | pipeline_utils/extract_utils.py:44-68 | unless a later domain reuses the path, a domain's file holds its known rows' records |
| ExtractUtils.ExtractionStops | pipeline_utils/extract_utils.py:16-32 | an empty or missing table, or a missing filtered FASTA, writes nothing |
| ExtractUtils.ExtractOutputsFasta | pipeline_utils/extract_utils.py:9-74 | the stage writes what `Extraction` specifies |
| BlastUtils.ColumnsReadBack | pipeline_utils/blast_utils.py:72 | the output format is tabular format 6, with its seven columns read back in order |
| BlastUtils.OutputPathInjective | pipeline_utils/blast_utils.py:56 | different FASTA files get different report paths |
| BlastUtils.Command | pipeline_utils/blast_utils.py:65-74 | 14 arguments: `blastp`, the query path, the output format and the report path in their places |
| BlastUtils.CommandOptions | pipeline_utils/blast_utils.py:68-71 | the database `pdb`, `-remote`, e-value `1e-5`, and a target-count argument that reads back as 10 |
| BlastUtils.Chosen | pipeline_utils/blast_utils.py:23-47 | automatic mode and the answer `0` select every file; any selection holds only listed files |
| BlastUtils.Commands | pipeline_utils/blast_utils.py:65-76 | one command per file sent, in order |
| BlastUtils.DoneStays | pipeline_utils/blast_utils.py:59-61 | a non-empty report stays non-empty |
| BlastUtils.SizesChangeOnlyBySending | pipeline_utils/blast_utils.py:54-77 | a report size changes only for a file that was sent, and then it is whatever `blastp` produced |
| BlastUtils.NeverRedoes | pipeline_utils/blast_utils.py:59-61 | no file whose report was already non-empty is sent |
| BlastUtils.EveryFileHandled | pipeline_utils/blast_utils.py:54-77 | every chosen file is sent or already had a non-empty report |
| BlastUtils.PassRanChosen | pipeline_utils/blast_utils.py:54 | only chosen files are sent, at most one run per choice |
| BlastUtils.SentOnceWhenReportsNonEmpty | pipeline_utils/blast_utils.py:59-61 | when every run leaves a non-empty report, no file is sent twice, even if it was chosen twice |
| BlastUtils.SentReportDone | pipeline_utils/blast_utils.py:56-61 | when every run leaves a non-empty report, every file sent ends with one |
| BlastUtils.NothingChosenNothingSent | pipeline_utils/blast_utils.py:16-51 | no listing, no FASTA file or an empty selection runs nothing |
| BlastUtils.AllFilesConsidered | pipeline_utils/blast_utils.py:23-40 | automatic mode or `0` passes every FASTA file, in listing order |
| BlastUtils.RunBlast | pipeline_utils/blast_utils.py:10-77 | the commands issued and the report sizes after the stage are those `Stage` specifies |
| BlastUtils.SendAll | pipeline_utils/blast_utils.py:54-77 | the per-file loop issues the commands and leaves the sizes that `Pass` specifies |
| AlignUtils.LowerIsN | pipeline_utils/align_utils.py:46 | a string lowers to `n` exactly when it is `n` or `N` |
| AlignUtils.EmailMeaning | pipeline_utils/align_utils.py:45-47 | an empty answer, `n` or `N` gives the default address, any other stripped answer is kept, and the e-mail is never empty |
| AlignUtils.FirstFinal | pipeline_utils/align_utils.py:75 | a status that ends polling is `FINISHED` or `ERROR` |
| AlignUtils.FirstByFound | pipeline_utils/align_utils.py:73-80 | when polling ends, its status is the normalised form of a response with no final response before it |
| AlignUtils.FirstByNone | pipeline_utils/align_utils.py:73-80 | polling never ends exactly when no response is final |
| AlignUtils.FirstFinalIsFirstBy | pipeline_utils/align_utils.py:73-80 | the status loop is the generic first-match search with `strip` and the `FINISHED`/`ERROR` test |
| AlignUtils.FirstFinalMeaning | pipeline_utils/align_utils.py:73-80 | polling ends on the first final response, with none earlier; it never ends exactly when no response is final |
| AlignUtils.WaitForJob | pipeline_utils/align_utils.py:73-80 | the polling loop returns the first final status |
| AlignUtils.OutputNames | pipeline_utils/align_utils.py:87-112 | `<name>.fasta` goes to the folder `<name>`, holding `<name>_clustalo_alinhamento.clustal` and `<name>_tree.nwk` |
| AlignUtils.FastaStem | pipeline_utils/align_utils.py:87 | `splitext` of `<name>.fasta` is `<name>` for a plain file name with a non-dot character |
| AlignUtils.AlignmentIsNotTree | pipeline_utils/align_utils.py:98-112 | the alignment and the tree of any file name are different files |
| AlignUtils.PostedForms | pipeline_utils/align_utils.py:58-68 | at most one job per chosen file; every form carries the e-mail, `protein`, `clustal` and `true` |
| AlignUtils.StepPosted | pipeline_utils/align_utils.py:56-68 | one file posts at most one form, carrying the e-mail, and otherwise leaves the posted list unchanged |
| AlignUtils.StepWritten | pipeline_utils/align_utils.py:82-115 | one file writes only its own alignment and tree, and only once its job finished |
| AlignUtils.ErrorSkipsFile | pipeline_utils/align_utils.py:82-84 | a job ending in `ERROR` posts its form and changes nothing else |
| AlignUtils.WrittenAreResultsOfFinished | pipeline_utils/align_utils.py:82-115 | every file written is the alignment or tree of a chosen file whose job finished |
| AlignUtils.StepSaved | pipeline_utils/align_utils.py:98-114 | a step that keeps succeeding writes its alignment, then its tree, exactly when its job finished |
| AlignUtils.StepWritesKeys | pipeline_utils/align_utils.py:98-114 | one file keeps every path on disk and adds its alignment and tree when its job finished |
| AlignUtils.KeysSnoc | pipeline_utils/align_utils.py:98-114 | one more file keeps the alignment and tree files of every finished job on disk |
| AlignUtils.NoLaterWrite | pipeline_utils/align_utils.py:98-114 | a path that no finished job after `k` writes is written neither by the last file nor, one file earlier, by any finished job after `k` |
| AlignUtils.AlignmentKept | pipeline_utils/align_utils.py:98-100 | an earlier job's alignment outlives one more file when that file does not write its path |
| AlignUtils.TreeKept | pipeline_utils/align_utils.py:112-114 | an earlier job's tree outlives one more file when that file does not write its path |
| AlignUtils.AlignmentsSnoc | pipeline_utils/align_utils.py:98-100 | one more file keeps each finished job's alignment text unless a later finished job writes that path |
| AlignUtils.TreesSnoc | pipeline_utils/align_utils.py:112-114 | one more file keeps each finished job's tree text unless a later finished job writes that path |
| AlignUtils.SavedResults | pipeline_utils/align_utils.py:51-117 | in a run that keeps succeeding, every finished chosen file's alignment and tree are on disk, holding that job's texts; of jobs writing the same path the last finished one wins |
| AlignUtils.ErrorsWriteNothing | pipeline_utils/align_utils.py:82-84 | when no job finishes, nothing is written |
| AlignUtils.StepResults | pipeline_utils/align_utils.py:82-117 | a step that keeps succeeding adds the file to the results exactly when its job finished, with its alignment |
| AlignUtils.CollectKeys | pipeline_utils/align_utils.py:117 | a file is a key of the results exactly when one of its jobs finished |
| AlignUtils.CollectValues | pipeline_utils/align_utils.py:117 | a file chosen twice keeps the alignment of its last finished job |
| AlignUtils.ResultsAreCollected | pipeline_utils/align_utils.py:51-117 | a run that succeeds returns the alignments of the finished jobs, keyed by file |
| AlignUtils.ResultsHoldFinished | pipeline_utils/align_utils.py:117 | every file whose job finished is in the results |
| AlignUtils.ResultsAreFinished | pipeline_utils/align_utils.py:117 | every result is the alignment of a finished job of that file, with no later finished job for it |
| AlignUtils.NothingChosen | pipeline_utils/align_utils.py:18-43 | no listing, no FASTA file or an empty selection returns `None` and does nothing |
| AlignUtils.FailureSticks | pipeline_utils/align_utils.py:122-124 | after an exception or an endless poll, the remaining files change nothing |
| AlignUtils.AlignDomains | pipeline_utils/align_utils.py:10-124 | outcome, writes and posted forms are those `Stage` specifies |
| AlignUtils.AlignAll | pipeline_utils/align_utils.py:51-117 | the per-file loop gives what `Pass` specifies |
| AlignUtils.AlignOne | pipeline_utils/align_utils.py:52-117 | one file gives what `FileStep` specifies |
| ConsensusUtils.ClassKnownIff | pipeline_utils/consensus_utils.py:15-22 | a residue has a class other than `desconhecida` exactly when it is one of the 20 in the table |
| ConsensusUtils.Column | pipeline_utils/consensus_utils.py:42 | a column has one symbol per sequence |
| ConsensusUtils.CountPositive | pipeline_utils/consensus_utils.py:43 | a symbol's count is positive exactly when it occurs in the column |
| ConsensusUtils.NonGapSymbols | pipeline_utils/consensus_utils.py:46 | exactly the distinct non-gap symbols of the column |
| ConsensusUtils.MaxCountOf | pipeline_utils/consensus_utils.py:57 | the maximum count among the symbols, reached by one of them |
| ConsensusUtils.WithCount | pipeline_utils/consensus_utils.py:58 | exactly the symbols with the given count |
| ConsensusUtils.WithCountDistinct | pipeline_utils/consensus_utils.py:58 | filtering distinct symbols keeps them distinct |
| ConsensusUtils.MaxCountBound | pipeline_utils/consensus_utils.py:57 | no non-gap symbol occurs more often than the maximum |
| ConsensusUtils.TopHasMaxCount | pipeline_utils/consensus_utils.py:57-58 | every top residue is a non-gap symbol of the column with the maximum count |
| ConsensusUtils.MostFrequentIsTop | pipeline_utils/consensus_utils.py:57-58 | a non-gap symbol that no other outnumbers is a top residue |
| ConsensusUtils.TopsAreMostFrequent | pipeline_utils/consensus_utils.py:57-58 | the top residues are exactly the most frequent non-gap symbols |
| ConsensusUtils.TieIff | pipeline_utils/consensus_utils.py:58-63 | there is a tie exactly when another non-gap symbol has the chosen residue's count |
| ConsensusUtils.TopsDistinct | pipeline_utils/consensus_utils.py:58 | the top residues are listed once each |
| ConsensusUtils.TopsEmptyIff | pipeline_utils/consensus_utils.py:46-51 | there is no top residue exactly when the column is all gaps |
| ConsensusUtils.LowFrequencyIff | pipeline_utils/consensus_utils.py:60-64 | the frequency is below 50% exactly when twice the maximum count is below the column size, gaps included |
| ConsensusUtils.RatioBelowHalf | pipeline_utils/consensus_utils.py:60-64 | the percentage test is the same as comparing twice the count with the total |
| ConsensusUtils.ColumnOutcomeMeaning | pipeline_utils/consensus_utils.py:41-74 | report row: position, residue, sequence count and class. An all-gap column gives `-`, frequency 0 and the all-gaps alert. Otherwise the residue is a most frequent non-gap symbol, and the alert is tie, then frequency below 50%, then gap fraction above the limit |
| ConsensusUtils.AlertTieIff | pipeline_utils/consensus_utils.py:62-63 | the tie alert is raised exactly when more than one residue is on top |
| ConsensusUtils.BuildConsensus | pipeline_utils/consensus_utils.py:41-74 | one consensus character and one report row per column, each satisfying the column rule |
| ConsensusUtils.ColumnStep | pipeline_utils/consensus_utils.py:42-74 | one column gives a residue and row satisfying the column rule |
| ConsensusUtils.OutcomesGiveConsensus | pipeline_utils/consensus_utils.py:41-78 | column-by-column outcomes make a consensus of the alignment |
| ConsensusUtils.Chunks | pipeline_utils/consensus_utils.py:88-89 | the chunks concatenate to the sequence; each holds 1..60 characters, every one but the last exactly 60 |
| ConsensusUtils.LinesSplit | pipeline_utils/consensus_utils.py:86-89 | newline-terminated lines split back into the lines |
| ConsensusUtils.ChunksHaveNoNewline | pipeline_utils/consensus_utils.py:88-89 | chunks of a one-line sequence hold no newline |
| ConsensusUtils.FastaRecordReadBack | pipeline_utils/consensus_utils.py:86-89 | a record reads back as the header line and the 60-column lines, whose concatenation is the sequence |
| ConsensusUtils.ChunksStep | pipeline_utils/consensus_utils.py:88-89 | each step of the `range(0, len, 60)` loop writes the next chunk |
| ConsensusUtils.WriteRecord | pipeline_utils/consensus_utils.py:86-89 | the write loop produces the wrapped record |
| ConsensusUtils.DirJobsSound | pipeline_utils/consensus_utils.py:115-127 | each job of a folder is one of its alignment files, with its full path and the mirrored output folder |
| ConsensusUtils.DirJobsComplete | pipeline_utils/consensus_utils.py:124-127 | every alignment file of a folder becomes a job |
| ConsensusUtils.JobsAreTheAlignmentFiles | pipeline_utils/consensus_utils.py:115-127 | the jobs are exactly the `.clustal`, `.aln` and `.fasta` files of the walk; `.` maps to the output root |
| ConsensusUtils.FormatOfJobs | pipeline_utils/consensus_utils.py:143 | an alignment file is read as FASTA exactly when it ends in `.fasta` and in neither `.clustal` nor `.aln` |
| ConsensusUtils.CollectJobs | pipeline_utils/consensus_utils.py:115-127 | the walk loop collects the jobs `JobsOf` specifies |
| ConsensusUtils.CollectDir | pipeline_utils/consensus_utils.py:124-127 | the file loop of one folder collects its jobs |
| ConsensusUtils.ReadJobs | pipeline_utils/consensus_utils.py:146-155 | every alignment kept is well formed: at least one row, all rows of one length |
| ConsensusUtils.PathsOfMeaning | pipeline_utils/consensus_utils.py:80-81 | a consensus FASTA or report is written exactly for each alignment that was read |
| ConsensusUtils.SummariesSnoc | pipeline_utils/consensus_utils.py:153 | appending a file's name and consensus keeps the summaries in job order |
| ConsensusUtils.CombinedHeaderDoubled | pipeline_utils/consensus_utils.py:99-162 | as written, `A.aln` gets `>A_consensus` in its own file but `>A_consensus_consensus` in the combined file |
| ConsensusUtils.ConsensusNameOfA | pipeline_utils/consensus_utils.py:99 | the file `A.aln` is named `A_consensus` |
| ConsensusUtils.SingleAsWritten | pipeline_utils/consensus_utils.py:158-164 | as written, one alignment gives one record headed with its name plus a second `_consensus` |
| ConsensusUtils.DoubledHeaderDiffers | pipeline_utils/consensus_utils.py:162 | a header with a non-empty suffix that does not start a new line gives a different record |
| ConsensusUtils.CombinedIsPerFileRecords | pipeline_utils/consensus_utils.py:158-164 | the corrected combined file is each file's own record, in job order |
| ConsensusUtils.CombinedAsWrittenRecords | pipeline_utils/consensus_utils.py:158-164 | the combined file as written is, in job order, each summary's record headed with its name plus `_consensus` once more |
| ConsensusUtils.FastaStoredSnoc | pipeline_utils/consensus_utils.py:80-89 | a job that is read stores its own consensus record at its FASTA path; each other path keeps the record of the last job written there |
| ConsensusUtils.ReportsStoredSnoc | pipeline_utils/consensus_utils.py:81-95 | a job that is read stores its column-rule report at its report path; each other path keeps the report of the last job written there |
| ConsensusUtils.CombinedAdded | pipeline_utils/consensus_utils.py:158-164 | writing the combined file adds only that path and keeps every other per-file record |
| ConsensusUtils.ConsensusForDirectory | pipeline_utils/consensus_utils.py:104-165 | summaries of every alignment read. Each gets a consensus FASTA holding its record and a report whose rows satisfy the column rule, with the last job at a path winning. The combined file is written exactly when something was read and holds the records as written, each name suffixed with `_consensus` again |
| ConsensusUtils.ProcessJobs | pipeline_utils/consensus_utils.py:136-155 | gives the summaries and writes the per-file outputs of exactly the alignments read. Each FASTA holds its record and each report satisfies the column rule against its alignment, with the last job at a path winning |
| ConsensusUtils.ProcessJob | pipeline_utils/consensus_utils.py:138-155 | one job adds its summary and outputs exactly when its alignment is read, and changes nothing otherwise. A job that is read stores its record and column-rule report at its own paths, keeping the stored contents of the others |
| ConsensusUtils.JobRecorded | pipeline_utils/consensus_utils.py:138-155 | a job that is read extends the summaries in job order and adds exactly its own FASTA and report paths |
| ConsensusUtils.WriteCombined | pipeline_utils/consensus_utils.py:158-164 | the write loop gives the combined file as written, each name suffixed with `_consensus` again |
| PdbUtils.KeepAllowed | pipeline_utils/pdb_utils.py:125-126 | only alphanumerics, `_` and `-` remain |
| PdbUtils.KeepAllowedIsSubsequence | pipeline_utils/pdb_utils.py:125-126 | the kept characters are a subsequence of the query id, in order |
| PdbUtils.KeepAllowedAllAllowed | pipeline_utils/pdb_utils.py:125-126 | an id of allowed characters is kept whole |
| PdbUtils.RStripAfterFilter | pipeline_utils/pdb_utils.py:127 | the `rstrip()` after filtering never removes anything |
| PdbUtils.FolderName | pipeline_utils/pdb_utils.py:125-129 | allowed characters only, the first min(len, 100) of the filtered string, and a subsequence of the query |
| PdbUtils.FolderNameIdempotent | pipeline_utils/pdb_utils.py:125-129 | sanitising twice is sanitising once |
| PdbUtils.FolderNamesCollide | pipeline_utils/pdb_utils.py:125-134 | `Q 1` and `Q1` share one folder |
| PdbUtils.DescriptorParsesShape | pipeline_utils/pdb_utils.py:140-145 | a parsed descriptor splits on the pipe character into at least three fields, the first exactly `pdb`, the second the code and the third the chain |
| PdbUtils.DescriptorShapeParses | pipeline_utils/pdb_utils.py:140-145 | every such descriptor parses, extra fields ignored |
| PdbUtils.ValidCodesSnoc | pipeline_utils/pdb_utils.py:136-146 | a row adds its code to the set exactly when its descriptor parses |
| PdbUtils.RegistryKeys | pipeline_utils/pdb_utils.py:136-154 | the registry's keys are exactly the valid codes, once each, in order of first appearance |
| PdbUtils.StepHit | pipeline_utils/pdb_utils.py:143-154 | a row replaces the entry for its code only when the code is new or its e-value is strictly smaller |
| PdbUtils.WinnerLast | pipeline_utils/pdb_utils.py:148-154 | a row strictly better than all earlier rows of its code wins |
| PdbUtils.WinnerKept | pipeline_utils/pdb_utils.py:148-154 | a later row that is not strictly better leaves the winner in place |
| PdbUtils.NoRowWithCode | pipeline_utils/pdb_utils.py:143-146 | a code not in the set occurs in no row |
| PdbUtils.KeepsBestFor | pipeline_utils/pdb_utils.py:139-154 | a code's entry comes whole from its winning row, the earliest of minimal e-value |
| PdbUtils.RegistryKeepsBest | pipeline_utils/pdb_utils.py:139-154 | every stored entry comes whole from its code's winning row |
| PdbUtils.RegistryEvalueIsMinimum | pipeline_utils/pdb_utils.py:148 | the stored e-value is at most that of every row with the code |
| PdbUtils.TwoRowExample | pipeline_utils/pdb_utils.py:139-154 | of two rows for `1ABC`, the one with the smaller e-value is stored |
| PdbUtils.EntryOfExample | pipeline_utils/pdb_utils.py:140-145 | the descriptor `pdb|1ABC|A` gives code `1ABC` and a hit of chain `A` with the row's scores |
| PdbUtils.FetchedSnoc | pipeline_utils/pdb_utils.py:18-35 | each code adds its file exactly when the normalised code is non-empty and the fetch succeeds |
| PdbUtils.WorkerStep | pipeline_utils/pdb_utils.py:14-40 | a worker requests a non-empty normalised code only when its file is absent, adds the file only on success, and touches nothing else |
| PdbUtils.WorkersFiles | pipeline_utils/pdb_utils.py:54-68 | the workers add exactly the fetched files, keep every file and registry, and only append requests |
| PdbUtils.WorkersEffectSnoc | pipeline_utils/pdb_utils.py:54-68 | the workers run one after another in the order of the sorted codes |
| PdbUtils.WorkersRequests | pipeline_utils/pdb_utils.py:18-30 | every request is a non-empty normalised code of the set whose file was not there before |
| PdbUtils.SecondRunOnlyRetriesFailures | pipeline_utils/pdb_utils.py:25-27 | a second download of the same set requests only codes whose first fetch failed |
| PdbUtils.CachedAndFailedExample | pipeline_utils/pdb_utils.py:42-68 | with `A.pdb` present and `B` failing, only `B` is requested and no file is added |
| PdbUtils.CachedWorker | pipeline_utils/pdb_utils.py:18-27 | the worker for `A` finds `A.pdb` already present and changes nothing, sending no request |
| PdbUtils.FailedWorker | pipeline_utils/pdb_utils.py:18-40 | the worker for `B` sends one request and, when the fetch fails, adds no file |
| PdbUtils.DownloadAB | pipeline_utils/pdb_utils.py:54-63 | downloading `{A, B}` runs the worker for `A`, then the one for `B` |
| PdbUtils.CachedThenFailed | pipeline_utils/pdb_utils.py:14-40 | the two workers in that order leave `A.pdb` alone and record the one request for `B` |
| PdbUtils.GroupOf | pipeline_utils/pdb_utils.py:118-123 | a query's group holds only rows of that query from the report |
| PdbUtils.QueryWithoutCodes | pipeline_utils/pdb_utils.py:156-167 | a query without a valid code writes nothing and downloads nothing |
| PdbUtils.QueryWritesRegistry | pipeline_utils/pdb_utils.py:156-165 | a query with valid codes writes its registry to `blast_hits.json` in its folder and removes no file |
| PdbUtils.QueriesEffectRegistries | pipeline_utils/pdb_utils.py:118-167 | a report keeps every file, and each registry is unchanged or is the registry of one of its queries |
| PdbUtils.QueriesEffectSnoc | pipeline_utils/pdb_utils.py:118-167 | the queries are processed one after another, each with its own group of rows |
| PdbUtils.ReportsEffectSnoc | pipeline_utils/pdb_utils.py:107-117 | a report is processed, in its folder, exactly when its name ends in `.tsv`; other files change nothing |
| PdbUtils.BuildRegistry | pipeline_utils/pdb_utils.py:136-154 | the row loop builds the registry and the code set that the fold specifies |
| PdbUtils.PdbWorkspace.constructor | pipeline_utils/pdb_utils.py:75-80 | starts with no registry, the files already present and no request |
| PdbUtils.PdbWorkspace.DownloadWorker | pipeline_utils/pdb_utils.py:14-40 | the workspace changes as `WorkerEffect` specifies |
| PdbUtils.PdbWorkspace.DownloadAll | pipeline_utils/pdb_utils.py:42-73 | the workspace changes as `DownloadEffect` specifies: the sorted codes, one worker each |
| PdbUtils.PdbWorkspace.ProcessQuery | pipeline_utils/pdb_utils.py:123-167 | the workspace changes as `QueryEffect` specifies |
| PdbUtils.PdbWorkspace.ProcessReport | pipeline_utils/pdb_utils.py:107-167 | the workspace changes as `ReportEffect` specifies: the queries in sorted order |
| PdbUtils.ExtractPdbCodes | pipeline_utils/pdb_utils.py:75-175 | the workspace changes as `ReportsEffect` specifies, report by report |
| ModelUtils.SanitizeChar | pipeline_utils/model_utils.py:41 | the result is allowed; an allowed character is kept, any other becomes `_` |
| ModelUtils.SanitizeId | pipeline_utils/model_utils.py:41 | same length, each character sanitised in place |
| ModelUtils.SanitizeIdMeaning | pipeline_utils/model_utils.py:41 | length kept, result all allowed, allowed characters kept, all others `_` |
| ModelUtils.SanitizeIdFixed | pipeline_utils/model_utils.py:41 | an id of allowed characters is unchanged |
| ModelUtils.SanitizeIdIdempotent | pipeline_utils/model_utils.py:41 | sanitising twice is sanitising once |
| ModelUtils.SanitizeIdCollision | pipeline_utils/model_utils.py:41-42 | two ids that differ only in one disallowed character (a pipe or a dot before `P1`) map to the same file name `sp_P1` |
| ModelUtils.PathsSnoc | pipeline_utils/model_utils.py:38-47 | one more record appends its output path after the others |
| ModelUtils.WriteSnoc | pipeline_utils/model_utils.py:40-47 | one more record writes its own file after the others |
| ModelUtils.WriteAllKeys | pipeline_utils/model_utils.py:40-47 | the files present afterwards are those before plus one per record |
| ModelUtils.RecordPathInjective | pipeline_utils/model_utils.py:34-42 | records whose sanitised ids differ go to different files |
| ModelUtils.SanitizeIdNoSlash | pipeline_utils/model_utils.py:41-42 | a record's file name is relative |
| ModelUtils.WriteAllLastWins | pipeline_utils/model_utils.py:40-47 | a record's file holds it, unless a later record has the same sanitised id |
| ModelUtils.WriteAllLast | pipeline_utils/model_utils.py:40-47 | the last record's file holds that record |
| ModelUtils.WriteAllOther | pipeline_utils/model_utils.py:40-47 | the last record touches no file but its own |
| ModelUtils.ResultsAreTheNonEmptyFiles | pipeline_utils/model_utils.py:25-50 | in a successful run every file parsed; the results are exactly the files with records, each mapped to its paths in record order |
| ModelUtils.FilesEffectStep | pipeline_utils/model_utils.py:25-50 | in a successful run, the last file parsed and adds its paths to the results exactly when it has records |
| ModelUtils.AllFilesRead | pipeline_utils/model_utils.py:25-57 | a successful run parsed every file |
| ModelUtils.ResultsKeys | pipeline_utils/model_utils.py:25-50 | the results hold exactly the files that parsed to at least one record |
| ModelUtils.ResultsValues | pipeline_utils/model_utils.py:38-50 | each result is its file's record paths, in record order |
| ModelUtils.NothingToPrepare | pipeline_utils/model_utils.py:15-18 | no listing or no `.fasta` file returns `None` and writes nothing |
| ModelUtils.FailureSticks | pipeline_utils/model_utils.py:55-57 | after a parse failure the remaining files change nothing |
| ModelUtils.WriteRecords | pipeline_utils/model_utils.py:38-47 | the record loop writes and lists the files the functions specify |
| ModelUtils.PrepareForModelling | pipeline_utils/model_utils.py:9-57 | the stage returns and writes what `Preparation` specifies |
| ModellerUtils.AliTextLines | pipeline_utils/modeller_utils.py:78-83 | the `.ali` text is exactly the three lines `>P1;code`, `sequence:code:::::::0.00: 0.00` and `sequence*` |
| ModellerUtils.AliTextInjective | pipeline_utils/modeller_utils.py:78-83 | different codes or sequences give different `.ali` texts |
| ModellerUtils.DigitRunEnd | pipeline_utils/modeller_utils.py:100 | the end of a maximal run of digits |
| ModellerUtils.MatchAtIsDecimal | pipeline_utils/modeller_utils.py:100 | a match is `\d+\.\d+` at that position with no digit after it |
| ModellerUtils.SearchDecimalLeftmost | pipeline_utils/modeller_utils.py:100 | `re.search` returns the leftmost match, or none when no position matches |
| ModellerUtils.FirstHitLeftmost | pipeline_utils/modeller_utils.py:100 | a search that finds something returns the leftmost position that matches; one that finds nothing saw no match in the range |
| ModellerUtils.ScanDecidedByFirstStop | pipeline_utils/modeller_utils.py:98-106 | the first resolution or `ATOM` line decides: a resolution line gives its number or `N/A`, an `ATOM` line `N/A` |
| ModellerUtils.ScanWithoutStop | pipeline_utils/modeller_utils.py:98-110 | no resolution line before `ATOM` gives `N/A` |
| ModellerUtils.RemarkAfterAtomIgnored | pipeline_utils/modeller_utils.py:105-106 | a resolution line after the first `ATOM` line is never seen |
| ModellerUtils.GetPdbResolution | pipeline_utils/modeller_utils.py:91-110 | the line loop returns the resolution `ResolutionOf` specifies; an unreadable file gives `Erro` |
| ModellerUtils.ChainsPresentMeansNoMissingChain | pipeline_utils/modeller_utils.py:131-139 | reading the chains raises nothing exactly when every entry whose `.pdb` file exists has a `chain` |
| ModellerUtils.ChainsPresentPrefix | pipeline_utils/modeller_utils.py:131-139 | an entry loop that raises nothing also raises nothing on its first entries |
| ModellerUtils.CandidatesAreThePresentEntries | pipeline_utils/modeller_utils.py:131-144 | the candidates are exactly the registry entries whose `.pdb` file exists, in registry order, with the score defaults |
| ModellerUtils.AllPresentAllCandidates | pipeline_utils/modeller_utils.py:131-144 | when every file exists, there is one candidate per entry, in order |
| ModellerUtils.BuildCandidates | pipeline_utils/modeller_utils.py:129-144 | the entry loop raises exactly when a present entry has no `chain`; otherwise it builds the candidates that `CandidatesOf` specifies |
| ModellerUtils.Insert | pipeline_utils/modeller_utils.py:151 | inserting adds one element |
| ModellerUtils.Rank | pipeline_utils/modeller_utils.py:151 | ranking keeps the length |
| ModellerUtils.InsertPermutes | pipeline_utils/modeller_utils.py:151 | inserting adds exactly that element |
| ModellerUtils.InsertRanked | pipeline_utils/modeller_utils.py:151 | inserting into a ranked list keeps it ranked |
| ModellerUtils.RankedTail | pipeline_utils/modeller_utils.py:151 | the tail of a ranked list is ranked |
| ModellerUtils.RankedCons | pipeline_utils/modeller_utils.py:151 | a candidate that no element of a ranked list ranks before can go in front |
| ModellerUtils.RankSortsAndPermutes | pipeline_utils/modeller_utils.py:151 | the ranking is a permutation ordered by identity descending, then e-value ascending, then bitscore descending |
| ModellerUtils.InsertStable | pipeline_utils/modeller_utils.py:151 | inserting keeps the relative order of equal keys |
| ModellerUtils.RankStable | pipeline_utils/modeller_utils.py:151 | candidates with equal keys keep registry order |
| ModellerUtils.RankHeadIsBest | pipeline_utils/modeller_utils.py:151-163 | no candidate ranks before the first one |
| ModellerUtils.FirstValidPickShift | pipeline_utils/modeller_utils.py:188-199 | an invalid pick only moves the prompt on by one answer |
| ModellerUtils.ValidPickOf | pipeline_utils/modeller_utils.py:189-193 | an answer is a valid pick exactly when `int(answer.strip())` is in 1..number of candidates, and it picks candidate number `int - 1` |
| ModellerUtils.ManualAt | pipeline_utils/modeller_utils.py:188-199 | from answer `i` on, a valid pick is taken and any other answer moves on to the next |
| ModellerUtils.ManualTakesAt | pipeline_utils/modeller_utils.py:191-195 | an answer whose integer is in range chooses that candidate's code and chain |
| ModellerUtils.ManualSkipsAt | pipeline_utils/modeller_utils.py:191-199 | a non-integer or out-of-range answer only moves the prompt on |
| ModellerUtils.ManualPicksFirstValid | pipeline_utils/modeller_utils.py:188-199 | manual mode returns the candidate named by the first integer answer in 1..count |
| ModellerUtils.ManualWithoutValidPick | pipeline_utils/modeller_utils.py:188-199 | with no valid pick, the input runs out and nothing is chosen |
| ModellerUtils.FirstModeShift | pipeline_utils/modeller_utils.py:159-201 | an answer other than `1` or `2` only moves the prompt on by one answer |
| ModellerUtils.ModeDecidedByFirstMode | pipeline_utils/modeller_utils.py:159-169 | the first `1` or `2` decides: `1` takes the first candidate, `2` starts the manual prompt on the answers after it |
| ModellerUtils.ModeWithoutModeAnswer | pipeline_utils/modeller_utils.py:159-201 | with no `1` or `2`, the input runs out and nothing is chosen |
| ModellerUtils.ManualChoiceIsCandidate | pipeline_utils/modeller_utils.py:188-195 | a manual choice is the code and chain of one candidate |
| ModellerUtils.ModeChoiceIsCandidate | pipeline_utils/modeller_utils.py:159-199 | any choice is the code and chain of one candidate |
| ModellerUtils.SelectTemplate | pipeline_utils/modeller_utils.py:115-201 | the whole selection returns what `SelectionOf` specifies. No registry or no candidate gives no template. A registry `json.load` rejects, or a present entry without `chain`, raises |
| ModellerUtils.Prompt | pipeline_utils/modeller_utils.py:159-201 | the mode prompt loop returns the choice `Mode` specifies |
| ModellerUtils.ManualPrompt | pipeline_utils/modeller_utils.py:188-199 | the manual prompt loop returns the choice `Manual` specifies |
| ModellerUtils.AutomaticChoiceIsBest | pipeline_utils/modeller_utils.py:151-167 | answering `1` chooses a candidate that no other candidate ranks before |
| ModellerUtils.BestModel | pipeline_utils/modeller_utils.py:438-442 | a successful model with minimal DOPE (missing counts as 999999), the first on ties; none exactly when no model succeeded |

## Left out

- Network access is not modelled. RCSB downloads and the Clustal Omega
  REST calls are parameters: `outcome` for the downloads, `jobs` for
  Clustal Omega. The job id, the URLs and the five-second sleep are left
  out.
- `PdbUtils`: the thread pool of `baixar_pdb_files` is replaced by a
  sequential loop over the sorted codes. What this leaves out:
  - the order of `requests` is the order of the codes, not the order in
    which the workers run;
  - two codes that normalise to one path (`1abc` and `1ABC`): the model
    requests the second only when the first download failed. Under the
    pool both workers can find the file missing and both send a request.
- File writes are modelled as whole-file updates of a map or set.
  Partial writes, write errors and `os.makedirs` are not modelled.
- The `blastp` subprocess is not modelled: what it leaves at the report
  path is the parameter `produced`, and a raising `subprocess.run` is
  not modelled.
- The MODELLER engine is not modelled, nor is `run_modelling`, which
  drives it. Only the best-model pick is.
- `find_target_sequence` is not modelled. It walks directories for the
  target.
- The console table of manual template selection is not modelled.
- `main.py` is not part of this model: the menus and the calls between
  stages.
- pandas, Biopython `SeqIO` and `AlignIO` parsing are not modelled. Tables
  are sequences of already-parsed rows, FASTA files are maps from id to
  record, and alignments are sequences of equal-length rows.
  - A reader that raises is `None`.
  - `df.groupby(0)` is taken as the sorted queries with rows in file
    order.
- The text format of a FASTA record written by `SeqIO.write` is not
  modelled. The records are copied as values.
- The report text is not modelled: the TSV files written by pandas and
  the consensus report lines. The report is kept as its rows.
- Floating-point values are reals, and only their comparisons are
  modelled. Left out are:
  - the `:.1f` formatting;
  - `sys.float_info.max` as a float, beyond its exact value as a default;
  - IEEE rounding of the frequency and gap percentages.
- pandas `str.contains` is a regular-expression search. It is modelled
  as a case-insensitive substring test, so outputs that contain regular
  expression syntax are not modelled.
- Character classes are ASCII: `isalnum`, `isdigit`, `upper`, `lower`, `\d`.
  Unicode digits, which would make `int()` raise after `isdigit()` holds,
  are therefore not modelled.
- `random.choice` among tied residues is a nondeterministic pick. The
  contract holds for whichever residue is picked.
- Interactive input is a finite sequence of answers, and running out of
  answers ends the prompt loop with no choice. Python would raise
  `EOFError`.
- A Clustal Omega job that never reaches `FINISHED` or `ERROR` is the
  outcome `Stalled`. The source would poll forever.
- `ModellerUtils.Insert` (and `Rank`): `list.sort` is modelled as a stable
  insertion sort on a value. The in-place update of `available_hits` is
  not modelled.
- `os.listdir` and `os.walk` order is taken as given, in the listing
  parameter.
- The set iteration order of the filtered FASTA write is not modelled:
  the output is a map from id to record.
- `ConsensusUtils.ProcessJobs` states each report by the column rule
  rather than row by row, because the residue of a tie comes from
  `random.choice`.
- `ModellerUtils.SelectTemplate`: a `blast_hits.json` whose JSON is not an
  object of objects is not modelled. There `.items()` or `data[...]`
  raises a `TypeError` or `AttributeError`, which would be one more
  `Raised` case.
- `AlignUtils.AlignDomains` keeps each alignment as the text the service
  returned. Whether `AlignIO.read` accepts it is the job's `parses` flag.
- `FilterUtils.FilterByDomainsAndMethod` models a table that pandas cannot
  read, and a FASTA that cannot be parsed, as `None` inputs. The
  `FileNotFoundError` and generic exception branches collapse into
  that.

## Findings

| source | as written | input that shows it | evidently intended | confidence | as-written member | corrected member |
|---|---|---|---|---|---|---|
| pipeline_utils/consensus_utils.py:162 | the combined file heads each record `>{name}_consensus`, but `name` is the value returned at line 99, which already ends in `_consensus` | one alignment `A.aln`: its own file is headed `>A_consensus`, the combined file `>A_consensus_consensus` | each record of the combined file equals the record in the file's own consensus FASTA | not executed | ConsensusUtils.CombinedHeaderDoubled | ConsensusUtils.CombinedIsPerFileRecords |

The stage itself (`WriteCombined`, `ConsensusForDirectory`) writes the
combined file as the code does, `CombinedAsWritten`. `Combined` is the
intended text, proved to be the per-file records.
