/** Column consensus of a multiple alignment, its per-column report, the
    60-column FASTA output and the directory pass
    (pipeline_utils/consensus_utils.py). */
module ConsensusUtils {
  import opened Common

  const Gap: char := '-'
  const LineWidth: nat := 60
  const Unknown: string := "desconhecida"

  // ---------------------------------------------------------------------
  // Residue classes (consensus_utils.py:15-22, 71)
  // ---------------------------------------------------------------------

  const Hydrophobic: string := "hidrof\U{F3}bico"
  const Aromatic: string := "arom\U{E1}tico"
  const Polar: string := "polar"
  const Positive: string := "carregado positivo"
  const Negative: string := "carregado negativo"
  const Sulphur: string := "especial (enxofre)"
  const Flexible: string := "especial (flex\U{ED}vel)"
  const Cyclic: string := "especial (c\U{ED}clico)"

  /** The twenty residue letters the table knows. */
  const KnownResidues: string := "AVLIMFYWSTNQKRHDECGP"

  /** `residue_classes.get(aa, "desconhecida")`. */
  function ClassOf(aa: char): string
  {
    if aa in "AVLIM" then Hydrophobic
    else if aa in "FYW" then Aromatic
    else if aa in "STNQ" then Polar
    else if aa in "KRH" then Positive
    else if aa in "DE" then Negative
    else if aa == 'C' then Sulphur
    else if aa == 'G' then Flexible
    else if aa == 'P' then Cyclic
    else Unknown
  }

  /** A symbol has a class exactly when it is one of the twenty letters; the
      gap and every other symbol are "desconhecida". */
  lemma ClassKnownIff(aa: char)
    ensures ClassOf(aa) != Unknown <==> aa in KnownResidues
  {
  }

  // ---------------------------------------------------------------------
  // Column statistics (consensus_utils.py:42-58)
  // ---------------------------------------------------------------------

  /** An alignment as read: at least one row, every row of the same length. */
  predicate WellFormed(rows: seq<string>)
  {
    |rows| > 0 && forall k :: 0 <= k < |rows| ==> |rows[k]| == |rows[0]|
  }

  function Column(rows: seq<string>, pos: nat): (col: seq<char>)
    requires WellFormed(rows) && pos < |rows[0]|
    ensures |col| == |rows|
  {
    seq(|rows|, k requires 0 <= k < |rows| => rows[k][pos])
  }

  /** `contagem[c]`. */
  function Count(col: seq<char>, c: char): nat
  {
    if col == [] then 0 else (if col[0] == c then 1 else 0) + Count(col[1..], c)
  }

  lemma {:induction false} CountPositive(col: seq<char>, c: char)
    ensures Count(col, c) > 0 <==> c in col
  {
    if col != [] {
      CountPositive(col[1..], c);
      assert col == [col[0]] + col[1..];
    }
  }

  /** The keys of `sem_gaps`: the non-gap symbols in order of first
      appearance (a Counter keeps insertion order). */
  function NonGapSymbols(col: seq<char>): (r: seq<char>)
    ensures forall c :: c in r <==> c in col && c != Gap
    ensures Distinct(r)
  {
    if col == [] then []
    else
      var pre := NonGapSymbols(col[..|col| - 1]);
      var last := col[|col| - 1];
      assert col == col[..|col| - 1] + [last];
      if last == Gap || last in pre then pre else pre + [last]
  }

  /** No element is listed twice. */
  predicate Distinct(s: seq<char>)
  {
    forall i, j :: 0 <= i < j < |s| ==> s[i] != s[j]
  }

  /** `max(sem_gaps.values())` over the symbols `ds`, 0 for none. */
  function MaxCountOf(col: seq<char>, ds: seq<char>): (m: nat)
    ensures forall x :: x in ds ==> Count(col, x) <= m
    ensures ds != [] ==> exists x :: x in ds && Count(col, x) == m
    ensures ds == [] ==> m == 0
  {
    if ds == [] then 0
    else
      var rest := MaxCountOf(col, ds[1..]);
      var here := Count(col, ds[0]);
      assert forall x :: x in ds ==> x == ds[0] || x in ds[1..];
      if here >= rest then here else rest
  }

  function MaxCount(col: seq<char>): nat { MaxCountOf(col, NonGapSymbols(col)) }

  /** The symbols of `ds` whose count is `m`, in order. */
  function WithCount(col: seq<char>, ds: seq<char>, m: nat): (r: seq<char>)
    ensures forall x :: x in r <==> x in ds && Count(col, x) == m
  {
    if ds == [] then []
    else (if Count(col, ds[0]) == m then [ds[0]] else []) + WithCount(col, ds[1..], m)
  }

  /** `top_residuos`. */
  function Tops(col: seq<char>): seq<char> { WithCount(col, NonGapSymbols(col), MaxCount(col)) }

  /** No non-gap symbol occurs more often than the top count. */
  lemma MaxCountBound(col: seq<char>, y: char)
    requires y != Gap
    ensures Count(col, y) <= MaxCount(col)
  {
    CountPositive(col, y);
  }

  /** A tied residue has the top count. */
  lemma TopHasMaxCount(col: seq<char>, x: char)
    requires x in Tops(col)
    ensures x != Gap && x in col && Count(col, x) == MaxCount(col)
  {
  }

  /** A non-gap symbol of the column that no other symbol outnumbers is tied. */
  lemma MostFrequentIsTop(col: seq<char>, x: char)
    requires x != Gap && x in col
    requires forall y :: y != Gap ==> Count(col, y) <= Count(col, x)
    ensures x in Tops(col)
  {
    var ds := NonGapSymbols(col);
    var m := MaxCount(col);
    assert x in ds;
    var w :| w in ds && Count(col, w) == m;
    assert Count(col, w) <= Count(col, x);
    assert Count(col, x) <= m;
  }

  /** The tied residues are exactly the non-gap symbols of the column that
      occur at least as often as every other non-gap symbol. */
  lemma TopsAreMostFrequent(col: seq<char>, x: char)
    ensures x in Tops(col) ==> x != Gap && x in col
    ensures x in Tops(col) ==> forall y :: y != Gap ==> Count(col, y) <= Count(col, x)
    ensures (x != Gap && x in col && forall y :: y != Gap ==> Count(col, y) <= Count(col, x)) ==> x in Tops(col)
  {
    if x in Tops(col) {
      TopHasMaxCount(col, x);
      forall y | y != Gap ensures Count(col, y) <= Count(col, x) { MaxCountBound(col, y); }
    }
    if x != Gap && x in col && forall y :: y != Gap ==> Count(col, y) <= Count(col, x) {
      MostFrequentIsTop(col, x);
    }
  }

  /** There is more than one tied residue exactly when some other residue
      of the column matches the count of a tied one. */
  lemma TieIff(col: seq<char>, aa: char)
    requires aa in Tops(col)
    ensures |Tops(col)| > 1 <==> exists b :: b in col && b != Gap && b != aa && Count(col, b) == Count(col, aa)
  {
    var tops := Tops(col);
    TopHasMaxCount(col, aa);
    if |tops| > 1 {
      var b := if tops[0] != aa then tops[0] else tops[1];
      assert tops[0] in tops && tops[1] in tops;
      TopsDistinct(col);
      assert tops[0] != tops[1];
      TopHasMaxCount(col, b);
    }
    if exists b :: b in col && b != Gap && b != aa && Count(col, b) == Count(col, aa) {
      var b :| b in col && b != Gap && b != aa && Count(col, b) == Count(col, aa);
      assert b in NonGapSymbols(col);
      TwoDistinct(tops, aa, b);
    }
  }

  /** No residue is listed twice among the tied ones. */
  lemma TopsDistinct(col: seq<char>)
    ensures Distinct(Tops(col))
  {
    WithCountDistinct(col, NonGapSymbols(col), MaxCount(col));
  }

  lemma TwoDistinct(s: seq<char>, a: char, b: char)
    requires a in s && b in s && a != b
    ensures |s| > 1
  {
  }

  /** There are no tied residues exactly when the column is all gaps. */
  lemma TopsEmptyIff(col: seq<char>)
    ensures Tops(col) == [] <==> forall k :: 0 <= k < |col| ==> col[k] == Gap
  {
    var ds := NonGapSymbols(col);
    if forall k :: 0 <= k < |col| ==> col[k] == Gap {
      if ds != [] { assert ds[0] in col; }
    } else {
      var k :| 0 <= k < |col| && col[k] != Gap;
      assert col[k] in ds;
      var w :| w in ds && Count(col, w) == MaxCount(col);
      assert w in Tops(col);
    }
  }

  // ---------------------------------------------------------------------
  // One column of the report (consensus_utils.py:44-74)
  // ---------------------------------------------------------------------

  datatype Alert =
    | NoAlert
    | AllGaps
    | Tie(residues: seq<char>)
    | LowFrequency(residue: char, percent: real)
    | GapRich(percent: real)

  /** One row of the per-file report. */
  datatype ReportRow = ReportRow(position: nat, residue: char, frequency: real,
                                 sequences: nat, residueClass: string, alert: Alert)

  /** `freq_consenso`: the share of the column, gaps included, held by the
      most frequent residue, in percent. */
  function Frequency(col: seq<char>): real
    requires |col| > 0
  {
    (MaxCount(col) as real / |col| as real) * 100.0
  }

  /** `freq_gaps`. */
  function GapFraction(col: seq<char>): real
    requires |col| > 0
  {
    Count(col, Gap) as real / |col| as real
  }

  /** The alert of a column with at least one residue: a tie first, then a
      share under 50%, then a gap fraction over the limit. */
  function AlertFor(col: seq<char>, limit: real): Alert
    requires |col| > 0 && Tops(col) != []
  {
    var tops := Tops(col);
    if |tops| > 1 then Tie(tops)
    else if Frequency(col) < 50.0 then LowFrequency(tops[0], Frequency(col))
    else if GapFraction(col) > limit then GapRich(GapFraction(col) * 100.0)
    else NoAlert
  }

  /** The share is under 50% exactly when twice the top count is less than
      the number of sequences. */
  lemma LowFrequencyIff(col: seq<char>)
    requires |col| > 0
    ensures Frequency(col) < 50.0 <==> 2 * MaxCount(col) < |col|
  {
    RatioBelowHalf(MaxCount(col) as real, |col| as real);
  }

  lemma RatioBelowHalf(m: real, n: real)
    requires n > 0.0
    ensures (m / n) * 100.0 < 50.0 <==> 2.0 * m < n
  {
    var f := m / n;
    assert f * n == m;
    if f < 0.5 { assert f * n < 0.5 * n; }
    if 2.0 * m < n { assert f * n < 0.5 * n; }
  }

  /** What the loop body records for column `pos`: the consensus symbol and
      the report row. */
  predicate ColumnOutcome(col: seq<char>, pos: nat, limit: real, aa: char, row: ReportRow)
    requires |col| > 0
  {
    if Tops(col) == [] then
      aa == Gap && row == ReportRow(pos + 1, Gap, 0.0, |col|, ClassOf(Gap), AllGaps)
    else
      aa in Tops(col) && row == ReportRow(pos + 1, aa, Frequency(col), |col|, ClassOf(aa), AlertFor(col, limit))
  }

  /** The symbol chosen for a column with any residue is a residue of
      maximal count, never the gap, and its class is looked up; an all-gap
      column gives the gap with frequency 0 and the all-gap alert. */
  lemma ColumnOutcomeMeaning(col: seq<char>, pos: nat, limit: real, aa: char, row: ReportRow)
    requires |col| > 0 && ColumnOutcome(col, pos, limit, aa, row)
    ensures row.position == pos + 1 && row.residue == aa && row.sequences == |col|
    ensures row.residueClass == ClassOf(aa)
    ensures (forall k :: 0 <= k < |col| ==> col[k] == Gap) ==>
              aa == Gap && row.frequency == 0.0 && row.alert == AllGaps
    ensures (exists k :: 0 <= k < |col| && col[k] != Gap) ==>
              && aa != Gap && aa in col
              && (forall y :: y != Gap ==> Count(col, y) <= Count(col, aa))
              && row.frequency == (Count(col, aa) as real / |col| as real) * 100.0
              && (row.alert.Tie? <==> exists b :: b in col && b != Gap && b != aa && Count(col, b) == Count(col, aa))
  {
    TopsEmptyIff(col);
    if Tops(col) != [] {
      TopHasMaxCount(col, aa);
      TopsAreMostFrequent(col, aa);
      TieIff(col, aa);
      AlertTieIff(col, limit);
    }
  }

  /** The tie alert is raised exactly when more than one residue is tied. */
  lemma AlertTieIff(col: seq<char>, limit: real)
    requires |col| > 0 && Tops(col) != []
    ensures AlertFor(col, limit).Tie? <==> |Tops(col)| > 1
  {
  }

  /** The filter keeps distinct symbols distinct. */
  lemma {:induction false} WithCountDistinct(col: seq<char>, ds: seq<char>, m: nat)
    requires Distinct(ds)
    ensures Distinct(WithCount(col, ds, m))
  {
    if ds != [] {
      var rest := ds[1..];
      assert Distinct(rest) by {
        forall i, j | 0 <= i < j < |rest| ensures rest[i] != rest[j] { assert rest[i] == ds[i + 1] && rest[j] == ds[j + 1]; }
      }
      WithCountDistinct(col, rest, m);
      assert ds[0] !in rest;
      assert ds[0] !in WithCount(col, rest, m);
    }
  }

  /** `consenso` and `relatorio` for an alignment: one symbol and one report
      row per column, in column order; every tie is broken by an arbitrary
      pick among the tied residues. */
  method BuildConsensus(rows: seq<string>, limit: real) returns (consensus: string, report: seq<ReportRow>)
    requires WellFormed(rows)
    ensures |consensus| == |rows[0]| && |report| == |rows[0]|
    ensures forall p :: 0 <= p < |rows[0]| ==> ColumnOutcome(Column(rows, p), p, limit, consensus[p], report[p])
  {
    consensus := [];
    report := [];
    var size := |rows[0]|;
    var pos := 0;
    while pos < size
      invariant 0 <= pos <= size
      invariant |consensus| == pos && |report| == pos
      invariant forall p :: 0 <= p < pos ==> ColumnOutcome(Column(rows, p), p, limit, consensus[p], report[p])
    {
      var col := Column(rows, pos);
      var aa, row := ColumnStep(col, pos, limit);
      ghost var c0, r0 := consensus, report;
      consensus := consensus + [aa];
      report := report + [row];
      assert consensus[pos] == aa && report[pos] == row;
      forall p | 0 <= p < pos
        ensures ColumnOutcome(Column(rows, p), p, limit, consensus[p], report[p])
      {
        assert consensus[p] == c0[p] && report[p] == r0[p];
      }
      pos := pos + 1;
    }
  }

  /** The loop body for one column. */
  method ColumnStep(col: seq<char>, pos: nat, limit: real) returns (aa: char, row: ReportRow)
    requires |col| > 0
    ensures ColumnOutcome(col, pos, limit, aa, row)
  {
    var tops := Tops(col);
    if tops == [] {
      aa := Gap;
      row := ReportRow(pos + 1, Gap, 0.0, |col|, ClassOf(Gap), AllGaps);
    } else {
      if |tops| > 1 {
        aa :| aa in tops;
      } else {
        aa := tops[0];
      }
      row := ReportRow(pos + 1, aa, Frequency(col), |col|, ClassOf(aa), AlertFor(col, limit));
    }
  }

  /** The consensus relation for a whole alignment, per column. */
  predicate IsConsensus(rows: seq<string>, limit: real, consensus: string)
    requires WellFormed(rows)
  {
    |consensus| == |rows[0]| &&
    forall p :: 0 <= p < |rows[0]| ==>
      var col := Column(rows, p);
      if Tops(col) == [] then consensus[p] == Gap else consensus[p] in Tops(col)
  }

  /** The symbols `BuildConsensus` produces form a consensus. */
  lemma OutcomesGiveConsensus(rows: seq<string>, limit: real, consensus: string, report: seq<ReportRow>)
    requires WellFormed(rows)
    requires |consensus| == |rows[0]| && |report| == |rows[0]|
    requires forall p :: 0 <= p < |rows[0]| ==> ColumnOutcome(Column(rows, p), p, limit, consensus[p], report[p])
    ensures IsConsensus(rows, limit, consensus)
  {
    forall p | 0 <= p < |rows[0]|
      ensures var col := Column(rows, p); if Tops(col) == [] then consensus[p] == Gap else consensus[p] in Tops(col)
    {
      assert ColumnOutcome(Column(rows, p), p, limit, consensus[p], report[p]);
    }
  }

  // ---------------------------------------------------------------------
  // FASTA output wrapped at 60 columns (consensus_utils.py:86-89, 160-164)
  // ---------------------------------------------------------------------

  /** `seq[i:i+60]` for `i` in `range(0, len(seq), 60)`. */
  function Chunks(s: string): (r: seq<string>)
    ensures Concat(r) == s
    ensures forall k :: 0 <= k < |r| ==> 0 < |r[k]| <= LineWidth
    ensures forall k :: 0 <= k < |r| - 1 ==> |r[k]| == LineWidth
    ensures |r| == (|s| + LineWidth - 1) / LineWidth
    decreases |s|
  {
    if s == [] then []
    else if |s| <= LineWidth then [s]
    else
      var rest := Chunks(s[LineWidth..]);
      assert s == s[..LineWidth] + s[LineWidth..];
      [s[..LineWidth]] + rest
  }

  /** Each chunk followed by a newline. */
  function Lines(parts: seq<string>): string
  {
    if parts == [] then [] else parts[0] + "\n" + Lines(parts[1..])
  }

  /** The text of a FASTA record as the stage writes it. */
  function FastaRecord(header: string, sequence: string): string
  {
    ">" + header + "\n" + Lines(Chunks(sequence))
  }

  lemma {:induction false} LinesSplit(parts: seq<string>)
    requires forall k :: 0 <= k < |parts| ==> '\n' !in parts[k]
    ensures Split(Lines(parts), '\n') == parts + [[]]
  {
    if parts != [] {
      LinesSplit(parts[1..]);
      SplitCons(parts[0], '\n', Lines(parts[1..]));
      assert parts[0] + "\n" + Lines(parts[1..]) == parts[0] + ['\n'] + Lines(parts[1..]);
      assert parts == [parts[0]] + parts[1..];
    }
  }

  lemma ChunksHaveNoNewline(s: string)
    requires '\n' !in s
    ensures forall k :: 0 <= k < |Chunks(s)| ==> '\n' !in Chunks(s)[k]
    decreases |s|
  {
    if |s| > LineWidth {
      ChunksHaveNoNewline(s[LineWidth..]);
      var r := Chunks(s);
      forall k | 0 <= k < |r| ensures '\n' !in r[k] {
        if k == 0 {
          assert forall c :: c in s[..LineWidth] ==> c in s;
        } else {
          assert r[k] == Chunks(s[LineWidth..])[k - 1];
        }
      }
    } else if s != [] {
      assert Chunks(s) == [s];
    }
  }

  /** Read back, a record is its header line, then lines of at most 60
      symbols that spell the sequence, then nothing. */
  lemma FastaRecordReadBack(header: string, sequence: string)
    requires '\n' !in header && '\n' !in sequence
    ensures var lines := Split(FastaRecord(header, sequence), '\n');
      && lines == [">" + header] + Chunks(sequence) + [[]]
      && Concat(lines[1..|lines| - 1]) == sequence
  {
    var h := ">" + header;
    var cs := Chunks(sequence);
    var body := Lines(cs);
    ChunksHaveNoNewline(sequence);
    LinesSplit(cs);
    assert '\n' !in h;
    assert FastaRecord(header, sequence) == h + ['\n'] + body;
    SplitCons(h, '\n', body);
    var lines := Split(FastaRecord(header, sequence), '\n');
    assert lines == [h] + cs + [[]];
    assert lines[1..|lines| - 1] == cs;
  }

  lemma {:induction false} ChunksStep(s: string, i: nat)
    requires i < |s|
    ensures var e := if i + LineWidth < |s| then i + LineWidth else |s|;
      Chunks(s[i..]) == [s[i..e]] + Chunks(s[e..])
  {
    var t := s[i..];
    if |t| > LineWidth {
      assert t[..LineWidth] == s[i..i + LineWidth];
      assert t[LineWidth..] == s[i + LineWidth..];
    } else {
      assert Chunks(t) == [t];
      assert s[i..|s|] == t;
      assert s[|s|..] == [];
      assert Chunks(s[|s|..]) == [];
    }
  }

  /** The write loop of one record. */
  method WriteRecord(header: string, sequence: string) returns (text: string)
    ensures text == FastaRecord(header, sequence)
  {
    text := ">" + header + "\n";
    var i := 0;
    while i < |sequence|
      invariant 0 <= i <= |sequence|
      invariant text + Lines(Chunks(sequence[i..])) == FastaRecord(header, sequence)
      decreases |sequence| - i
    {
      var e := if i + LineWidth < |sequence| then i + LineWidth else |sequence|;
      ChunksStep(sequence, i);
      text := text + (sequence[i..e] + "\n");
      i := e;
    }
    assert sequence[i..] == [];
  }

  // ---------------------------------------------------------------------
  // The directory pass (consensus_utils.py:104-168)
  // ---------------------------------------------------------------------

  /** One directory visited by the walk: its path, its path relative to the
      input root ("." for the root itself) and its file names. */
  datatype WalkDir = WalkDir(root: string, rel: string, files: seq<string>)

  /** One alignment to process: its path, its file name and its output folder. */
  datatype Job = Job(input: string, name: string, outFolder: string)

  datatype Format = Clustal | Fasta

  predicate IsAlignmentFile(name: string)
  {
    EndsWith(name, ".clustal") || EndsWith(name, ".aln") || EndsWith(name, ".fasta")
  }

  /** The reader used for a file (consensus_utils.py:143). */
  function FormatOf(name: string): Format
  {
    if EndsWith(name, ".clustal") || EndsWith(name, ".aln") then Clustal else Fasta
  }

  /** The output folder mirrors the input folder (consensus_utils.py:117-122). */
  function OutFolder(outRoot: string, rel: string): string
  {
    if rel == "." then outRoot else PathJoin(outRoot, rel)
  }

  function DirJobs(d: WalkDir, outRoot: string): seq<Job>
    decreases |d.files|
  {
    if d.files == [] then []
    else
      var pre := DirJobs(WalkDir(d.root, d.rel, d.files[..|d.files| - 1]), outRoot);
      var f := d.files[|d.files| - 1];
      pre + (if IsAlignmentFile(f) then [Job(PathJoin(d.root, f), f, OutFolder(outRoot, d.rel))] else [])
  }

  /** `arquivos_a_processar`. */
  function JobsOf(walk: seq<WalkDir>, outRoot: string): seq<Job>
  {
    if walk == [] then [] else JobsOf(walk[..|walk| - 1], outRoot) + DirJobs(walk[|walk| - 1], outRoot)
  }

  lemma {:induction false} DirJobsSound(d: WalkDir, outRoot: string)
    ensures forall j :: j in DirJobs(d, outRoot) ==>
      IsAlignmentFile(j.name) && j.name in d.files && j.input == PathJoin(d.root, j.name)
      && j.outFolder == OutFolder(outRoot, d.rel)
    decreases |d.files|
  {
    if d.files != [] {
      DirJobsSound(WalkDir(d.root, d.rel, d.files[..|d.files| - 1]), outRoot);
      assert forall x :: x in d.files[..|d.files| - 1] ==> x in d.files;
    }
  }

  lemma {:induction false} DirJobsComplete(d: WalkDir, outRoot: string)
    ensures forall f :: f in d.files && IsAlignmentFile(f) ==>
      Job(PathJoin(d.root, f), f, OutFolder(outRoot, d.rel)) in DirJobs(d, outRoot)
    decreases |d.files|
  {
    if d.files != [] {
      var pre := d.files[..|d.files| - 1];
      DirJobsComplete(WalkDir(d.root, d.rel, pre), outRoot);
      assert d.files == pre + [d.files[|d.files| - 1]];
    }
  }

  /** Every file of the walk with an alignment extension, and no other,
      becomes a job whose output folder mirrors its folder. */
  lemma {:induction false} JobsAreTheAlignmentFiles(walk: seq<WalkDir>, outRoot: string)
    ensures forall j :: j in JobsOf(walk, outRoot) ==>
      IsAlignmentFile(j.name) &&
      exists d :: d in walk && j.name in d.files && j.input == PathJoin(d.root, j.name)
                  && j.outFolder == OutFolder(outRoot, d.rel)
    ensures forall d, f :: d in walk && f in d.files && IsAlignmentFile(f) ==>
      Job(PathJoin(d.root, f), f, OutFolder(outRoot, d.rel)) in JobsOf(walk, outRoot)
  {
    if walk != [] {
      var pre := walk[..|walk| - 1];
      var last := walk[|walk| - 1];
      JobsAreTheAlignmentFiles(pre, outRoot);
      DirJobsSound(last, outRoot);
      DirJobsComplete(last, outRoot);
      assert walk == pre + [last];
      forall j | j in JobsOf(walk, outRoot)
        ensures IsAlignmentFile(j.name) &&
          exists d :: d in walk && j.name in d.files && j.input == PathJoin(d.root, j.name)
                      && j.outFolder == OutFolder(outRoot, d.rel)
      {
        if j in JobsOf(pre, outRoot) {
          var d :| d in pre && j.name in d.files && j.input == PathJoin(d.root, j.name)
                      && j.outFolder == OutFolder(outRoot, d.rel);
          assert d in walk;
        } else {
          assert j in DirJobs(last, outRoot);
        }
      }
    }
  }

  /** Clustal is used exactly for `.clustal` and `.aln` files. */
  lemma FormatOfJobs(j: Job)
    requires IsAlignmentFile(j.name)
    ensures FormatOf(j.name) == Fasta <==> EndsWith(j.name, ".fasta") && !EndsWith(j.name, ".clustal") && !EndsWith(j.name, ".aln")
  {
  }

  /** The walk loop collecting the jobs. */
  method CollectJobs(walk: seq<WalkDir>, outRoot: string) returns (jobs: seq<Job>)
    ensures jobs == JobsOf(walk, outRoot)
  {
    jobs := [];
    var i := 0;
    while i < |walk|
      invariant 0 <= i <= |walk|
      invariant jobs == JobsOf(walk[..i], outRoot)
    {
      assert walk[..i + 1][..i] == walk[..i];
      var found := CollectDir(walk[i], outRoot);
      jobs := jobs + found;
      i := i + 1;
    }
    assert walk[..i] == walk;
  }

  /** The inner loop over the files of one directory. */
  method CollectDir(d: WalkDir, outRoot: string) returns (jobs: seq<Job>)
    ensures jobs == DirJobs(d, outRoot)
  {
    var out := if d.rel == "." then outRoot else PathJoin(outRoot, d.rel);
    jobs := [];
    var k := 0;
    while k < |d.files|
      invariant 0 <= k <= |d.files|
      invariant jobs == DirJobs(WalkDir(d.root, d.rel, d.files[..k]), outRoot)
    {
      var f := d.files[k];
      assert d.files[..k + 1][..k] == d.files[..k];
      if EndsWith(f, ".clustal") || EndsWith(f, ".aln") || EndsWith(f, ".fasta") {
        jobs := jobs + [Job(PathJoin(d.root, f), f, out)];
      }
      k := k + 1;
    }
    assert d.files[..k] == d.files;
  }

  /** The header used for a file's consensus (consensus_utils.py:87, 99). */
  function ConsensusName(name: string): string { Stem(name) + "_consensus" }

  /** The combined `todas_consensus.fasta` as the source writes it: the
      returned name, which already ends in `_consensus`, gets the suffix a
      second time (consensus_utils.py:161-164). */
  function CombinedAsWritten(all: seq<(string, string)>): string
  {
    if all == [] then []
    else CombinedAsWritten(all[..|all| - 1]) + FastaRecord(all[|all| - 1].0 + "_consensus", all[|all| - 1].1)
  }

  /** The combined file with each record exactly as in its own file. */
  function Combined(all: seq<(string, string)>): string
  {
    if all == [] then []
    else Combined(all[..|all| - 1]) + FastaRecord(all[|all| - 1].0, all[|all| - 1].1)
  }

  /** `A.aln` is consensus `A_consensus`. */
  lemma ConsensusNameOfA()
    ensures ConsensusName("A.aln") == "A_consensus"
  {
    assert "A"[0] != '.';
    StemOfName("A", "aln");
    assert "A" + "." + "aln" == "A.aln";
  }

  /** One consensus, as written, gets its name suffixed once more. */
  lemma SingleAsWritten(name: string, sequence: string)
    ensures CombinedAsWritten([(name, sequence)]) == FastaRecord(name + "_consensus", sequence)
  {
    assert [(name, sequence)][..0] == [];
  }

  /** A header extended by a suffix gives a different record for the same
      sequence. */
  lemma DoubledHeaderDiffers(header: string, suffix: string, sequence: string)
    requires suffix != [] && suffix[0] != '\n'
    ensures FastaRecord(header + suffix, sequence) != FastaRecord(header, sequence)
  {
    var body := Lines(Chunks(sequence));
    var r1 := ">" + (header + suffix) + "\n" + body;
    var r2 := ">" + header + "\n" + body;
    var i := |header| + 1;
    assert r1[i] == suffix[0];
    assert r2[i] == '\n';
  }

  /** A single alignment `A.aln`: its own file is headed `>A_consensus`, but
      the combined file as written heads the same record `>A_consensus_consensus`. */
  lemma CombinedHeaderDoubled(sequence: string)
    ensures var name := ConsensusName("A.aln");
      && name == "A_consensus"
      && CombinedAsWritten([(name, sequence)]) == FastaRecord("A_consensus_consensus", sequence)
      && CombinedAsWritten([(name, sequence)]) != FastaRecord(name, sequence)
  {
    ConsensusNameOfA();
    SingleAsWritten("A_consensus", sequence);
    assert "A_consensus" + "_consensus" == "A_consensus_consensus";
    DoubledHeaderDiffers("A_consensus", "_consensus", sequence);
  }

  /** The records of the combined file are the per-file records, in job
      order. */
  lemma {:induction false} CombinedIsPerFileRecords(all: seq<(string, string)>)
    ensures Combined(all) == Concat(seq(|all|, k requires 0 <= k < |all| => FastaRecord(all[k].0, all[k].1)))
  {
    if all != [] {
      var pre := all[..|all| - 1];
      CombinedIsPerFileRecords(pre);
      var recs := seq(|all|, k requires 0 <= k < |all| => FastaRecord(all[k].0, all[k].1));
      var precs := seq(|pre|, k requires 0 <= k < |pre| => FastaRecord(pre[k].0, pre[k].1));
      assert recs == precs + [recs[|all| - 1]];
      ConcatSnoc(precs, recs[|all| - 1]);
    }
  }

  /** The combined file as written is each summary's record with its name
      suffixed once more, in job order. */
  lemma {:induction false} CombinedAsWrittenRecords(all: seq<(string, string)>)
    ensures CombinedAsWritten(all)
         == Concat(seq(|all|, k requires 0 <= k < |all| => FastaRecord(all[k].0 + "_consensus", all[k].1)))
  {
    if all != [] {
      var pre := all[..|all| - 1];
      CombinedAsWrittenRecords(pre);
      var recs := seq(|all|, k requires 0 <= k < |all| => FastaRecord(all[k].0 + "_consensus", all[k].1));
      var precs := seq(|pre|, k requires 0 <= k < |pre| => FastaRecord(pre[k].0 + "_consensus", pre[k].1));
      assert recs == precs + [recs[|all| - 1]];
      ConcatSnoc(precs, recs[|all| - 1]);
    }
  }

  /** What the directory pass writes: the consensus FASTA of every file
      whose alignment could be read (its report rows alongside), then the
      combined file under the output root. */
  datatype Written = Written(fasta: map<string, string>, reports: map<string, seq<ReportRow>>)

  const CombinedName: string := "todas_consensus.fasta"

  /** The alignments read successfully, with their jobs, in job order. */
  function ReadJobs(jobs: seq<Job>, read: (string, Format) -> Option<seq<string>>): (r: seq<(Job, seq<string>)>)
    ensures forall k :: 0 <= k < |r| ==> WellFormed(r[k].1)
  {
    if jobs == [] then []
    else
      var j := jobs[|jobs| - 1];
      var r := read(j.input, FormatOf(j.name));
      ReadJobs(jobs[..|jobs| - 1], read) + (if r.Some? && WellFormed(r.value) then [(j, r.value)] else [])
  }

  /** Where a job's consensus FASTA and report go (consensus_utils.py:80-81). */
  function FastaPathOf(j: Job): string { PathJoin(j.outFolder, Stem(j.name) + "_consensus.fasta") }

  function ReportPathOf(j: Job): string { PathJoin(j.outFolder, Stem(j.name) + "_report.tsv") }

  /** The files named by `path` for the alignments read. */
  function PathsOf(ok: seq<(Job, seq<string>)>, path: Job -> string): set<string>
  {
    if ok == [] then {} else PathsOf(ok[..|ok| - 1], path) + {path(ok[|ok| - 1].0)}
  }

  /** A file is written exactly when it belongs to one of the alignments
      read. */
  lemma {:induction false} PathsOfMeaning(ok: seq<(Job, seq<string>)>, path: Job -> string)
    ensures forall p :: p in PathsOf(ok, path) <==> exists k :: 0 <= k < |ok| && p == path(ok[k].0)
  {
    if ok != [] {
      var pre := ok[..|ok| - 1];
      PathsOfMeaning(pre, path);
      forall p | p in PathsOf(ok, path)
        ensures exists k :: 0 <= k < |ok| && p == path(ok[k].0)
      {
        if p in PathsOf(pre, path) {
          var k :| 0 <= k < |pre| && p == path(pre[k].0);
          assert ok[k] == pre[k];
        } else {
          assert p == path(ok[|ok| - 1].0);
        }
      }
      forall p | exists k :: 0 <= k < |ok| && p == path(ok[k].0)
        ensures p in PathsOf(ok, path)
      {
        var k :| 0 <= k < |ok| && p == path(ok[k].0);
        if k < |pre| { assert ok[k] == pre[k]; }
      }
    }
  }

  /** One more job either adds its read alignment or nothing. */
  lemma ReadJobsSnoc(jobs: seq<Job>, i: nat, read: (string, Format) -> Option<seq<string>>)
    requires i < |jobs|
    ensures var r := read(jobs[i].input, FormatOf(jobs[i].name));
      ReadJobs(jobs[..i + 1], read)
        == ReadJobs(jobs[..i], read) + (if r.Some? && WellFormed(r.value) then [(jobs[i], r.value)] else [])
  {
    assert jobs[..i + 1][..i] == jobs[..i];
  }

  lemma PathsOfSnoc(ok: seq<(Job, seq<string>)>, x: (Job, seq<string>), path: Job -> string)
    ensures PathsOf(ok + [x], path) == PathsOf(ok, path) + {path(x.0)}
  {
    assert (ok + [x])[..|ok|] == ok;
  }

  /** `all[k]` is the name and consensus of the `k`-th alignment read. */
  predicate Summaries(ok: seq<(Job, seq<string>)>, limit: real, all: seq<(string, string)>)
    requires forall k :: 0 <= k < |ok| ==> WellFormed(ok[k].1)
  {
    |all| == |ok| &&
    forall k :: 0 <= k < |ok| ==> all[k].0 == ConsensusName(ok[k].0.name) && IsConsensus(ok[k].1, limit, all[k].1)
  }

  lemma SummariesSnoc(ok: seq<(Job, seq<string>)>, limit: real, all: seq<(string, string)>,
                      j: Job, rows: seq<string>, consensus: string)
    requires forall k :: 0 <= k < |ok| ==> WellFormed(ok[k].1)
    requires WellFormed(rows) && Summaries(ok, limit, all) && IsConsensus(rows, limit, consensus)
    ensures Summaries(ok + [(j, rows)], limit, all + [(ConsensusName(j.name), consensus)])
  {
    var ok' := ok + [(j, rows)];
    var all' := all + [(ConsensusName(j.name), consensus)];
    forall k | 0 <= k < |ok'|
      ensures all'[k].0 == ConsensusName(ok'[k].0.name) && IsConsensus(ok'[k].1, limit, all'[k].1)
    {
      if k < |ok| {
        assert ok'[k] == ok[k] && all'[k] == all[k];
      }
    }
  }

  /** No later alignment read writes to the same path as the `k`-th. */
  predicate LastAt(ok: seq<(Job, seq<string>)>, k: int, path: Job -> string)
    requires 0 <= k < |ok|
  {
    forall i :: k < i < |ok| ==> path(ok[i].0) != path(ok[k].0)
  }

  /** `report` and `consensus` come from one run over the columns of
      `rows`: row `p` of the report and symbol `p` of the consensus satisfy
      the column rule for column `p`. */
  predicate Outcomes(rows: seq<string>, limit: real, consensus: string, report: seq<ReportRow>)
  {
    && WellFormed(rows)
    && |consensus| == |rows[0]| && |report| == |rows[0]|
    && forall p :: 0 <= p < |rows[0]| ==> ColumnOutcome(Column(rows, p), p, limit, consensus[p], report[p])
  }

  /** The consensus FASTA of each alignment read holds its record, unless
      a later alignment read writes the same path. */
  predicate FastaStored(ok: seq<(Job, seq<string>)>, all: seq<(string, string)>, fasta: map<string, string>)
  {
    |all| == |ok| &&
    forall k :: 0 <= k < |ok| && LastAt(ok, k, FastaPathOf) ==>
      FastaPathOf(ok[k].0) in fasta && fasta[FastaPathOf(ok[k].0)] == FastaRecord(all[k].0, all[k].1)
  }

  /** The report of each alignment read holds the rows of the run that
      gave its consensus, unless a later alignment read writes the same
      path. */
  predicate ReportsStored(ok: seq<(Job, seq<string>)>, limit: real, all: seq<(string, string)>,
                          reports: map<string, seq<ReportRow>>)
  {
    |all| == |ok| &&
    forall k :: 0 <= k < |ok| && LastAt(ok, k, ReportPathOf) ==>
      ReportPathOf(ok[k].0) in reports && Outcomes(ok[k].1, limit, all[k].1, reports[ReportPathOf(ok[k].0)])
  }

  /** One more alignment read: its FASTA is stored, and earlier ones stay
      unless it overwrites them. */
  lemma FastaStoredSnoc(ok: seq<(Job, seq<string>)>, all: seq<(string, string)>, fasta: map<string, string>,
                        x: (Job, seq<string>), summary: (string, string))
    requires FastaStored(ok, all, fasta)
    ensures FastaStored(ok + [x], all + [summary], fasta[FastaPathOf(x.0) := FastaRecord(summary.0, summary.1)])
  {
    var ok', all' := ok + [x], all + [summary];
    var fasta' := fasta[FastaPathOf(x.0) := FastaRecord(summary.0, summary.1)];
    forall k | 0 <= k < |ok'| && LastAt(ok', k, FastaPathOf)
      ensures FastaPathOf(ok'[k].0) in fasta' && fasta'[FastaPathOf(ok'[k].0)] == FastaRecord(all'[k].0, all'[k].1)
    {
      if k < |ok| {
        assert ok'[k] == ok[k] && all'[k] == all[k];
        assert FastaPathOf(ok'[|ok|].0) != FastaPathOf(ok'[k].0);
        assert LastAt(ok, k, FastaPathOf) by {
          forall i | k < i < |ok| ensures FastaPathOf(ok[i].0) != FastaPathOf(ok[k].0) {
            assert ok'[i] == ok[i];
          }
        }
      }
    }
  }

  /** The same for the reports. */
  lemma ReportsStoredSnoc(ok: seq<(Job, seq<string>)>, limit: real, all: seq<(string, string)>,
                          reports: map<string, seq<ReportRow>>, x: (Job, seq<string>), summary: (string, string),
                          report: seq<ReportRow>)
    requires ReportsStored(ok, limit, all, reports)
    requires Outcomes(x.1, limit, summary.1, report)
    ensures ReportsStored(ok + [x], limit, all + [summary], reports[ReportPathOf(x.0) := report])
  {
    var ok', all' := ok + [x], all + [summary];
    var reports' := reports[ReportPathOf(x.0) := report];
    forall k | 0 <= k < |ok'| && LastAt(ok', k, ReportPathOf)
      ensures ReportPathOf(ok'[k].0) in reports' && Outcomes(ok'[k].1, limit, all'[k].1, reports'[ReportPathOf(ok'[k].0)])
    {
      if k < |ok| {
        assert ok'[k] == ok[k] && all'[k] == all[k];
        assert ReportPathOf(ok'[|ok|].0) != ReportPathOf(ok'[k].0);
        assert LastAt(ok, k, ReportPathOf) by {
          forall i | k < i < |ok| ensures ReportPathOf(ok[i].0) != ReportPathOf(ok[k].0) {
            assert ok'[i] == ok[i];
          }
        }
      }
    }
  }

  /** `gerar_consensos_para_diretorio`; `read` stands for the alignment
      parser (`None` where it raises, as does an ill-formed alignment). */
  method ConsensusForDirectory(walk: seq<WalkDir>, outRoot: string, limit: real,
                               read: (string, Format) -> Option<seq<string>>)
    returns (out: Written, all: seq<(string, string)>)
    ensures Summaries(ReadJobs(JobsOf(walk, outRoot), read), limit, all)
    ensures out.fasta.Keys == PathsOf(ReadJobs(JobsOf(walk, outRoot), read), FastaPathOf)
                              + (if all != [] then {PathJoin(outRoot, CombinedName)} else {})
    ensures out.reports.Keys == PathsOf(ReadJobs(JobsOf(walk, outRoot), read), ReportPathOf)
    ensures all != [] ==> out.fasta[PathJoin(outRoot, CombinedName)] == CombinedAsWritten(all)
    ensures var ok := ReadJobs(JobsOf(walk, outRoot), read);
      forall k :: 0 <= k < |ok| && k < |all| && LastAt(ok, k, FastaPathOf) && FastaPathOf(ok[k].0) != PathJoin(outRoot, CombinedName) ==>
        FastaPathOf(ok[k].0) in out.fasta && out.fasta[FastaPathOf(ok[k].0)] == FastaRecord(all[k].0, all[k].1)
    ensures ReportsStored(ReadJobs(JobsOf(walk, outRoot), read), limit, all, out.reports)
  {
    var jobs := CollectJobs(walk, outRoot);
    out := Written(map[], map[]);
    all := [];
    if jobs == [] { return; }
    out, all := ProcessJobs(jobs, limit, read);
    if all != [] {
      var text := WriteCombined(all);
      var combined := PathJoin(outRoot, CombinedName);
      CombinedAdded(ReadJobs(jobs, read), limit, all, out, combined, text);
      out := Written(out.fasta[combined := text], out.reports);
    }
  }

  /** Adding the combined file keeps the report and every per-file record
      at a path other than its own. */
  lemma CombinedAdded(ok: seq<(Job, seq<string>)>, limit: real, all: seq<(string, string)>, out: Written,
                      combined: string, text: string)
    requires out.fasta.Keys == PathsOf(ok, FastaPathOf)
    requires FastaStored(ok, all, out.fasta)
    ensures var fasta := out.fasta[combined := text];
      && fasta.Keys == PathsOf(ok, FastaPathOf) + {combined}
      && fasta[combined] == text
      && forall k :: 0 <= k < |ok| && k < |all| && LastAt(ok, k, FastaPathOf) && FastaPathOf(ok[k].0) != combined ==>
           FastaPathOf(ok[k].0) in fasta && fasta[FastaPathOf(ok[k].0)] == FastaRecord(all[k].0, all[k].1)
  {
  }

  /** The loop over the jobs: each alignment read gives its consensus
      FASTA and report, and its name and consensus join `all`. */
  method ProcessJobs(jobs: seq<Job>, limit: real, read: (string, Format) -> Option<seq<string>>)
    returns (out: Written, all: seq<(string, string)>)
    ensures Summaries(ReadJobs(jobs, read), limit, all)
    ensures out.fasta.Keys == PathsOf(ReadJobs(jobs, read), FastaPathOf)
    ensures out.reports.Keys == PathsOf(ReadJobs(jobs, read), ReportPathOf)
    ensures FastaStored(ReadJobs(jobs, read), all, out.fasta)
    ensures ReportsStored(ReadJobs(jobs, read), limit, all, out.reports)
  {
    out := Written(map[], map[]);
    all := [];
    var i := 0;
    while i < |jobs|
      invariant 0 <= i <= |jobs|
      invariant Summaries(ReadJobs(jobs[..i], read), limit, all)
      invariant out.fasta.Keys == PathsOf(ReadJobs(jobs[..i], read), FastaPathOf)
      invariant out.reports.Keys == PathsOf(ReadJobs(jobs[..i], read), ReportPathOf)
      invariant FastaStored(ReadJobs(jobs[..i], read), all, out.fasta)
      invariant ReportsStored(ReadJobs(jobs[..i], read), limit, all, out.reports)
    {
      ReadJobsSnoc(jobs, i, read);
      ghost var r := read(jobs[i].input, FormatOf(jobs[i].name));
      ghost var ok := ReadJobs(jobs[..i], read);
      out, all := ProcessJob(ok, out, all, jobs[i], limit, read);
      if r.Some? && WellFormed(r.value) {
        assert ReadJobs(jobs[..i + 1], read) == ok + [(jobs[i], r.value)];
      } else {
        assert ReadJobs(jobs[..i + 1], read) == ok + [];
        assert ok + [] == ok;
      }
      i := i + 1;
    }
    assert jobs[..i] == jobs;
  }

  /** One job of the loop: an alignment that can be read adds its
      consensus FASTA, its report and its summary. */
  method ProcessJob(ghost ok: seq<(Job, seq<string>)>, out: Written, all: seq<(string, string)>,
                    j: Job, limit: real, read: (string, Format) -> Option<seq<string>>)
    returns (out': Written, all': seq<(string, string)>)
    requires forall k :: 0 <= k < |ok| ==> WellFormed(ok[k].1)
    requires Summaries(ok, limit, all)
    requires out.fasta.Keys == PathsOf(ok, FastaPathOf) && out.reports.Keys == PathsOf(ok, ReportPathOf)
    requires FastaStored(ok, all, out.fasta) && ReportsStored(ok, limit, all, out.reports)
    ensures var r := read(j.input, FormatOf(j.name));
      r.Some? && WellFormed(r.value) ==>
        var ok' := ok + [(j, r.value)];
        && Summaries(ok', limit, all')
        && out'.fasta.Keys == PathsOf(ok', FastaPathOf)
        && out'.reports.Keys == PathsOf(ok', ReportPathOf)
        && FastaStored(ok', all', out'.fasta)
        && ReportsStored(ok', limit, all', out'.reports)
    ensures var r := read(j.input, FormatOf(j.name));
      !(r.Some? && WellFormed(r.value)) ==> out' == out && all' == all
  {
    var alignment := read(j.input, FormatOf(j.name));
    if alignment.Some? && WellFormed(alignment.value) {
      var rows := alignment.value;
      var consensus, report := BuildConsensus(rows, limit);
      OutcomesGiveConsensus(rows, limit, consensus, report);
      var name := Stem(j.name);
      var text := WriteRecord(name + "_consensus", consensus);
      out' := Written(out.fasta[FastaPathOf(j) := text], out.reports[ReportPathOf(j) := report]);
      all' := all + [(name + "_consensus", consensus)];
      JobRecorded(ok, limit, all, out, j, rows, consensus, text, report);
      FastaStoredSnoc(ok, all, out.fasta, (j, rows), (name + "_consensus", consensus));
      ReportsStoredSnoc(ok, limit, all, out.reports, (j, rows), (name + "_consensus", consensus), report);
    } else {
      out', all' := out, all;
    }
  }

  /** A job whose alignment was read extends the summaries and the two
      dicts of written files. */
  lemma JobRecorded(ok: seq<(Job, seq<string>)>, limit: real, all: seq<(string, string)>, out: Written,
                    j: Job, rows: seq<string>, consensus: string, text: string, report: seq<ReportRow>)
    requires forall k :: 0 <= k < |ok| ==> WellFormed(ok[k].1)
    requires WellFormed(rows) && IsConsensus(rows, limit, consensus)
    requires Summaries(ok, limit, all)
    requires out.fasta.Keys == PathsOf(ok, FastaPathOf) && out.reports.Keys == PathsOf(ok, ReportPathOf)
    ensures var ok' := ok + [(j, rows)];
      && Summaries(ok', limit, all + [(Stem(j.name) + "_consensus", consensus)])
      && out.fasta[FastaPathOf(j) := text].Keys == PathsOf(ok', FastaPathOf)
      && out.reports[ReportPathOf(j) := report].Keys == PathsOf(ok', ReportPathOf)
  {
    SummariesSnoc(ok, limit, all, j, rows, consensus);
    PathsOfSnoc(ok, (j, rows), FastaPathOf);
    PathsOfSnoc(ok, (j, rows), ReportPathOf);
    UpdatedKeys(out.fasta, FastaPathOf(j), text);
    UpdatedKeys(out.reports, ReportPathOf(j), report);
  }

  lemma UpdatedKeys<V>(m: map<string, V>, k: string, v: V)
    ensures m[k := v].Keys == m.Keys + {k}
  {
  }

  /** The write loop of the combined file, which heads each record with
      the returned name and `_consensus` once more. */
  method WriteCombined(all: seq<(string, string)>) returns (text: string)
    ensures text == CombinedAsWritten(all)
  {
    text := [];
    var k := 0;
    while k < |all|
      invariant 0 <= k <= |all|
      invariant text == CombinedAsWritten(all[..k])
    {
      assert all[..k + 1][..k] == all[..k];
      var record := WriteRecord(all[k].0 + "_consensus", all[k].1);
      text := text + record;
      k := k + 1;
    }
    assert all[..k] == all;
  }
}
