/** The BLASTp stage (pipeline_utils/blast_utils.py): which FASTA files
    are sent, where their reports go, which are skipped because a report
    is already there, and the `blastp` argument list. The `blastp` run
    itself is outside the model: what it leaves at the output path is a
    parameter. */
module BlastUtils {
  import opened Common

  /** `config.blast_max_target_seqs`. */
  const MaxTargetSeqs: nat := 10

  const EValue: string := "1e-5"

  /** The report columns asked of BLAST, in order. */
  const ReportColumns: seq<string> := ["qseqid", "sseqid", "pident", "length", "evalue", "bitscore", "stitle"]

  /** The `-outfmt` value `"6 qseqid sseqid pident length evalue bitscore
      stitle"`: tabular format 6 followed by the column names. */
  const OutFormat: string := Join(["6"] + ReportColumns, ' ')

  /** The report columns, in order, as named by the format string. */
  function Columns(): seq<string> { Split(OutFormat, ' ')[1..] }

  /** The format string reads back as format 6 and the seven columns; the
      ones read when hits are aggregated (query id, target descriptor,
      identity, e-value, bit score at positions 0, 1, 2, 4, 5, the fields
      of `PdbUtils.HitRow`) are the ones asked for. */
  lemma ColumnsReadBack()
    ensures Split(OutFormat, ' ')[0] == "6"
    ensures |Columns()| == 7
    ensures Columns()[0] == "qseqid" && Columns()[1] == "sseqid" && Columns()[2] == "pident"
    ensures Columns()[3] == "length" && Columns()[4] == "evalue" && Columns()[5] == "bitscore"
    ensures Columns()[6] == "stitle"
  {
    SplitJoin(["6"] + ReportColumns, ' ');
    assert Columns() == ReportColumns;
  }

  // ---------------------------------------------------------------------
  // Paths and the argument list (blast_utils.py:55-74)
  // ---------------------------------------------------------------------

  /** `<outDir>/<fasta>_blast.tsv`. */
  function OutputPath(outDir: string, fasta: string): string
  {
    PathJoin(outDir, fasta + "_blast.tsv")
  }

  /** Two different file names from one listing have different reports. */
  lemma OutputPathInjective(outDir: string, a: string, b: string)
    requires a != b && !StartsWith(a, "/") && !StartsWith(b, "/")
    ensures OutputPath(outDir, a) != OutputPath(outDir, b)
  {
    var x := a + "_blast.tsv";
    var y := b + "_blast.tsv";
    assert x[..|a|] == a && y[..|b|] == b;
    assert x[0] == (if a == [] then '_' else a[0]);
    assert y[0] == (if b == [] then '_' else b[0]);
    PathJoinInjective(outDir, x, y);
  }

  /** The `blastp` argument list around its four variable parts. */
  function CommandWith(query: string, targets: string, format: string, out: string): (argv: seq<string>)
    ensures |argv| == 14 && argv[0] == "blastp" && argv[1] == "-query" && argv[2] == query
    ensures argv[3] == "-db" && argv[4] == "pdb" && argv[5] == "-remote"
    ensures argv[6] == "-evalue" && argv[7] == EValue
    ensures argv[8] == "-max_target_seqs" && argv[9] == targets
    ensures argv[10] == "-outfmt" && argv[11] == format
    ensures argv[12] == "-out" && argv[13] == out
  {
    ["blastp",
     "-query", query,
     "-db", "pdb",
     "-remote",
     "-evalue", EValue,
     "-max_target_seqs", targets,
     "-outfmt", format,
     "-out", out]
  }

  /** The `blastp` command line for one file. */
  function Command(inDir: string, outDir: string, fasta: string): (argv: seq<string>)
    ensures |argv| == 14 && argv[0] == "blastp"
    ensures argv[1] == "-query" && argv[2] == PathJoin(inDir, fasta)
    ensures argv[10] == "-outfmt" && argv[11] == OutFormat
    ensures argv[13] == OutputPath(outDir, fasta)
  {
    CommandWith(PathJoin(inDir, fasta), NatToString(MaxTargetSeqs), OutFormat, OutputPath(outDir, fasta))
  }

  /** `str(n)` reads back through `int()` as `n`. */
  lemma NatReadBack(n: nat)
    ensures PyInt(NatToString(n)) == Some(n as int)
  {
    DigitStringIsInt(NatToString(n));
  }

  /** The argument list queries the remote `pdb` database with e-value
      cut-off 1e-5 and the configured number of targets, written back as
      decimal digits. */
  lemma CommandOptions(inDir: string, outDir: string, fasta: string)
    ensures var argv := Command(inDir, outDir, fasta);
      && argv[3] == "-db" && argv[4] == "pdb" && argv[5] == "-remote"
      && argv[6] == "-evalue" && argv[7] == EValue
      && argv[8] == "-max_target_seqs" && PyInt(argv[9]) == Some(MaxTargetSeqs as int)
  {
    var targets := NatToString(MaxTargetSeqs);
    NatReadBack(MaxTargetSeqs);
    assert Command(inDir, outDir, fasta) == CommandWith(PathJoin(inDir, fasta), targets, OutFormat, OutputPath(outDir, fasta));
  }

  // ---------------------------------------------------------------------
  // Which files, and the per-file loop (blast_utils.py:16-61)
  // ---------------------------------------------------------------------

  /** The files chosen: all of them in automatic mode, otherwise the
      numbered choice ("0" for all). */
  function Chosen(files: seq<string>, automatic: bool, answer: string): (r: seq<string>)
    ensures automatic ==> r == files
    ensures !automatic && Strip(answer) == "0" ==> r == files
    ensures forall k :: 0 <= k < |r| ==> r[k] in files
  {
    if automatic then files else SelectByNumbers(files, answer)
  }

  /** A report counts as done when it exists and is not empty. */
  predicate Done(sizes: map<string, nat>, path: string)
  {
    path in sizes && sizes[path] > 0
  }

  /** What the loop has done so far: the files sent to `blastp`, and the
      sizes of the files in the output folder. */
  datatype Blasted = Blasted(ran: seq<string>, sizes: map<string, nat>)

  /** One file: skipped when its report is done, otherwise run, after
      which its report has the size `produced` gives for that path. */
  function FileStep(b: Blasted, outDir: string, fasta: string, produced: string -> nat): Blasted
  {
    var out := OutputPath(outDir, fasta);
    if Done(b.sizes, out) then b
    else Blasted(b.ran + [fasta], b.sizes[out := produced(out)])
  }

  /** The loop over the chosen files, in order (repetitions included). */
  function Pass(files: seq<string>, outDir: string, sizes: map<string, nat>,
                produced: string -> nat): Blasted
  {
    if files == [] then Blasted([], sizes)
    else FileStep(Pass(files[..|files| - 1], outDir, sizes, produced), outDir, files[|files| - 1], produced)
  }

  /** The whole stage: `None` listing stands for `os.listdir` failing. */
  function Stage(listing: Option<seq<string>>, automatic: bool, answer: string, outDir: string,
                 sizes: map<string, nat>, produced: string -> nat): Blasted
  {
    if listing.None? then Blasted([], sizes)
    else
      var files := FastaFiles(listing.value);
      if files == [] then Blasted([], sizes)
      else
        var chosen := Chosen(files, automatic, answer);
        if chosen == [] then Blasted([], sizes)
        else Pass(chosen, outDir, sizes, produced)
  }

  /** The command lines issued, one per file sent. */
  function Commands(inDir: string, outDir: string, ran: seq<string>): (r: seq<seq<string>>)
    ensures |r| == |ran|
    ensures forall k :: 0 <= k < |r| ==> r[k] == Command(inDir, outDir, ran[k])
  {
    seq(|ran|, k requires 0 <= k < |ran| => Command(inDir, outDir, ran[k]))
  }

  // ---------------------------------------------------------------------
  // What the loop guarantees
  // ---------------------------------------------------------------------

  /** A report that is done stays done. */
  lemma {:induction false} DoneStays(files: seq<string>, outDir: string, sizes: map<string, nat>,
                                     produced: string -> nat, path: string)
    requires Done(sizes, path)
    ensures Done(Pass(files, outDir, sizes, produced).sizes, path)
    decreases |files|
  {
    if files != [] {
      DoneStays(files[..|files| - 1], outDir, sizes, produced, path);
    }
  }

  /** Only the reports of files sent change size, and they then have the
      size `blastp` left. */
  lemma {:induction false} SizesChangeOnlyBySending(files: seq<string>, outDir: string,
                                                    sizes: map<string, nat>, produced: string -> nat)
    ensures var b := Pass(files, outDir, sizes, produced);
      forall p :: p in b.sizes ==> (p in sizes && b.sizes[p] == sizes[p]) || (exists f :: f in b.ran && OutputPath(outDir, f) == p && b.sizes[p] == produced(p))
    ensures var b := Pass(files, outDir, sizes, produced);
      forall p :: p in sizes ==> p in b.sizes
    decreases |files|
  {
    if files != [] {
      SizesChangeOnlyBySending(files[..|files| - 1], outDir, sizes, produced);
    }
  }

  /** No file is sent whose report was already done when it came up, and
      in particular none whose report was done before the stage. */
  lemma {:induction false} NeverRedoes(files: seq<string>, outDir: string, sizes: map<string, nat>,
                                       produced: string -> nat)
    ensures forall f :: f in Pass(files, outDir, sizes, produced).ran ==> !Done(sizes, OutputPath(outDir, f))
    decreases |files|
  {
    if files != [] {
      var init := files[..|files| - 1];
      var b := Pass(init, outDir, sizes, produced);
      NeverRedoes(init, outDir, sizes, produced);
      var out := OutputPath(outDir, files[|files| - 1]);
      if !Done(b.sizes, out) && Done(sizes, out) {
        DoneStays(init, outDir, sizes, produced, out);
      }
    }
  }

  /** Every chosen file is either sent or had its report done already,
      before the stage or by an earlier run of the same file. */
  lemma {:induction false} EveryFileHandled(files: seq<string>, outDir: string, sizes: map<string, nat>,
                                            produced: string -> nat)
    requires forall f :: f in files ==> !StartsWith(f, "/")
    ensures forall f :: f in files ==> f in Pass(files, outDir, sizes, produced).ran || Done(sizes, OutputPath(outDir, f))
    decreases |files|
  {
    if files != [] {
      var init := files[..|files| - 1];
      var last := files[|files| - 1];
      assert files == init + [last];
      var b := Pass(init, outDir, sizes, produced);
      EveryFileHandled(init, outDir, sizes, produced);
      var out := OutputPath(outDir, last);
      var r := Pass(files, outDir, sizes, produced).ran;
      assert r == FileStep(b, outDir, last, produced).ran;
      assert r == b.ran || r == b.ran + [last];
      assert forall g :: g in b.ran ==> g in r;
      if Done(b.sizes, out) && !Done(sizes, out) {
        SizesChangeOnlyBySending(init, outDir, sizes, produced);
        var g :| g in b.ran && OutputPath(outDir, g) == out;
        assert g in init by { PassRanChosen(init, outDir, sizes, produced); }
        if g != last { OutputPathInjective(outDir, g, last); }
        assert last in r;
      } else if !Done(b.sizes, out) {
        assert r == b.ran + [last];
      }
      forall f | f in files ensures f in r || Done(sizes, OutputPath(outDir, f)) {
        if f != last { assert f in init; }
      }
    }
  }

  /** Only chosen files are sent, each at most as often as chosen. */
  lemma {:induction false} PassRanChosen(files: seq<string>, outDir: string, sizes: map<string, nat>,
                                         produced: string -> nat)
    ensures forall f :: f in Pass(files, outDir, sizes, produced).ran ==> f in files
    ensures |Pass(files, outDir, sizes, produced).ran| <= |files|
    decreases |files|
  {
    if files != [] {
      PassRanChosen(files[..|files| - 1], outDir, sizes, produced);
    }
  }

  /** No file name occurs twice. */
  predicate NoRepeats(ran: seq<string>)
  {
    forall i, j :: 0 <= i < j < |ran| ==> ran[i] != ran[j]
  }

  /** When every run leaves a non-empty report, no file is sent twice even
      when it was chosen twice. */
  lemma {:induction false} SentOnceWhenReportsNonEmpty(files: seq<string>, outDir: string,
                                                       sizes: map<string, nat>, produced: string -> nat)
    requires forall p :: produced(p) > 0
    ensures NoRepeats(Pass(files, outDir, sizes, produced).ran)
    decreases |files|
  {
    if files != [] {
      var init := files[..|files| - 1];
      var b := Pass(init, outDir, sizes, produced);
      SentOnceWhenReportsNonEmpty(init, outDir, sizes, produced);
      var last := files[|files| - 1];
      var out := OutputPath(outDir, last);
      if !Done(b.sizes, out) {
        if last in b.ran {
          SentReportDone(init, outDir, sizes, produced, last);
        } else {
          var ran := b.ran + [last];
          forall i, j | 0 <= i < j < |ran| ensures ran[i] != ran[j] {
            assert ran[i] == b.ran[i];
            if j == |b.ran| {
              assert ran[j] == last && b.ran[i] in b.ran;
            } else {
              assert ran[j] == b.ran[j];
            }
          }
        }
      }
    }
  }

  /** With non-empty reports, a file that has been sent has its report
      done. */
  lemma {:induction false} SentReportDone(files: seq<string>, outDir: string, sizes: map<string, nat>,
                                          produced: string -> nat, f: string)
    requires forall p :: produced(p) > 0
    requires f in Pass(files, outDir, sizes, produced).ran
    ensures Done(Pass(files, outDir, sizes, produced).sizes, OutputPath(outDir, f))
    decreases |files|
  {
    var init := files[..|files| - 1];
    var b := Pass(init, outDir, sizes, produced);
    var last := files[|files| - 1];
    var out := OutputPath(outDir, last);
    if f in b.ran {
      SentReportDone(init, outDir, sizes, produced, f);
      if !Done(b.sizes, out) {
        assert produced(out) > 0;
      }
    }
  }

  /** Nothing is sent when there is no FASTA file or nothing is chosen. */
  lemma NothingChosenNothingSent(listing: Option<seq<string>>, automatic: bool, answer: string,
                                 outDir: string, sizes: map<string, nat>, produced: string -> nat)
    requires listing.None? || Chosen(FastaFiles(listing.value), automatic, answer) == []
    ensures Stage(listing, automatic, answer, outDir, sizes, produced) == Blasted([], sizes)
  {
  }

  /** In automatic mode, or on the answer "0", every FASTA file of the
      listing is considered in listing order. */
  lemma AllFilesConsidered(listing: seq<string>, automatic: bool, answer: string,
                           outDir: string, sizes: map<string, nat>, produced: string -> nat)
    requires automatic || Strip(answer) == "0"
    requires FastaFiles(listing) != []
    ensures Stage(Some(listing), automatic, answer, outDir, sizes, produced)
         == Pass(FastaFiles(listing), outDir, sizes, produced)
  {
  }

  // ---------------------------------------------------------------------
  // The stage as a loop
  // ---------------------------------------------------------------------

  /** `rodar_blast`: returns the command lines issued, in order, and the
      sizes of the output folder's files afterwards. */
  method RunBlast(listing: Option<seq<string>>, automatic: bool, answer: string,
                  inDir: string, outDir: string, sizes: map<string, nat>, produced: string -> nat)
    returns (commands: seq<seq<string>>, after: map<string, nat>)
    ensures var b := Stage(listing, automatic, answer, outDir, sizes, produced);
      commands == Commands(inDir, outDir, b.ran) && after == b.sizes
  {
    commands, after := [], sizes;
    if listing.None? {
      return;
    }
    var files := FastaFiles(listing.value);
    if files == [] {
      return;
    }
    var chosen := if automatic then files else SelectByNumbers(files, answer);
    if chosen == [] {
      return;
    }
    assert Stage(listing, automatic, answer, outDir, sizes, produced) == Pass(chosen, outDir, sizes, produced);
    commands, after := SendAll(chosen, inDir, outDir, sizes, produced);
  }

  /** The loop of `rodar_blast` over the chosen files. */
  method SendAll(chosen: seq<string>, inDir: string, outDir: string, sizes: map<string, nat>,
                 produced: string -> nat)
    returns (commands: seq<seq<string>>, after: map<string, nat>)
    ensures var b := Pass(chosen, outDir, sizes, produced);
      commands == Commands(inDir, outDir, b.ran) && after == b.sizes
  {
    commands, after := [], sizes;
    var ran: seq<string> := [];
    var i := 0;
    while i < |chosen|
      invariant 0 <= i <= |chosen|
      invariant Blasted(ran, after) == Pass(chosen[..i], outDir, sizes, produced)
      invariant |commands| == |ran|
      invariant forall k :: 0 <= k < |ran| ==> commands[k] == Command(inDir, outDir, ran[k])
    {
      assert chosen[..i + 1][..i] == chosen[..i];
      var fasta := chosen[i];
      var out := OutputPath(outDir, fasta);
      if out in after && after[out] > 0 {
        i := i + 1;
        continue;
      }
      commands := commands + [Command(inDir, outDir, fasta)];
      ran := ran + [fasta];
      after := after[out := produced(out)];
      i := i + 1;
    }
    assert chosen[..|chosen|] == chosen;
    assert commands == Commands(inDir, outDir, ran);
  }

}
