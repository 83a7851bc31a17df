/** The multiple-alignment stage (pipeline_utils/align_utils.py): which
    FASTA files are sent to the Clustal Omega service, the e-mail sent
    with them, when a job counts as over, and where its alignment and
    tree are saved. The service is outside the model: what each request
    returns is a parameter. */
module AlignUtils {
  import opened Common

  const DefaultEmail: string := "example@example.com"

  /** The e-mail typed, stripped; `n`, `N` or nothing means the default. */
  function Email(answer: string): string
  {
    var e := Strip(answer);
    if Lower(e) == "n" || e == [] then DefaultEmail else e
  }

  /** `s.lower() == 'n'` holds exactly for `n` and `N`. */
  lemma LowerIsN(s: string)
    ensures Lower(s) == "n" <==> s == "n" || s == "N"
  {
    if s == "n" || s == "N" {
      assert Lower(s)[0] == 'n';
    }
    if |Lower(s)| == 1 && Lower(s)[0] == 'n' {
      assert s == [s[0]];
    }
  }

  /** The answers that mean "use the default", and otherwise the stripped
      answer itself. */
  lemma EmailMeaning(answer: string)
    ensures var e := Strip(answer);
      e == [] || e == "n" || e == "N" ==> Email(answer) == DefaultEmail
    ensures var e := Strip(answer);
      !(e == [] || e == "n" || e == "N") ==> Email(answer) == e
    ensures Email(answer) != []
  {
    LowerIsN(Strip(answer));
  }

  // ---------------------------------------------------------------------
  // Waiting for a job (align_utils.py:73-84)
  // ---------------------------------------------------------------------

  /** The statuses that end the polling loop. */
  predicate Final(status: string) { status == "FINISHED" || status == "ERROR" }

  /** The first final status among the (stripped) status responses, or
      `None` when the job never leaves the pending states within them. */
  function FirstFinal(polls: seq<string>): (r: Option<string>)
    ensures r.Some? ==> Final(r.value)
  {
    if polls == [] then None
    else if Final(Strip(polls[0])) then Some(Strip(polls[0]))
    else FirstFinal(polls[1..])
  }

  /** The first response `stop` accepts after `norm`, normalised. */
  function FirstBy(polls: seq<string>, norm: string -> string, stop: string -> bool): Option<string>
  {
    if polls == [] then None
    else if stop(norm(polls[0])) then Some(norm(polls[0]))
    else FirstBy(polls[1..], norm, stop)
  }

  /** What `FirstBy` finds is the first accepted response. */
  lemma {:induction false} FirstByFound(polls: seq<string>, norm: string -> string, stop: string -> bool)
    requires FirstBy(polls, norm, stop).Some?
    ensures exists k :: (0 <= k < |polls| && norm(polls[k]) == FirstBy(polls, norm, stop).value
                         && forall j :: 0 <= j < k ==> !stop(norm(polls[j])))
  {
    if !stop(norm(polls[0])) {
      var rest := polls[1..];
      FirstByFound(rest, norm, stop);
      var k :| 0 <= k < |rest| && norm(rest[k]) == FirstBy(rest, norm, stop).value
        && forall j :: 0 <= j < k ==> !stop(norm(rest[j]));
      var w := k + 1;
      forall j | 0 <= j < w ensures !stop(norm(polls[j])) {
        if j > 0 {
          assert polls[j] == rest[j - 1];
        }
      }
      assert polls[w] == rest[k];
    } else {
      assert norm(polls[0]) == FirstBy(polls, norm, stop).value;
    }
  }

  /** `FirstBy` finds nothing exactly when no response is accepted. */
  lemma {:induction false} FirstByNone(polls: seq<string>, norm: string -> string, stop: string -> bool)
    ensures FirstBy(polls, norm, stop).None? <==> forall k :: 0 <= k < |polls| ==> !stop(norm(polls[k]))
  {
    if polls != [] && !stop(norm(polls[0])) {
      var rest := polls[1..];
      FirstByNone(rest, norm, stop);
      if FirstBy(polls, norm, stop).None? {
        forall k | 0 <= k < |polls| ensures !stop(norm(polls[k])) {
          if k > 0 {
            assert polls[k] == rest[k - 1];
          }
        }
      }
      if forall k :: 0 <= k < |polls| ==> !stop(norm(polls[k])) {
        forall k | 0 <= k < |rest| ensures !stop(norm(rest[k])) {
          assert rest[k] == polls[k + 1];
        }
      }
    }
  }

  /** `FirstFinal` is `FirstBy` with stripping and the final statuses. */
  lemma {:induction false} FirstFinalIsFirstBy(polls: seq<string>)
    ensures FirstFinal(polls) == FirstBy(polls, Strip, Final)
  {
    if polls != [] {
      FirstFinalIsFirstBy(polls[1..]);
    }
  }

  /** `FirstFinal` finds the first final response, and `None` means that
      no response is final. */
  lemma FirstFinalMeaning(polls: seq<string>)
    ensures FirstFinal(polls).Some? ==>
      exists k :: 0 <= k < |polls| && Strip(polls[k]) == FirstFinal(polls).value
        && forall j :: 0 <= j < k ==> !Final(Strip(polls[j]))
    ensures FirstFinal(polls).None? <==> forall k :: 0 <= k < |polls| ==> !Final(Strip(polls[k]))
  {
    FirstFinalIsFirstBy(polls);
    if FirstFinal(polls).Some? {
      FirstByFound(polls, Strip, Final);
    }
    FirstByNone(polls, Strip, Final);
  }

  /** The polling loop: starts from the empty status and polls until a
      final one comes back, or the responses run out. */
  method WaitForJob(polls: seq<string>) returns (status: Option<string>)
    ensures status == FirstFinal(polls)
  {
    var current := "";
    var i := 0;
    while !Final(current) && i < |polls|
      invariant 0 <= i <= |polls|
      invariant Final(current) ==> FirstFinal(polls) == Some(current)
      invariant !Final(current) ==> FirstFinal(polls) == FirstFinal(polls[i..])
    {
      assert polls[i..][1..] == polls[i + 1..];
      current := Strip(polls[i]);
      i := i + 1;
    }
    if Final(current) {
      status := Some(current);
    } else {
      assert polls[i..] == [];
      status := None;
    }
  }

  // ---------------------------------------------------------------------
  // Output names (align_utils.py:86-112)
  // ---------------------------------------------------------------------

  /** `<outDir>/<base>`, the base being the file name without extension. */
  function Folder(outDir: string, fasta: string): string
  {
    PathJoin(outDir, Stem(fasta))
  }

  function AlignmentPath(outDir: string, fasta: string): string
  {
    PathJoin(Folder(outDir, fasta), Stem(fasta) + "_clustalo_alinhamento.clustal")
  }

  function TreePath(outDir: string, fasta: string): string
  {
    PathJoin(Folder(outDir, fasta), Stem(fasta) + "_tree.nwk")
  }

  /** For `<name>.fasta` the folder is `<outDir>/<name>` and the two
      result files are named after `<name>`. */
  lemma OutputNames(outDir: string, name: string)
    requires '/' !in name
    requires exists k :: 0 <= k < |name| && name[k] != '.'
    ensures Folder(outDir, name + ".fasta") == PathJoin(outDir, name)
    ensures AlignmentPath(outDir, name + ".fasta") == PathJoin(PathJoin(outDir, name), name + "_clustalo_alinhamento.clustal")
    ensures TreePath(outDir, name + ".fasta") == PathJoin(PathJoin(outDir, name), name + "_tree.nwk")
  {
    FastaStem(name);
  }

  /** `<name>.fasta` has stem `<name>`. */
  lemma FastaStem(name: string)
    requires '/' !in name
    requires exists k :: 0 <= k < |name| && name[k] != '.'
    ensures Stem(name + ".fasta") == name
  {
    var ext := "fasta";
    assert '/' !in ext && '.' !in ext by {
      assert forall i :: 0 <= i < |ext| ==> ext[i] != '/' && ext[i] != '.';
    }
    StemOfName(name, ext);
    assert "." + ext == ".fasta";
    assert name + "." + ext == name + ("." + ext);
  }

  /** A file's alignment and tree never overwrite each other. */
  lemma AlignmentIsNotTree(outDir: string, fasta: string)
    ensures AlignmentPath(outDir, fasta) != TreePath(outDir, fasta)
  {
    var s := Stem(fasta);
    var a := s + "_clustalo_alinhamento.clustal";
    var t := s + "_tree.nwk";
    assert a[0] == (if s == [] then '_' else s[0]);
    assert t[0] == (if s == [] then '_' else s[0]);
    assert |a| != |t|;
    if StartsWith(a, "/") {
      assert StartsWith(t, "/");
    } else {
      assert !StartsWith(t, "/");
      PathJoinInjective(Folder(outDir, fasta), a, t);
    }
  }

  // ---------------------------------------------------------------------
  // The per-file loop (align_utils.py:49-117)
  // ---------------------------------------------------------------------

  /** The form posted to start a job. */
  datatype Submission = Submission(email: string, stype: string, sequence: string,
                                   outfmt: string, guidetreeout: string)

  function Form(email: string, data: string): Submission
  {
    Submission(email, "protein", data, "clustal", "true")
  }

  /** What the service does with one job: the status responses, the
      alignment text, whether that text parses as a Clustal alignment, and
      the tree text. */
  datatype Job = Job(polls: seq<string>, alignment: string, parses: bool, tree: string)

  /** `Aligned` is the dict of alignments returned (still growing inside
      the loop), `Failed` a return of `None`, `Stalled` a job that never
      reported a final status, on which the stage waits for ever. */
  datatype Outcome = Aligned(results: map<string, string>) | Failed | Stalled

  datatype Progress = Progress(outcome: Outcome, written: map<string, string>, posted: seq<Submission>)

  /** The job of the `k`-th chosen file ended with `FINISHED`. */
  predicate Finished(jobs: nat -> Option<Job>, k: nat)
  {
    jobs(k).Some? && FirstFinal(jobs(k).value.polls) == Some("FINISHED")
  }

  /** The `k`-th chosen file. `read` gives the file's text (`None`: it
      cannot be read); `jobs(k)` the service's answers for the `k`-th job
      (`None`: an HTTP request failed). Each failure raises, and the stage
      returns `None`. */
  function FileStep(p: Progress, k: nat, fasta: string, email: string, inDir: string, outDir: string,
                    read: string -> Option<string>, jobs: nat -> Option<Job>): Progress
  {
    if !p.outcome.Aligned? then p
    else
      match read(PathJoin(inDir, fasta))
      case None => Progress(Failed, p.written, p.posted)
      case Some(data) =>
        var posted := p.posted + [Form(email, data)];
        match jobs(k)
        case None => Progress(Failed, p.written, posted)
        case Some(job) =>
          match FirstFinal(job.polls)
          case None => Progress(Stalled, p.written, posted)
          case Some(status) =>
            if status == "ERROR" then Progress(p.outcome, p.written, posted)
            else
              var written := p.written[AlignmentPath(outDir, fasta) := job.alignment];
              if !job.parses then Progress(Failed, written, posted)
              else Progress(Aligned(p.outcome.results[fasta := job.alignment]),
                            written[TreePath(outDir, fasta) := job.tree], posted)
  }

  /** The loop over the chosen files, in order. */
  function Pass(chosen: seq<string>, email: string, inDir: string, outDir: string,
                read: string -> Option<string>, jobs: nat -> Option<Job>): Progress
  {
    if chosen == [] then Progress(Aligned(map[]), map[], [])
    else
      var k := |chosen| - 1;
      FileStep(Pass(chosen[..k], email, inDir, outDir, read, jobs), k, chosen[k], email, inDir, outDir, read, jobs)
  }

  /** `alinhar_dominios_clustalo_online`; a `None` listing stands for
      `os.listdir` failing. */
  function Stage(listing: Option<seq<string>>, answer: string, emailAnswer: string, inDir: string,
                 outDir: string, read: string -> Option<string>, jobs: nat -> Option<Job>): Progress
  {
    if listing.None? then Progress(Failed, map[], [])
    else
      var files := FastaFiles(listing.value);
      if files == [] then Progress(Failed, map[], [])
      else
        var chosen := SelectByNumbers(files, answer);
        if chosen == [] then Progress(Failed, map[], [])
        else Pass(chosen, Email(emailAnswer), inDir, outDir, read, jobs)
  }

  // ---------------------------------------------------------------------
  // What the loop guarantees
  // ---------------------------------------------------------------------

  /** Every form posted carries the e-mail and asks for a protein
      alignment in Clustal format with a guide tree; at most one form is
      posted per chosen file. */
  lemma {:induction false} PostedForms(chosen: seq<string>, email: string, inDir: string, outDir: string,
                                       read: string -> Option<string>, jobs: nat -> Option<Job>)
    ensures var posted := Pass(chosen, email, inDir, outDir, read, jobs).posted;
      |posted| <= |chosen| &&
      forall i :: 0 <= i < |posted| ==>
        (posted[i].email == email && posted[i].stype == "protein"
         && posted[i].outfmt == "clustal" && posted[i].guidetreeout == "true")
    decreases |chosen|
  {
    if chosen != [] {
      var k := |chosen| - 1;
      var p := Pass(chosen[..k], email, inDir, outDir, read, jobs);
      PostedForms(chosen[..k], email, inDir, outDir, read, jobs);
      StepPosted(p, k, chosen[k], email, inDir, outDir, read, jobs);
      assert Pass(chosen, email, inDir, outDir, read, jobs) == FileStep(p, k, chosen[k], email, inDir, outDir, read, jobs);
    }
  }

  /** One file posts at most one form, carrying the e-mail, after the
      forms already posted. */
  lemma StepPosted(p: Progress, k: nat, fasta: string, email: string, inDir: string, outDir: string,
                   read: string -> Option<string>, jobs: nat -> Option<Job>)
    ensures var q := FileStep(p, k, fasta, email, inDir, outDir, read, jobs).posted;
      q == p.posted || (exists data :: q == p.posted + [Form(email, data)])
  {
    var q := FileStep(p, k, fasta, email, inDir, outDir, read, jobs).posted;
    if p.outcome.Aligned? && read(PathJoin(inDir, fasta)).Some? {
      var data := read(PathJoin(inDir, fasta)).value;
      assert q == p.posted + [Form(email, data)];
    }
  }

  /** One file writes at most its own two result files, and only when its
      job finished. */
  lemma StepWritten(p: Progress, k: nat, fasta: string, email: string, inDir: string, outDir: string,
                    read: string -> Option<string>, jobs: nat -> Option<Job>)
    ensures forall path :: path in FileStep(p, k, fasta, email, inDir, outDir, read, jobs).written ==>
      path in p.written || (Finished(jobs, k) && (path == AlignmentPath(outDir, fasta) || path == TreePath(outDir, fasta)))
  {
    var q := FileStep(p, k, fasta, email, inDir, outDir, read, jobs);
    if p.outcome.Aligned? && read(PathJoin(inDir, fasta)).Some? && jobs(k).Some? {
      var job := jobs(k).value;
      if FirstFinal(job.polls).Some? && FirstFinal(job.polls).value != "ERROR" {
        assert Finished(jobs, k);
        assert q.written.Keys <= p.written.Keys + {AlignmentPath(outDir, fasta), TreePath(outDir, fasta)};
      } else {
        assert q.written == p.written;
      }
    } else {
      assert q.written == p.written;
    }
  }

  /** A job that ends in `ERROR` skips its file: the form was posted, but
      the loop goes on with the same dict and nothing is written. */
  lemma ErrorSkipsFile(p: Progress, k: nat, fasta: string, email: string, inDir: string, outDir: string,
                       read: string -> Option<string>, jobs: nat -> Option<Job>)
    requires p.outcome.Aligned? && read(PathJoin(inDir, fasta)).Some? && jobs(k).Some?
    requires FirstFinal(jobs(k).value.polls) == Some("ERROR")
    ensures FileStep(p, k, fasta, email, inDir, outDir, read, jobs)
         == Progress(p.outcome, p.written, p.posted + [Form(email, read(PathJoin(inDir, fasta)).value)])
  {
  }

  /** Only the two result files of finished jobs are written. */
  lemma {:induction false} WrittenAreResultsOfFinished(chosen: seq<string>, email: string, inDir: string,
                                                      outDir: string, read: string -> Option<string>,
                                                      jobs: nat -> Option<Job>)
    ensures forall path :: path in Pass(chosen, email, inDir, outDir, read, jobs).written ==>
      exists k :: (0 <= k < |chosen| && Finished(jobs, k)
        && (path == AlignmentPath(outDir, chosen[k]) || path == TreePath(outDir, chosen[k])))
    decreases |chosen|
  {
    if chosen != [] {
      var k := |chosen| - 1;
      var init := chosen[..k];
      WrittenAreResultsOfFinished(init, email, inDir, outDir, read, jobs);
      var p := Pass(init, email, inDir, outDir, read, jobs);
      var written := Pass(chosen, email, inDir, outDir, read, jobs).written;
      assert written == FileStep(p, k, chosen[k], email, inDir, outDir, read, jobs).written;
      StepWritten(p, k, chosen[k], email, inDir, outDir, read, jobs);
      forall path | path in written
        ensures exists i :: (0 <= i < |chosen| && Finished(jobs, i)
          && (path == AlignmentPath(outDir, chosen[i]) || path == TreePath(outDir, chosen[i])))
      {
        if path in p.written {
          var i :| 0 <= i < |init| && Finished(jobs, i)
            && (path == AlignmentPath(outDir, init[i]) || path == TreePath(outDir, init[i]));
          assert chosen[i] == init[i];
        } else {
          assert Finished(jobs, k) && (path == AlignmentPath(outDir, chosen[k]) || path == TreePath(outDir, chosen[k]));
        }
      }
    }
  }

  /** When no job finishes, not a single file is written. */
  lemma ErrorsWriteNothing(chosen: seq<string>, email: string, inDir: string, outDir: string,
                           read: string -> Option<string>, jobs: nat -> Option<Job>)
    requires forall k :: 0 <= k < |chosen| ==> !Finished(jobs, k)
    ensures Pass(chosen, email, inDir, outDir, read, jobs).written == map[]
  {
    WrittenAreResultsOfFinished(chosen, email, inDir, outDir, read, jobs);
  }

  /** One file adds its alignment to the dict when its job finished and
      leaves the dict alone otherwise; a running loop was running before. */
  lemma StepResults(p: Progress, k: nat, fasta: string, email: string, inDir: string, outDir: string,
                    read: string -> Option<string>, jobs: nat -> Option<Job>)
    requires FileStep(p, k, fasta, email, inDir, outDir, read, jobs).outcome.Aligned?
    ensures p.outcome.Aligned?
    ensures FileStep(p, k, fasta, email, inDir, outDir, read, jobs).outcome.results
         == if Finished(jobs, k) then p.outcome.results[fasta := jobs(k).value.alignment] else p.outcome.results
  {
    var q := FileStep(p, k, fasta, email, inDir, outDir, read, jobs);
    assert p.outcome.Aligned? && read(PathJoin(inDir, fasta)).Some? && jobs(k).Some?;
    var job := jobs(k).value;
    assert FirstFinal(job.polls).Some?;
    if FirstFinal(job.polls).value == "ERROR" {
      assert q.outcome == p.outcome;
    } else {
      assert q.outcome == Aligned(p.outcome.results[fasta := job.alignment]);
    }
  }

  /** The files one chosen file writes into `m`: its alignment, then its
      tree, exactly when its job finished. */
  function StepWrites(outDir: string, fasta: string, jobs: nat -> Option<Job>, k: nat,
                      m: map<string, string>): map<string, string>
  {
    if Finished(jobs, k)
    then m[AlignmentPath(outDir, fasta) := jobs(k).value.alignment][TreePath(outDir, fasta) := jobs(k).value.tree]
    else m
  }

  /** In a running loop one file writes what `StepWrites` says. */
  lemma StepSaved(p: Progress, k: nat, fasta: string, email: string, inDir: string, outDir: string,
                  read: string -> Option<string>, jobs: nat -> Option<Job>)
    requires FileStep(p, k, fasta, email, inDir, outDir, read, jobs).outcome.Aligned?
    ensures p.outcome.Aligned?
    ensures FileStep(p, k, fasta, email, inDir, outDir, read, jobs).written == StepWrites(outDir, fasta, jobs, k, p.written)
  {
    assert p.outcome.Aligned? && read(PathJoin(inDir, fasta)).Some? && jobs(k).Some?;
  }

  /** The `j`-th chosen file writes `path`. */
  predicate WritesTo(outDir: string, chosen: seq<string>, jobs: nat -> Option<Job>, j: int, path: string)
  {
    0 <= j < |chosen| && Finished(jobs, j)
    && (path == AlignmentPath(outDir, chosen[j]) || path == TreePath(outDir, chosen[j]))
  }

  /** `w` holds the alignment and the tree files of every finished job. */
  predicate KeysSaved(outDir: string, chosen: seq<string>, jobs: nat -> Option<Job>, w: map<string, string>)
  {
    forall k :: 0 <= k < |chosen| && Finished(jobs, k) ==>
      AlignmentPath(outDir, chosen[k]) in w && TreePath(outDir, chosen[k]) in w
  }

  /** `w` holds each finished job's alignment unless a later finished job
      writes that path. */
  predicate AlignmentsSaved(outDir: string, chosen: seq<string>, jobs: nat -> Option<Job>, w: map<string, string>)
  {
    forall k :: 0 <= k < |chosen| && Finished(jobs, k)
                && (forall j :: k < j < |chosen| ==> !WritesTo(outDir, chosen, jobs, j, AlignmentPath(outDir, chosen[k]))) ==>
      AlignmentPath(outDir, chosen[k]) in w && w[AlignmentPath(outDir, chosen[k])] == jobs(k).value.alignment
  }

  /** `w` holds each finished job's tree unless a later finished job writes
      that path. */
  predicate TreesSaved(outDir: string, chosen: seq<string>, jobs: nat -> Option<Job>, w: map<string, string>)
  {
    forall k :: 0 <= k < |chosen| && Finished(jobs, k)
                && (forall j :: k < j < |chosen| ==> !WritesTo(outDir, chosen, jobs, j, TreePath(outDir, chosen[k]))) ==>
      TreePath(outDir, chosen[k]) in w && w[TreePath(outDir, chosen[k])] == jobs(k).value.tree
  }

  /** One file keeps every path on disk and adds its own two when its job
      finished. */
  lemma StepWritesKeys(outDir: string, fasta: string, jobs: nat -> Option<Job>, k: nat, m: map<string, string>)
    ensures m.Keys <= StepWrites(outDir, fasta, jobs, k, m).Keys
    ensures Finished(jobs, k) ==> AlignmentPath(outDir, fasta) in StepWrites(outDir, fasta, jobs, k, m)
                                  && TreePath(outDir, fasta) in StepWrites(outDir, fasta, jobs, k, m)
  {
  }

  lemma KeysSnoc(outDir: string, chosen: seq<string>, jobs: nat -> Option<Job>, m: map<string, string>)
    requires chosen != [] && KeysSaved(outDir, chosen[..|chosen| - 1], jobs, m)
    ensures KeysSaved(outDir, chosen, jobs, StepWrites(outDir, chosen[|chosen| - 1], jobs, |chosen| - 1, m))
  {
    var n := |chosen| - 1;
    var init := chosen[..n];
    var w := StepWrites(outDir, chosen[n], jobs, n, m);
    StepWritesKeys(outDir, chosen[n], jobs, n, m);
    forall k | 0 <= k < |chosen| && Finished(jobs, k)
      ensures AlignmentPath(outDir, chosen[k]) in w && TreePath(outDir, chosen[k]) in w
    {
      if k < n {
        assert init[k] == chosen[k];
      }
    }
  }

  /** One more file keeps an earlier job's file unless it writes that path. */
  lemma NoLaterWrite(outDir: string, chosen: seq<string>, init: seq<string>, jobs: nat -> Option<Job>, k: nat, path: string)
    requires k < |chosen| - 1 && init == chosen[..|chosen| - 1]
    requires forall j :: k < j < |chosen| ==> !WritesTo(outDir, chosen, jobs, j, path)
    ensures forall j :: k < j < |init| ==> !WritesTo(outDir, init, jobs, j, path)
    ensures !WritesTo(outDir, chosen, jobs, |chosen| - 1, path)
  {
    forall j | k < j < |init| ensures !WritesTo(outDir, init, jobs, j, path) {
      assert init[j] == chosen[j];
      assert !WritesTo(outDir, chosen, jobs, j, path);
    }
  }

  /** An earlier job's alignment survives one more file. */
  lemma AlignmentKept(outDir: string, chosen: seq<string>, init: seq<string>, jobs: nat -> Option<Job>,
                      m: map<string, string>, k: nat)
    requires chosen != [] && init == chosen[..|chosen| - 1] && k < |init|
    requires AlignmentsSaved(outDir, init, jobs, m) && Finished(jobs, k)
    requires forall j :: k < j < |chosen| ==> !WritesTo(outDir, chosen, jobs, j, AlignmentPath(outDir, chosen[k]))
    ensures var w := StepWrites(outDir, chosen[|init|], jobs, |init|, m);
      AlignmentPath(outDir, chosen[k]) in w && w[AlignmentPath(outDir, chosen[k])] == jobs(k).value.alignment
  {
    assert init[k] == chosen[k];
    NoLaterWrite(outDir, chosen, init, jobs, k, AlignmentPath(outDir, chosen[k]));
  }

  /** An earlier job's tree survives one more file. */
  lemma TreeKept(outDir: string, chosen: seq<string>, init: seq<string>, jobs: nat -> Option<Job>,
                 m: map<string, string>, k: nat)
    requires chosen != [] && init == chosen[..|chosen| - 1] && k < |init|
    requires TreesSaved(outDir, init, jobs, m) && Finished(jobs, k)
    requires forall j :: k < j < |chosen| ==> !WritesTo(outDir, chosen, jobs, j, TreePath(outDir, chosen[k]))
    ensures var w := StepWrites(outDir, chosen[|init|], jobs, |init|, m);
      TreePath(outDir, chosen[k]) in w && w[TreePath(outDir, chosen[k])] == jobs(k).value.tree
  {
    assert init[k] == chosen[k];
    NoLaterWrite(outDir, chosen, init, jobs, k, TreePath(outDir, chosen[k]));
  }

  lemma AlignmentsSnoc(outDir: string, chosen: seq<string>, jobs: nat -> Option<Job>, m: map<string, string>)
    requires chosen != [] && AlignmentsSaved(outDir, chosen[..|chosen| - 1], jobs, m)
    ensures AlignmentsSaved(outDir, chosen, jobs, StepWrites(outDir, chosen[|chosen| - 1], jobs, |chosen| - 1, m))
  {
    var n := |chosen| - 1;
    var init := chosen[..n];
    var w := StepWrites(outDir, chosen[n], jobs, n, m);
    forall k | 0 <= k < |chosen| && Finished(jobs, k)
               && (forall j :: k < j < |chosen| ==> !WritesTo(outDir, chosen, jobs, j, AlignmentPath(outDir, chosen[k])))
      ensures AlignmentPath(outDir, chosen[k]) in w && w[AlignmentPath(outDir, chosen[k])] == jobs(k).value.alignment
    {
      if k < n {
        AlignmentKept(outDir, chosen, init, jobs, m, k);
      } else {
        AlignmentIsNotTree(outDir, chosen[n]);
      }
    }
  }

  lemma TreesSnoc(outDir: string, chosen: seq<string>, jobs: nat -> Option<Job>, m: map<string, string>)
    requires chosen != [] && TreesSaved(outDir, chosen[..|chosen| - 1], jobs, m)
    ensures TreesSaved(outDir, chosen, jobs, StepWrites(outDir, chosen[|chosen| - 1], jobs, |chosen| - 1, m))
  {
    var n := |chosen| - 1;
    var init := chosen[..n];
    var w := StepWrites(outDir, chosen[n], jobs, n, m);
    forall k | 0 <= k < |chosen| && Finished(jobs, k)
               && (forall j :: k < j < |chosen| ==> !WritesTo(outDir, chosen, jobs, j, TreePath(outDir, chosen[k])))
      ensures TreePath(outDir, chosen[k]) in w && w[TreePath(outDir, chosen[k])] == jobs(k).value.tree
    {
      if k < n {
        TreeKept(outDir, chosen, init, jobs, m, k);
      }
    }
  }

  /** A running loop has saved the alignment and the tree of every chosen
      file whose job finished; each holds that job's text unless a later
      finished job writes the same path. */
  lemma {:induction false} SavedResults(chosen: seq<string>, email: string, inDir: string, outDir: string,
                                        read: string -> Option<string>, jobs: nat -> Option<Job>)
    requires Pass(chosen, email, inDir, outDir, read, jobs).outcome.Aligned?
    ensures var w := Pass(chosen, email, inDir, outDir, read, jobs).written;
      && KeysSaved(outDir, chosen, jobs, w)
      && AlignmentsSaved(outDir, chosen, jobs, w)
      && TreesSaved(outDir, chosen, jobs, w)
    decreases |chosen|
  {
    if chosen != [] {
      var n := |chosen| - 1;
      var init := chosen[..n];
      var p := Pass(init, email, inDir, outDir, read, jobs);
      StepSaved(p, n, chosen[n], email, inDir, outDir, read, jobs);
      SavedResults(init, email, inDir, outDir, read, jobs);
      assert Pass(chosen, email, inDir, outDir, read, jobs).written
          == StepWrites(outDir, chosen[n], jobs, n, p.written);
      KeysSnoc(outDir, chosen, jobs, p.written);
      AlignmentsSnoc(outDir, chosen, jobs, p.written);
      TreesSnoc(outDir, chosen, jobs, p.written);
    }
  }

  /** A dict filled in order: entry `k` stores `value(k)` under
      `chosen[k]` when `done(k)`, later entries overwriting earlier ones. */
  function Collect(chosen: seq<string>, done: nat -> bool, value: nat -> string): map<string, string>
  {
    if chosen == [] then map[]
    else
      var k := |chosen| - 1;
      var r := Collect(chosen[..k], done, value);
      if done(k) then r[chosen[k] := value(k)] else r
  }

  /** The keys of `Collect` are the names of the entries done. */
  lemma {:induction false} CollectKeys(chosen: seq<string>, done: nat -> bool, value: nat -> string)
    ensures forall f :: f in Collect(chosen, done, value) ==>
      exists k :: 0 <= k < |chosen| && chosen[k] == f && done(k)
    ensures forall k :: 0 <= k < |chosen| && done(k) ==> chosen[k] in Collect(chosen, done, value)
    decreases |chosen|
  {
    if chosen != [] {
      var k := |chosen| - 1;
      var init := chosen[..k];
      CollectKeys(init, done, value);
      var results := Collect(chosen, done, value);
      forall f | f in results
        ensures exists i :: 0 <= i < |chosen| && chosen[i] == f && done(i)
      {
        if !(done(k) && f == chosen[k]) {
          assert f in Collect(init, done, value);
          var i :| 0 <= i < |init| && init[i] == f && done(i);
          assert chosen[i] == f;
        }
      }
      forall i | 0 <= i < |chosen| && done(i) ensures chosen[i] in results {
        if i < k {
          assert init[i] == chosen[i];
        }
      }
    }
  }

  /** Each key of `Collect` holds the value of its last entry done. */
  lemma {:induction false} CollectValues(chosen: seq<string>, done: nat -> bool, value: nat -> string)
    ensures forall f :: f in Collect(chosen, done, value) ==>
        exists k :: (0 <= k < |chosen| && chosen[k] == f && done(k)
          && Collect(chosen, done, value)[f] == value(k)
          && forall j :: k < j < |chosen| && chosen[j] == f ==> !done(j))
    decreases |chosen|
  {
    if chosen != [] {
      var k := |chosen| - 1;
      var init := chosen[..k];
      var r := Collect(init, done, value);
      CollectValues(init, done, value);
      var results := Collect(chosen, done, value);
      forall f | f in results
        ensures exists i :: (0 <= i < |chosen| && chosen[i] == f && done(i)
          && results[f] == value(i)
          && forall j :: i < j < |chosen| && chosen[j] == f ==> !done(j))
      {
        if !(done(k) && f == chosen[k]) {
          assert f in r && results[f] == r[f];
          var i :| 0 <= i < |init| && init[i] == f && done(i)
            && r[f] == value(i)
            && forall j :: i < j < |init| && init[j] == f ==> !done(j);
          assert chosen[i] == f;
          forall j | i < j < |chosen| && chosen[j] == f ensures !done(j) {
            if j < k { assert init[j] == chosen[j]; }
          }
        }
      }
    }
  }

  /** The alignment of a job (empty for a failed request). */
  function AlignmentOf(jobs: nat -> Option<Job>, k: nat): string
  {
    if jobs(k).Some? then jobs(k).value.alignment else []
  }

  /** While the loop runs, its dict stores the alignment of each finished
      job under its file's name. */
  lemma {:induction false} ResultsAreCollected(chosen: seq<string>, email: string, inDir: string,
                                              outDir: string, read: string -> Option<string>,
                                              jobs: nat -> Option<Job>)
    requires Pass(chosen, email, inDir, outDir, read, jobs).outcome.Aligned?
    ensures Pass(chosen, email, inDir, outDir, read, jobs).outcome.results
         == Collect(chosen, (k: nat) => Finished(jobs, k), (k: nat) => AlignmentOf(jobs, k))
    decreases |chosen|
  {
    if chosen != [] {
      var k := |chosen| - 1;
      StepResults(Pass(chosen[..k], email, inDir, outDir, read, jobs), k, chosen[k], email, inDir, outDir, read, jobs);
      ResultsAreCollected(chosen[..k], email, inDir, outDir, read, jobs);
    }
  }

  /** A stage that returns a dict holds every chosen file whose job
      finished. */
  lemma ResultsHoldFinished(chosen: seq<string>, email: string, inDir: string, outDir: string,
                            read: string -> Option<string>, jobs: nat -> Option<Job>)
    requires Pass(chosen, email, inDir, outDir, read, jobs).outcome.Aligned?
    ensures forall k :: 0 <= k < |chosen| && Finished(jobs, k) ==>
      chosen[k] in Pass(chosen, email, inDir, outDir, read, jobs).outcome.results
  {
    var done := (k: nat) => Finished(jobs, k);
    var value := (k: nat) => AlignmentOf(jobs, k);
    ResultsAreCollected(chosen, email, inDir, outDir, read, jobs);
    CollectKeys(chosen, done, value);
  }

  /** ... and nothing else: each file in it is a chosen file whose job
      finished, holding the alignment of its last finished job. */
  lemma ResultsAreFinished(chosen: seq<string>, email: string, inDir: string, outDir: string,
                           read: string -> Option<string>, jobs: nat -> Option<Job>)
    requires Pass(chosen, email, inDir, outDir, read, jobs).outcome.Aligned?
    ensures forall f :: f in Pass(chosen, email, inDir, outDir, read, jobs).outcome.results ==>
        exists k :: (0 <= k < |chosen| && chosen[k] == f && Finished(jobs, k)
          && Pass(chosen, email, inDir, outDir, read, jobs).outcome.results[f] == jobs(k).value.alignment
          && forall j :: k < j < |chosen| && chosen[j] == f ==> !Finished(jobs, j))
  {
    var done := (k: nat) => Finished(jobs, k);
    var value := (k: nat) => AlignmentOf(jobs, k);
    ResultsAreCollected(chosen, email, inDir, outDir, read, jobs);
    CollectValues(chosen, done, value);
  }

  /** Without a FASTA file or a chosen one, nothing is posted or written
      and `None` is returned. */
  lemma NothingChosen(listing: Option<seq<string>>, answer: string, emailAnswer: string, inDir: string,
                      outDir: string, read: string -> Option<string>, jobs: nat -> Option<Job>)
    requires listing.None? || SelectByNumbers(FastaFiles(listing.value), answer) == []
    ensures Stage(listing, answer, emailAnswer, inDir, outDir, read, jobs) == Progress(Failed, map[], [])
  {
  }

  /** Once a read, a request or a parse has failed, or a job has stalled,
      later files change nothing. */
  lemma {:induction false} FailureSticks(chosen: seq<string>, more: seq<string>, email: string, inDir: string,
                                         outDir: string, read: string -> Option<string>, jobs: nat -> Option<Job>)
    requires !Pass(chosen, email, inDir, outDir, read, jobs).outcome.Aligned?
    ensures Pass(chosen + more, email, inDir, outDir, read, jobs) == Pass(chosen, email, inDir, outDir, read, jobs)
    decreases |more|
  {
    if more != [] {
      var init := more[..|more| - 1];
      assert (chosen + more)[..|chosen + more| - 1] == chosen + init;
      FailureSticks(chosen, init, email, inDir, outDir, read, jobs);
    } else {
      assert chosen + more == chosen;
    }
  }

  // ---------------------------------------------------------------------
  // The stage as loops
  // ---------------------------------------------------------------------

  /** `alinhar_dominios_clustalo_online`: the outcome, the files written
      and the forms posted. */
  method AlignDomains(listing: Option<seq<string>>, answer: string, emailAnswer: string, inDir: string,
                      outDir: string, read: string -> Option<string>, jobs: nat -> Option<Job>)
    returns (outcome: Outcome, written: map<string, string>, posted: seq<Submission>)
    ensures Progress(outcome, written, posted) == Stage(listing, answer, emailAnswer, inDir, outDir, read, jobs)
  {
    outcome, written, posted := Failed, map[], [];
    if listing.None? {
      return;
    }
    var files := FastaFiles(listing.value);
    if files == [] {
      return;
    }
    var chosen := SelectByNumbers(files, answer);
    if chosen == [] {
      return;
    }
    var email := Email(emailAnswer);
    outcome, written, posted := AlignAll(chosen, email, inDir, outDir, read, jobs);
  }

  /** The loop over the chosen files. */
  method AlignAll(chosen: seq<string>, email: string, inDir: string, outDir: string,
                  read: string -> Option<string>, jobs: nat -> Option<Job>)
    returns (outcome: Outcome, written: map<string, string>, posted: seq<Submission>)
    ensures Progress(outcome, written, posted) == Pass(chosen, email, inDir, outDir, read, jobs)
  {
    outcome, written, posted := Aligned(map[]), map[], [];
    var i := 0;
    while i < |chosen| && outcome.Aligned?
      invariant 0 <= i <= |chosen|
      invariant Progress(outcome, written, posted) == Pass(chosen[..i], email, inDir, outDir, read, jobs)
    {
      assert chosen[..i + 1][..i] == chosen[..i];
      outcome, written, posted := AlignOne(outcome, written, posted, i, chosen[i], email, inDir, outDir, read, jobs);
      i := i + 1;
    }
    if i < |chosen| {
      FailureSticks(chosen[..i], chosen[i..], email, inDir, outDir, read, jobs);
      assert chosen[..i] + chosen[i..] == chosen;
    } else {
      assert chosen[..i] == chosen;
    }
  }

  /** One file: read, post, wait, then save the alignment and the tree. */
  method AlignOne(outcome0: Outcome, written0: map<string, string>, posted0: seq<Submission>, k: nat,
                  fasta: string, email: string, inDir: string, outDir: string,
                  read: string -> Option<string>, jobs: nat -> Option<Job>)
    returns (outcome: Outcome, written: map<string, string>, posted: seq<Submission>)
    requires outcome0.Aligned?
    ensures Progress(outcome, written, posted)
         == FileStep(Progress(outcome0, written0, posted0), k, fasta, email, inDir, outDir, read, jobs)
  {
    outcome, written, posted := outcome0, written0, posted0;
    var data := read(PathJoin(inDir, fasta));
    if data.None? {
      outcome := Failed;
      return;
    }
    posted := posted + [Form(email, data.value)];
    var job := jobs(k);
    if job.None? {
      outcome := Failed;
      return;
    }
    var status := WaitForJob(job.value.polls);
    if status.None? {
      outcome := Stalled;
      return;
    }
    if status.value == "ERROR" {
      return;
    }
    written := written[AlignmentPath(outDir, fasta) := job.value.alignment];
    if !job.value.parses {
      outcome := Failed;
      return;
    }
    written := written[TreePath(outDir, fasta) := job.value.tree];
    outcome := Aligned(outcome.results[fasta := job.value.alignment]);
  }
}
