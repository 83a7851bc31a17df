/*
 * Preparation for modelling (pipeline_utils/model_utils.py): every record
 * of every FASTA file of a folder is written to a file of its own, named
 * after its sanitised id, in a sub-folder named after the FASTA file.
 */
module ModelUtils {
  import opened Common

  // ---------------------------------------------------------------------
  // Id sanitisation: re.sub(r'[^A-Za-z0-9_-]', '_', id) (model_utils.py:41)
  // ---------------------------------------------------------------------

  predicate AllowedInName(c: char) { IsAlnum(c) || c == '_' || c == '-' }

  function SanitizeChar(c: char): (r: char)
    ensures AllowedInName(r)
    ensures AllowedInName(c) ==> r == c
    ensures !AllowedInName(c) ==> r == '_'
  {
    if AllowedInName(c) then c else '_'
  }

  /** `nome_seq`. */
  function SanitizeId(id: string): (r: string)
    ensures |r| == |id|
    ensures forall i :: 0 <= i < |id| ==> r[i] == SanitizeChar(id[i])
  {
    if id == [] then [] else [SanitizeChar(id[0])] + SanitizeId(id[1..])
  }

  /** Same length, only allowed characters, and every allowed character
      kept in its place; every other one becomes `_`. */
  lemma SanitizeIdMeaning(id: string)
    ensures |SanitizeId(id)| == |id|
    ensures forall i :: 0 <= i < |id| ==> AllowedInName(SanitizeId(id)[i])
    ensures forall i :: 0 <= i < |id| && AllowedInName(id[i]) ==> SanitizeId(id)[i] == id[i]
    ensures forall i :: 0 <= i < |id| && !AllowedInName(id[i]) ==> SanitizeId(id)[i] == '_'
  {
  }

  /** An id made of allowed characters is left as it is. */
  lemma SanitizeIdFixed(id: string)
    requires forall i :: 0 <= i < |id| ==> AllowedInName(id[i])
    ensures SanitizeId(id) == id
  {
  }

  /** Sanitising twice is sanitising once. */
  lemma SanitizeIdIdempotent(id: string)
    ensures SanitizeId(SanitizeId(id)) == SanitizeId(id)
  {
    SanitizeIdFixed(SanitizeId(id));
  }

  /** Two ids that differ only in disallowed characters share a file. */
  lemma SanitizeIdCollision()
    ensures SanitizeId("sp|P1") == SanitizeId("sp.P1") == "sp_P1"
  {
  }

  // ---------------------------------------------------------------------
  // Output naming (model_utils.py:15, 34-35, 42)
  // ---------------------------------------------------------------------

  /** `<outDir>/<file name without extension>/<sanitised id>.fasta`. */
  function RecordPath(outDir: string, file: string, id: string): string
  {
    PathJoin(PathJoin(outDir, Stem(file)), SanitizeId(id) + ".fasta")
  }

  /** The paths of a file's records, in record order. */
  function RecordPaths(outDir: string, file: string, recs: seq<Entry>): seq<string>
  {
    seq(|recs|, k requires 0 <= k < |recs| => RecordPath(outDir, file, recs[k].id))
  }

  /** The files written for a file's records, one record after another. */
  function WriteAll(written: map<string, Entry>, outDir: string, file: string, recs: seq<Entry>): map<string, Entry>
  {
    if recs == [] then written
    else
      var last := recs[|recs| - 1];
      WriteAll(written, outDir, file, recs[..|recs| - 1])[RecordPath(outDir, file, last.id) := last]
  }

  /** One more record: its file is written after the others. */
  lemma WriteSnoc(written: map<string, Entry>, outDir: string, file: string, recs: seq<Entry>, i: nat)
    requires i < |recs|
    ensures WriteAll(written, outDir, file, recs[..i + 1])
         == WriteAll(written, outDir, file, recs[..i])[RecordPath(outDir, file, recs[i].id) := recs[i]]
  {
    var pre := recs[..i + 1];
    assert pre[..i] == recs[..i] && pre[i] == recs[i];
  }

  /** One more record: its path comes after the others. */
  lemma PathsSnoc(outDir: string, file: string, recs: seq<Entry>, i: nat)
    requires i < |recs|
    ensures RecordPaths(outDir, file, recs[..i + 1])
         == RecordPaths(outDir, file, recs[..i]) + [RecordPath(outDir, file, recs[i].id)]
  {
    var a := RecordPaths(outDir, file, recs[..i + 1]);
    var b := RecordPaths(outDir, file, recs[..i]) + [RecordPath(outDir, file, recs[i].id)];
    forall k | 0 <= k < |a|
      ensures a[k] == b[k]
    {
      assert recs[..i + 1][k] == recs[k];
      if k < i {
        assert recs[..i][k] == recs[k];
      }
    }
  }

  /** Writing the records adds exactly their paths. */
  lemma {:induction false} WriteAllKeys(written: map<string, Entry>, outDir: string, file: string, recs: seq<Entry>)
    ensures forall p :: p in WriteAll(written, outDir, file, recs) <==> p in written || p in RecordPaths(outDir, file, recs)
  {
    if recs != [] {
      var pre := recs[..|recs| - 1];
      var last := recs[|recs| - 1];
      WriteAllKeys(written, outDir, file, pre);
      WriteSnoc(written, outDir, file, recs, |recs| - 1);
      PathsSnoc(outDir, file, recs, |recs| - 1);
      assert recs[..|recs|] == recs;
    }
  }

  /** Records whose sanitised ids differ go to different files. */
  lemma RecordPathInjective(outDir: string, file: string, x: string, y: string)
    requires SanitizeId(x) != SanitizeId(y)
    ensures RecordPath(outDir, file, x) != RecordPath(outDir, file, y)
  {
    var a := SanitizeId(x) + ".fasta";
    var b := SanitizeId(y) + ".fasta";
    assert a != b by {
      if |SanitizeId(x)| == |SanitizeId(y)| {
        assert a[..|a| - 6] == SanitizeId(x) && b[..|b| - 6] == SanitizeId(y);
      } else {
        assert |a| != |b|;
      }
    }
    SanitizeIdNoSlash(x);
    SanitizeIdNoSlash(y);
    PathJoinInjective(PathJoin(outDir, Stem(file)), a, b);
  }

  lemma SanitizeIdNoSlash(x: string)
    ensures !StartsWith(SanitizeId(x) + ".fasta", "/")
  {
    var a := SanitizeId(x) + ".fasta";
    if |SanitizeId(x)| > 0 {
      assert a[0] == SanitizeId(x)[0];
    } else {
      assert a[0] == '.';
    }
  }

  /** Each record's file holds that record unless a later record of the
      same FASTA file has the same sanitised id. */
  lemma {:induction false} WriteAllLastWins(written: map<string, Entry>, outDir: string, file: string,
                                            recs: seq<Entry>, k: nat)
    requires k < |recs|
    requires forall j :: k < j < |recs| ==> SanitizeId(recs[j].id) != SanitizeId(recs[k].id)
    ensures RecordPath(outDir, file, recs[k].id) in WriteAll(written, outDir, file, recs)
    ensures WriteAll(written, outDir, file, recs)[RecordPath(outDir, file, recs[k].id)] == recs[k]
  {
    var pre := recs[..|recs| - 1];
    var last := recs[|recs| - 1];
    if k < |recs| - 1 {
      assert SanitizeId(last.id) != SanitizeId(recs[k].id);
      RecordPathInjective(outDir, file, last.id, recs[k].id);
      assert pre[k] == recs[k];
      forall j | k < j < |pre| ensures SanitizeId(pre[j].id) != SanitizeId(pre[k].id) {
        assert pre[j] == recs[j];
      }
      WriteAllLastWins(written, outDir, file, pre, k);
      WriteAllOther(written, outDir, file, recs, RecordPath(outDir, file, recs[k].id));
    } else {
      WriteAllLast(written, outDir, file, recs);
    }
  }

  /** The last record's file holds the last record. */
  lemma WriteAllLast(written: map<string, Entry>, outDir: string, file: string, recs: seq<Entry>)
    requires recs != []
    ensures var last := recs[|recs| - 1];
      var p := RecordPath(outDir, file, last.id);
      p in WriteAll(written, outDir, file, recs) && WriteAll(written, outDir, file, recs)[p] == last
  {
  }

  /** The last record leaves every other path as it was. */
  lemma WriteAllOther(written: map<string, Entry>, outDir: string, file: string, recs: seq<Entry>, p: string)
    requires recs != [] && p != RecordPath(outDir, file, recs[|recs| - 1].id)
    ensures var before := WriteAll(written, outDir, file, recs[..|recs| - 1]);
      var after := WriteAll(written, outDir, file, recs);
      (p in after <==> p in before) && (p in before ==> after[p] == before[p])
  {
    var before := WriteAll(written, outDir, file, recs[..|recs| - 1]);
    var q := RecordPath(outDir, file, recs[|recs| - 1].id);
    assert WriteAll(written, outDir, file, recs) == before[q := recs[|recs| - 1]];
  }

  // ---------------------------------------------------------------------
  // The stage (model_utils.py:9-57)
  // ---------------------------------------------------------------------

  /** What the stage has produced so far: `resultados_modelagem` and the
      record files written. */
  datatype Prep = Prep(results: map<string, seq<string>>, written: map<string, Entry>)

  /** One file of the loop; the flag is false once a file could not be
      read, and then nothing changes any more. */
  function FileStep(before: (bool, Prep), f: string, inDir: string, outDir: string,
                    parse: string -> Option<seq<Entry>>): (bool, Prep)
  {
    if !before.0 then before
    else
      var st := before.1;
      match parse(PathJoin(inDir, f))
      case None => (false, st)
      case Some(recs) =>
        if recs == [] then before
        else (true, Prep(st.results[f := RecordPaths(outDir, f, recs)], WriteAll(st.written, outDir, f, recs)))
  }

  /** The files processed in listing order; `parse` stands for the FASTA
      reader (`None` where it raises, which ends the stage). */
  function FilesEffect(files: seq<string>, inDir: string, outDir: string,
                       parse: string -> Option<seq<Entry>>): (bool, Prep)
  {
    if files == [] then (true, Prep(map[], map[]))
    else FileStep(FilesEffect(files[..|files| - 1], inDir, outDir, parse), files[|files| - 1], inDir, outDir, parse)
  }

  /** `enviar_para_modelagem`: `listing` is the folder's listing (`None`
      where it cannot be listed). The result is the map from each FASTA
      file to its record files, or `None` when there is no FASTA file or a
      file could not be read; the files written are returned beside it. */
  function Preparation(listing: Option<seq<string>>, inDir: string, outDir: string,
                       parse: string -> Option<seq<Entry>>): (Option<map<string, seq<string>>>, map<string, Entry>)
  {
    if listing.None? || FastaFiles(listing.value) == [] then (None, map[])
    else
      var e := FilesEffect(FastaFiles(listing.value), inDir, outDir, parse);
      (if e.0 then Some(e.1.results) else None, e.1.written)
  }

  /** A run that read every file read the files before the last one too,
      and the last file's records add its entry unless there are none. */
  lemma FilesEffectStep(files: seq<string>, inDir: string, outDir: string, parse: string -> Option<seq<Entry>>)
    requires files != [] && FilesEffect(files, inDir, outDir, parse).0
    ensures var mid := FilesEffect(files[..|files| - 1], inDir, outDir, parse);
      var f := files[|files| - 1];
      var r := parse(PathJoin(inDir, f));
      && mid.0 && r.Some?
      && FilesEffect(files, inDir, outDir, parse).1.results ==
           if r.value == [] then mid.1.results else mid.1.results[f := RecordPaths(outDir, f, r.value)]
  {
  }

  /** A run that read every file read the last one, and the files before
      it. */
  lemma FilesEffectReadLast(files: seq<string>, inDir: string, outDir: string, parse: string -> Option<seq<Entry>>)
    requires files != [] && FilesEffect(files, inDir, outDir, parse).0
    ensures FilesEffect(files[..|files| - 1], inDir, outDir, parse).0
    ensures parse(PathJoin(inDir, files[|files| - 1])).Some?
  {
  }

  lemma ReadThroughLast(files: seq<string>, inDir: string, parse: string -> Option<seq<Entry>>)
    requires files != []
    requires forall f :: f in files[..|files| - 1] ==> parse(PathJoin(inDir, f)).Some?
    requires parse(PathJoin(inDir, files[|files| - 1])).Some?
    ensures forall f :: f in files ==> parse(PathJoin(inDir, f)).Some?
  {
    var pre := files[..|files| - 1];
    assert files == pre + [files[|files| - 1]];
  }

  /** A run that read every file read each of them. */
  lemma {:induction false} AllFilesRead(files: seq<string>, inDir: string, outDir: string,
                                        parse: string -> Option<seq<Entry>>)
    requires FilesEffect(files, inDir, outDir, parse).0
    ensures forall f :: f in files ==> parse(PathJoin(inDir, f)).Some?
  {
    if files != [] {
      var pre := files[..|files| - 1];
      var last := files[|files| - 1];
      FilesEffectReadLast(files, inDir, outDir, parse);
      AllFilesRead(pre, inDir, outDir, parse);
      ReadThroughLast(files, inDir, parse);
    }
  }

  /** When every file is read, the results have an entry exactly for the
      files with records. */
  lemma {:induction false} ResultsKeys(files: seq<string>, inDir: string, outDir: string,
                                       parse: string -> Option<seq<Entry>>)
    requires FilesEffect(files, inDir, outDir, parse).0
    ensures forall f :: f in files ==> parse(PathJoin(inDir, f)).Some?
    ensures var res := FilesEffect(files, inDir, outDir, parse).1.results;
      forall f :: f in res <==> f in files && parse(PathJoin(inDir, f)).value != []
  {
    AllFilesRead(files, inDir, outDir, parse);
    if files != [] {
      var pre := files[..|files| - 1];
      FilesEffectStep(files, inDir, outDir, parse);
      ResultsKeys(pre, inDir, outDir, parse);
      assert files == pre + [files[|files| - 1]];
    }
  }

  /** When every file is read, each file's entry is the paths of its
      records, in record order. */
  lemma {:induction false} ResultsValues(files: seq<string>, inDir: string, outDir: string,
                                         parse: string -> Option<seq<Entry>>)
    requires FilesEffect(files, inDir, outDir, parse).0
    ensures var res := FilesEffect(files, inDir, outDir, parse).1.results;
      forall f :: f in res ==> parse(PathJoin(inDir, f)).Some? && res[f] == RecordPaths(outDir, f, parse(PathJoin(inDir, f)).value)
  {
    if files != [] {
      var pre := files[..|files| - 1];
      FilesEffectStep(files, inDir, outDir, parse);
      ResultsValues(pre, inDir, outDir, parse);
    }
  }

  /** When every file is read, the results map exactly the FASTA files with
      records, each to the paths of its records in record order. */
  lemma ResultsAreTheNonEmptyFiles(files: seq<string>, inDir: string, outDir: string,
                                   parse: string -> Option<seq<Entry>>)
    requires FilesEffect(files, inDir, outDir, parse).0
    ensures forall f :: f in files ==> parse(PathJoin(inDir, f)).Some?
    ensures var res := FilesEffect(files, inDir, outDir, parse).1.results;
      forall f :: f in res <==> f in files && parse(PathJoin(inDir, f)).value != []
    ensures var res := FilesEffect(files, inDir, outDir, parse).1.results;
      forall f :: f in res ==> res[f] == RecordPaths(outDir, f, parse(PathJoin(inDir, f)).value)
  {
    ResultsKeys(files, inDir, outDir, parse);
    ResultsValues(files, inDir, outDir, parse);
  }

  /** No FASTA file, or an unreadable folder, gives `None` and writes nothing. */
  lemma NothingToPrepare(listing: Option<seq<string>>, inDir: string, outDir: string,
                         parse: string -> Option<seq<Entry>>)
    requires listing.None? || forall f :: f in listing.value ==> !EndsWith(f, ".fasta")
    ensures Preparation(listing, inDir, outDir, parse) == (None, map[])
  {
    if listing.Some? && FastaFiles(listing.value) != [] {
      assert FastaFiles(listing.value)[0] in FastaFiles(listing.value);
    }
  }

  /** The record loop of one file (model_utils.py:38-47). */
  method WriteRecords(written: map<string, Entry>, outDir: string, file: string, recs: seq<Entry>)
    returns (now: map<string, Entry>, paths: seq<string>)
    ensures now == WriteAll(written, outDir, file, recs)
    ensures paths == RecordPaths(outDir, file, recs)
  {
    now := written;
    paths := [];
    var subfolder := PathJoin(outDir, Stem(file));
    var i := 0;
    while i < |recs|
      invariant 0 <= i <= |recs|
      invariant now == WriteAll(written, outDir, file, recs[..i])
      invariant paths == RecordPaths(outDir, file, recs[..i])
    {
      WriteSnoc(written, outDir, file, recs, i);
      PathsSnoc(outDir, file, recs, i);
      var record := recs[i];
      var path := PathJoin(subfolder, SanitizeId(record.id) + ".fasta");
      assert path == RecordPath(outDir, file, record.id);
      now := now[path := record];
      paths := paths + [path];
      i := i + 1;
    }
    assert recs[..i] == recs;
  }

  /** The file loop (model_utils.py:14-57). */
  method PrepareForModelling(listing: Option<seq<string>>, inDir: string, outDir: string,
                             parse: string -> Option<seq<Entry>>)
    returns (result: Option<map<string, seq<string>>>, written: map<string, Entry>)
    ensures (result, written) == Preparation(listing, inDir, outDir, parse)
  {
    written := map[];
    if listing.None? {
      return None, written;
    }
    var files := FastaFiles(listing.value);
    if files == [] {
      return None, written;
    }
    var results: map<string, seq<string>> := map[];
    var i := 0;
    while i < |files|
      invariant 0 <= i <= |files|
      invariant FilesEffect(files[..i], inDir, outDir, parse) == (true, Prep(results, written))
    {
      assert files[..i + 1][..i] == files[..i];
      var f := files[i];
      assert FilesEffect(files[..i + 1], inDir, outDir, parse) ==
             FileStep((true, Prep(results, written)), f, inDir, outDir, parse);
      var parsed := parse(PathJoin(inDir, f));
      if parsed.None? {
        FailureSticks(files, i + 1, inDir, outDir, parse);
        assert files[..|files|] == files;
        return None, written;
      }
      var recs := parsed.value;
      if recs == [] {
        i := i + 1;
        continue;
      }
      var paths;
      written, paths := WriteRecords(written, outDir, f, recs);
      results := results[f := paths];
      i := i + 1;
    }
    assert files[..i] == files;
    return Some(results), written;
  }

  /** Once a file could not be read, the later files change nothing. */
  lemma {:induction false} FailureSticks(files: seq<string>, i: nat, inDir: string, outDir: string,
                                         parse: string -> Option<seq<Entry>>)
    requires i <= |files| && !FilesEffect(files[..i], inDir, outDir, parse).0
    ensures FilesEffect(files, inDir, outDir, parse) == FilesEffect(files[..i], inDir, outDir, parse)
    decreases |files| - i
  {
    if i < |files| {
      assert files[..i + 1][..i] == files[..i];
      FailureSticks(files, i + 1, inDir, outDir, parse);
    } else {
      assert files[..i] == files;
    }
  }
}
