/*
 * Per-domain FASTA extraction (pipeline_utils/extract_utils.py): for every
 * domain of interest, the table rows that mention it are turned into FASTA
 * records holding the domain's stretch of the protein sequence.
 */
module ExtractUtils {
  import opened Common

  /** One row of the filtered InterProScan table: protein id, the output
      (domain) description, and the domain's 1-based start and end. */
  datatype Row = Row(id: string, output: string, start: int, end: int)

  // ---------------------------------------------------------------------
  // File-name cleaning (extract_utils.py:40, 44)
  // ---------------------------------------------------------------------

  /** `s.replace(" ", "_")`. */
  function ReplaceSpaces(s: string): (r: string)
    ensures |r| == |s|
    ensures forall i :: 0 <= i < |s| ==> r[i] == (if s[i] == ' ' then '_' else s[i])
  {
    if s == [] then [] else [if s[0] == ' ' then '_' else s[0]] + ReplaceSpaces(s[1..])
  }

  /** `s.replace(",", "")`. */
  function RemoveCommas(s: string): (r: string)
    ensures |r| <= |s|
    ensures forall c :: c in r <==> c in s && c != ','
  {
    if s == [] then [] else (if s[0] == ',' then [] else [s[0]]) + RemoveCommas(s[1..])
  }

  /** `output_name`: spaces become underscores and commas go. */
  function CleanName(domain: string): (r: string)
    ensures ' ' !in r && ',' !in r
    ensures |r| <= |domain|
  {
    RemoveCommas(ReplaceSpaces(domain))
  }

  lemma {:induction false} RemoveCommasFixed(s: string)
    requires ',' !in s
    ensures RemoveCommas(s) == s
  {
    if s != [] {
      RemoveCommasFixed(s[1..]);
      assert [s[0]] + s[1..] == s;
    }
  }

  /** A name without spaces and commas is already clean. */
  lemma CleanNameFixed(s: string)
    requires ' ' !in s && ',' !in s
    ensures CleanName(s) == s
  {
    assert ReplaceSpaces(s) == s;
    RemoveCommasFixed(s);
  }

  /** Cleaning twice is cleaning once. */
  lemma CleanNameIdempotent(domain: string)
    ensures CleanName(CleanName(domain)) == CleanName(domain)
  {
    CleanNameFixed(CleanName(domain));
  }

  /** The FASTA written for one domain. */
  function OutputPath(outDir: string, domain: string, tool: string): string
  {
    PathJoin(outDir, CleanName(domain) + "_" + tool + ".fasta")
  }

  /** The filtered FASTA the filtering stage leaves for the prediction method `tool`. */
  function FilteredFastaPath(dir: string, tool: string): string
  {
    PathJoin(dir, "proteinas_filtradas_" + tool + ".fasta")
  }

  // ---------------------------------------------------------------------
  // Python slices (extract_utils.py:63-64)
  // ---------------------------------------------------------------------

  /** How a slice bound is read: negative bounds count from the end, and
      every bound is clamped into `0..n`. */
  function ClampIndex(i: int, n: nat): (r: nat)
    ensures r <= n
    ensures 0 <= i <= n ==> r == i
  {
    if i < 0 then (if i + n < 0 then 0 else i + n) else if i > n then n else i
  }

  /** `s[i:j]`. */
  function PySlice(s: string, i: int, j: int): (r: string)
    ensures |r| <= |s|
  {
    var a := ClampIndex(i, |s|);
    var b := ClampIndex(j, |s|);
    if a < b then s[a..b] else []
  }

  /** `seq_completa[start - 1:end]`. */
  function Fragment(sequence: string, start: int, end: int): string
  {
    PySlice(sequence, start - 1, end)
  }

  /** With 1 <= start <= end <= length, the fragment is residues start..end,
      both included. */
  lemma FragmentInRange(sequence: string, start: int, end: int)
    requires 1 <= start <= end <= |sequence|
    ensures |Fragment(sequence, start, end)| == end - start + 1
    ensures forall k :: 0 <= k < end - start + 1 ==> Fragment(sequence, start, end)[k] == sequence[start - 1 + k]
  {
  }

  /** Whatever the bounds, the fragment is a contiguous piece of the
      sequence; it is empty once start passes end (both positive). */
  lemma FragmentIsPiece(sequence: string, start: int, end: int)
    ensures Contains(sequence, Fragment(sequence, start, end))
    ensures 1 <= end < start ==> Fragment(sequence, start, end) == []
  {
    var a := ClampIndex(start - 1, |sequence|);
    var b := ClampIndex(end, |sequence|);
    var f := Fragment(sequence, start, end);
    if a < b {
      assert OccursAt(sequence, f, a);
    } else {
      assert OccursAt(sequence, f, 0);
    }
  }

  /** A start of 0 makes the slice begin at the last residue, since
      `start - 1` is then -1. */
  lemma ZeroStartCountsFromEnd()
    ensures Fragment("MKV", 0, 3) == "V"
    ensures Fragment("MKV", 0, 2) == []
  {
  }

  // ---------------------------------------------------------------------
  // Records (extract_utils.py:54-68)
  // ---------------------------------------------------------------------

  /** `>{prot_id}_{output_name}_{start}_{end}`. */
  function Header(id: string, name: string, start: int, end: int): string
  {
    ">" + id + "_" + name + "_" + IntToString(start) + "_" + IntToString(end)
  }

  lemma NatToStringDigits(n: nat)
    ensures forall k :: 0 <= k < |NatToString(n)| ==> IsDigit(NatToString(n)[k])
  {
  }

  lemma IntToStringHasNo(i: int, c: char)
    requires !IsDigit(c) && c != '-'
    ensures c !in IntToString(i)
  {
    NatToStringDigits(if i < 0 then -i else i);
  }

  /** The last two `_`-separated fields of a header read back, with `int()`,
      as the start and the end. */
  lemma HeaderReadBack(id: string, name: string, start: int, end: int)
    ensures var h := Header(id, name, start, end);
      && h[0] == '>'
      && var f := Split(h[1..], '_');
      && |f| >= 3 && PyInt(f[|f| - 2]) == Some(start) && PyInt(f[|f| - 1]) == Some(end)
  {
    var s1 := IntToString(start);
    var s2 := IntToString(end);
    IntToStringHasNo(start, '_');
    IntToStringHasNo(end, '_');
    HeaderFields(id, name, s1, s2);
    var h := Header(id, name, start, end);
    assert h == ">" + id + "_" + name + "_" + s1 + "_" + s2;
    var f := Split(h[1..], '_');
    assert f[|f| - 2] == s1 && f[|f| - 1] == s2;
    IntToStringRoundTrip(start);
    IntToStringRoundTrip(end);
  }

  /** The header text with the two numbers written as `s1` and `s2`. */
  lemma HeaderFields(id: string, name: string, s1: string, s2: string)
    requires '_' !in s1 && '_' !in s2
    ensures var h := ">" + id + "_" + name + "_" + s1 + "_" + s2;
      && h[0] == '>'
      && var f := Split(h[1..], '_');
      && |f| >= 3 && f[|f| - 2] == s1 && f[|f| - 1] == s2
  {
    var h := ">" + id + "_" + name + "_" + s1 + "_" + s2;
    var front := id + "_" + name;
    assert h[1..] == front + ['_'] + (s1 + ['_'] + s2);
    SplitLastTwo(front, s1, s2);
  }

  /** Splitting on `_` keeps the last two fields when neither holds a `_`. */
  lemma SplitLastTwo(front: string, s1: string, s2: string)
    requires '_' !in s1 && '_' !in s2
    ensures var f := Split(front + ['_'] + (s1 + ['_'] + s2), '_');
      |f| >= 3 && f[|f| - 2] == s1 && f[|f| - 1] == s2
  {
    var tail := s1 + ['_'] + s2;
    SplitAppend(s1, '_', s2);
    SplitNoSep(s1, '_');
    SplitNoSep(s2, '_');
    assert Split(tail, '_') == [s1, s2];
    SplitAppend(front, '_', tail);
    var f := Split(front + ['_'] + tail, '_');
    assert f == Split(front, '_') + [s1, s2];
  }

  /** `f"{header}\n{sub_seq}\n"` for one row whose protein is known. */
  function Record(row: Row, name: string, sequence: string): string
  {
    Header(row.id, name, row.start, row.end) + "\n" + Fragment(sequence, row.start, row.end) + "\n"
  }

  lemma HeaderOneLine(id: string, name: string, start: int, end: int)
    requires '\n' !in id && '\n' !in name
    ensures '\n' !in Header(id, name, start, end)
  {
    IntToStringHasNo(start, '\n');
    IntToStringHasNo(end, '\n');
  }

  lemma FragmentOneLine(sequence: string, start: int, end: int)
    requires '\n' !in sequence
    ensures '\n' !in Fragment(sequence, start, end)
  {
    var f := Fragment(sequence, start, end);
    FragmentIsPiece(sequence, start, end);
    var a :| 0 <= a <= |sequence| - |f| && OccursAt(sequence, f, a);
    assert forall k :: 0 <= k < |f| ==> f[k] == sequence[a + k];
  }

  /** A record is two lines: the header and the fragment. */
  lemma RecordLines(row: Row, name: string, sequence: string)
    requires '\n' !in row.id && '\n' !in name && '\n' !in sequence
    ensures Split(Record(row, name, sequence), '\n') ==
            [Header(row.id, name, row.start, row.end), Fragment(sequence, row.start, row.end), []]
  {
    var h := Header(row.id, name, row.start, row.end);
    var f := Fragment(sequence, row.start, row.end);
    HeaderOneLine(row.id, name, row.start, row.end);
    FragmentOneLine(sequence, row.start, row.end);
    assert Record(row, name, sequence) == h + ['\n'] + (f + ['\n'] + []);
    SplitCons(h, '\n', f + ['\n'] + []);
    SplitCons(f, '\n', []);
  }

  /** The rows whose output mentions the domain, ignoring case
      (`str.contains(dominio, case=False)`), in table order. */
  function Matching(rows: seq<Row>, domain: string): (r: seq<Row>)
    ensures forall x :: x in r <==> x in rows && ContainsIgnoreCase(x.output, domain)
  {
    if rows == [] then []
    else (if ContainsIgnoreCase(rows[0].output, domain) then [rows[0]] else []) + Matching(rows[1..], domain)
  }

  /** The text written for one domain: one record per row, in row order,
      skipping rows whose protein is not in the filtered FASTA. */
  function DomainText(rows: seq<Row>, name: string, seqs: map<string, string>): string
  {
    if rows == [] then []
    else
      var last := rows[|rows| - 1];
      DomainText(rows[..|rows| - 1], name, seqs) + (if last.id in seqs then Record(last, name, seqs[last.id]) else [])
  }

  /** The rows whose protein is known. */
  function Present(rows: seq<Row>, seqs: map<string, string>): (r: seq<Row>)
    ensures forall x :: x in r ==> x.id in seqs
    ensures forall x :: x in rows && x.id in seqs ==> x in r
  {
    if rows == [] then []
    else
      var last := rows[|rows| - 1];
      Present(rows[..|rows| - 1], seqs) + (if last.id in seqs then [last] else [])
  }

  /** The records of rows whose protein is known. */
  function Records(rows: seq<Row>, name: string, seqs: map<string, string>): (r: seq<string>)
    requires forall x :: x in rows ==> x.id in seqs
    ensures |r| == |rows|
  {
    seq(|rows|, k requires 0 <= k < |rows| => Record(rows[k], name, seqs[rows[k].id]))
  }

  /** The records of one more known row. */
  lemma RecordsSnoc(p: seq<Row>, x: Row, name: string, seqs: map<string, string>)
    requires forall y :: y in p ==> y.id in seqs
    requires x.id in seqs
    ensures Records(p + [x], name, seqs) == Records(p, name, seqs) + [Record(x, name, seqs[x.id])]
  {
    var a := Records(p + [x], name, seqs);
    var b := Records(p, name, seqs) + [Record(x, name, seqs[x.id])];
    forall k | 0 <= k < |a| ensures a[k] == b[k] {
      if k < |p| {
        assert (p + [x])[k] == p[k];
      }
    }
  }

  /** The domain's file is the records of its known rows, in order, the
      unknown ones contributing nothing. */
  lemma {:induction false} DomainTextIsKnownRecords(rows: seq<Row>, name: string, seqs: map<string, string>)
    ensures DomainText(rows, name, seqs) == Concat(Records(Present(rows, seqs), name, seqs))
  {
    if rows != [] {
      var pre := rows[..|rows| - 1];
      var last := rows[|rows| - 1];
      DomainTextIsKnownRecords(pre, name, seqs);
      var p := Present(pre, seqs);
      if last.id in seqs {
        var r := Record(last, name, seqs[last.id]);
        assert Present(rows, seqs) == p + [last];
        assert DomainText(rows, name, seqs) == DomainText(pre, name, seqs) + r;
        RecordsSnoc(p, last, name, seqs);
        ConcatSnoc(Records(p, name, seqs), r);
      } else {
        assert Present(rows, seqs) == p;
        assert DomainText(rows, name, seqs) == DomainText(pre, name, seqs) + [];
      }
    }
  }

  /** The row loop of one domain (extract_utils.py:53-68). */
  method WriteDomain(rows: seq<Row>, name: string, seqs: map<string, string>) returns (text: string)
    ensures text == DomainText(rows, name, seqs)
  {
    text := [];
    var i := 0;
    while i < |rows|
      invariant 0 <= i <= |rows|
      invariant text == DomainText(rows[..i], name, seqs)
    {
      assert rows[..i + 1][..i] == rows[..i];
      var row := rows[i];
      if row.id !in seqs {
        i := i + 1;
        continue;
      }
      var sub := Fragment(seqs[row.id], row.start, row.end);
      text := text + (Header(row.id, name, row.start, row.end) + "\n" + sub + "\n");
      i := i + 1;
    }
    assert rows[..i] == rows;
  }

  // ---------------------------------------------------------------------
  // The whole stage (extract_utils.py:9-70)
  // ---------------------------------------------------------------------

  /** The files written for the domains, each domain in turn; a domain no
      row mentions writes nothing, and a later domain with the same clean
      name overwrites an earlier one. */
  function DomainsEffect(rows: seq<Row>, domains: seq<string>, tool: string,
                         seqs: map<string, string>, outDir: string): map<string, string>
  {
    if domains == [] then map[]
    else
      var pre := DomainsEffect(rows, domains[..|domains| - 1], tool, seqs, outDir);
      var d := domains[|domains| - 1];
      var m := Matching(rows, d);
      if m == [] then pre else pre[OutputPath(outDir, d, tool) := DomainText(m, CleanName(d), seqs)]
  }

  /** `extrair_outputs_fasta`: `table` is the filtered table (`None` or
      empty stops the stage), `fastas` the parsed FASTA files present, keyed
      by path; the result is the files written, keyed by path. */
  function Extraction(table: Option<seq<Row>>, domains: seq<string>, tool: string,
                      inDir: string, fastas: map<string, map<string, string>>, outDir: string): map<string, string>
  {
    if table.None? || table.value == [] then map[]
    else if FilteredFastaPath(inDir, tool) !in fastas then map[]
    else DomainsEffect(table.value, domains, tool, fastas[FilteredFastaPath(inDir, tool)], outDir)
  }

  /** A file is written exactly for the domains some row mentions. */
  lemma {:induction false} WrittenFiles(rows: seq<Row>, domains: seq<string>, tool: string,
                                        seqs: map<string, string>, outDir: string)
    ensures forall p :: p in DomainsEffect(rows, domains, tool, seqs, outDir) <==>
      exists d :: d in domains && Matching(rows, d) != [] && OutputPath(outDir, d, tool) == p
  {
    if domains != [] {
      var pre := domains[..|domains| - 1];
      var d := domains[|domains| - 1];
      WrittenFiles(rows, pre, tool, seqs, outDir);
      assert domains == pre + [d];
      forall p | p in DomainsEffect(rows, domains, tool, seqs, outDir)
        ensures exists e :: e in domains && Matching(rows, e) != [] && OutputPath(outDir, e, tool) == p
      {
        if p !in DomainsEffect(rows, pre, tool, seqs, outDir) {
          assert d in domains;
        } else {
          var e :| e in pre && Matching(rows, e) != [] && OutputPath(outDir, e, tool) == p;
          assert e in domains;
        }
      }
      forall p | exists e :: e in domains && Matching(rows, e) != [] && OutputPath(outDir, e, tool) == p
        ensures p in DomainsEffect(rows, domains, tool, seqs, outDir)
      {
        var e :| e in domains && Matching(rows, e) != [] && OutputPath(outDir, e, tool) == p;
        if e != d {
          assert e in pre;
        }
      }
    }
  }

  /** The file of a domain holds that domain's records unless a later
      domain writes the same path. */
  lemma {:induction false} DomainFileContents(rows: seq<Row>, domains: seq<string>, tool: string,
                                              seqs: map<string, string>, outDir: string, k: nat)
    requires k < |domains| && Matching(rows, domains[k]) != []
    requires forall j :: k < j < |domains| && Matching(rows, domains[j]) != [] ==>
               OutputPath(outDir, domains[j], tool) != OutputPath(outDir, domains[k], tool)
    ensures var p := OutputPath(outDir, domains[k], tool);
      && p in DomainsEffect(rows, domains, tool, seqs, outDir)
      && DomainsEffect(rows, domains, tool, seqs, outDir)[p] ==
           DomainText(Matching(rows, domains[k]), CleanName(domains[k]), seqs)
    decreases |domains|
  {
    var last := |domains| - 1;
    var pre := domains[..last];
    DomainsEffectSnoc(rows, domains, last, tool, seqs, outDir);
    assert domains[..last + 1] == domains;
    var e := DomainsEffect(rows, domains, tool, seqs, outDir);
    var before := DomainsEffect(rows, pre, tool, seqs, outDir);
    var m := Matching(rows, domains[last]);
    var q := OutputPath(outDir, domains[last], tool);
    assert e == if m == [] then before else before[q := DomainText(m, CleanName(domains[last]), seqs)];
    if k == last {
      assert e[q] == DomainText(m, CleanName(domains[last]), seqs);
    } else {
      assert pre[k] == domains[k];
      forall j | k < j < |pre| && Matching(rows, pre[j]) != []
        ensures OutputPath(outDir, pre[j], tool) != OutputPath(outDir, pre[k], tool)
      {
        assert pre[j] == domains[j];
      }
      DomainFileContents(rows, pre, tool, seqs, outDir, k);
      var p := OutputPath(outDir, domains[k], tool);
      if m != [] {
        assert q != p;
      }
      assert e[p] == before[p];
    }
  }

  /** Nothing is written for an empty table or a missing filtered FASTA. */
  lemma ExtractionStops(table: Option<seq<Row>>, domains: seq<string>, tool: string,
                        inDir: string, fastas: map<string, map<string, string>>, outDir: string)
    requires table.None? || table.value == [] || FilteredFastaPath(inDir, tool) !in fastas
    ensures Extraction(table, domains, tool, inDir, fastas, outDir) == map[]
  {
  }

  /** One more domain either writes its file or nothing. */
  lemma DomainsEffectSnoc(rows: seq<Row>, domains: seq<string>, i: nat, tool: string,
                          seqs: map<string, string>, outDir: string)
    requires i < |domains|
    ensures var m := Matching(rows, domains[i]);
      DomainsEffect(rows, domains[..i + 1], tool, seqs, outDir)
        == if m == [] then DomainsEffect(rows, domains[..i], tool, seqs, outDir)
           else DomainsEffect(rows, domains[..i], tool, seqs, outDir)[OutputPath(outDir, domains[i], tool) := DomainText(m, CleanName(domains[i]), seqs)]
  {
    assert domains[..i + 1][..i] == domains[..i];
  }

  /** The domain loop (extract_utils.py:37-70). */
  method ExtractOutputsFasta(table: Option<seq<Row>>, domains: seq<string>, tool: string,
                             inDir: string, fastas: map<string, map<string, string>>, outDir: string)
    returns (written: map<string, string>)
    ensures written == Extraction(table, domains, tool, inDir, fastas, outDir)
  {
    written := map[];
    if table.None? || table.value == [] {
      return;
    }
    var fastaPath := FilteredFastaPath(inDir, tool);
    if fastaPath !in fastas {
      return;
    }
    var seqs := fastas[fastaPath];
    var rows := table.value;
    var i := 0;
    while i < |domains|
      invariant 0 <= i <= |domains|
      invariant written == DomainsEffect(rows, domains[..i], tool, seqs, outDir)
    {
      DomainsEffectSnoc(rows, domains, i, tool, seqs, outDir);
      var d := domains[i];
      var name := CleanName(d);
      var path := OutputPath(outDir, d, tool);
      var matching := Matching(rows, d);
      if matching == [] {
        i := i + 1;
        continue;
      }
      var text := WriteDomain(matching, name, seqs);
      written := written[path := text];
      i := i + 1;
    }
    assert domains[..i] == domains;
  }
}
