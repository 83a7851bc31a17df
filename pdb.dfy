/** BLAST-hit aggregation into a per-query registry and the cache-aware
    download of the structure files (pipeline_utils/pdb_utils.py). */
module PdbUtils {
  import opened Common

  /** One row of a BLAST tabular report; the columns the stage reads are
      0 (query id), 1 (target descriptor), 2 (pident), 4 (evalue) and
      5 (bitscore). */
  datatype HitRow = HitRow(query: string, target: string, pident: real,
                           length: int, evalue: real, bitscore: real)

  /** The value stored for one PDB code in `blast_hits.json`. */
  datatype Hit = Hit(chain: string, evalue: real, bitscore: real, pident: real)

  /** The `hits_data` dict: a map from PDB code to hit, together with the
      order in which its keys were first inserted (the dict's order). */
  datatype Registry = Registry(codes: seq<string>, hits: map<string, Hit>)

  // ---------------------------------------------------------------------
  // Query id -> folder name
  // ---------------------------------------------------------------------

  const MaxFolderName: nat := 100

  predicate AllowedInFolder(c: char) { IsAlnum(c) || c == '_' || c == '-' }

  /** The characters of `s` kept by the generator expression, in order. */
  function KeepAllowed(s: string): (r: string)
    ensures forall k :: 0 <= k < |r| ==> AllowedInFolder(r[k])
    ensures |r| <= |s|
  {
    if s == [] then []
    else (if AllowedInFolder(s[0]) then [s[0]] else []) + KeepAllowed(s[1..])
  }

  /** `a` can be obtained from `b` by deleting characters. */
  predicate IsSubsequence(a: string, b: string)
    decreases |b|
  {
    if a == [] then true
    else if b == [] then false
    else if a[0] == b[0] then IsSubsequence(a[1..], b[1..])
    else IsSubsequence(a, b[1..])
  }

  lemma {:induction false} KeepAllowedIsSubsequence(s: string)
    ensures IsSubsequence(KeepAllowed(s), s)
  {
    if s != [] {
      KeepAllowedIsSubsequence(s[1..]);
      if AllowedInFolder(s[0]) {
        assert KeepAllowed(s) == [s[0]] + KeepAllowed(s[1..]);
        assert KeepAllowed(s)[1..] == KeepAllowed(s[1..]);
      } else {
        assert KeepAllowed(s) == KeepAllowed(s[1..]);
        SubsequenceDropFront(KeepAllowed(s), s);
      }
    }
  }

  /** A subsequence of the tail is a subsequence of the whole. */
  lemma {:induction false} SubsequenceDropFront(a: string, b: string)
    requires b != [] && IsSubsequence(a, b[1..])
    ensures IsSubsequence(a, b)
    decreases |b|, 0
  {
    if a != [] && a[0] == b[0] {
      SubsequenceSkip(a, b[1..]);
    }
  }

  /** Dropping the first character of `a` keeps it a subsequence. */
  lemma {:induction false} SubsequenceSkip(a: string, c: string)
    requires a != [] && IsSubsequence(a, c)
    ensures IsSubsequence(a[1..], c)
    decreases |c|, 1
  {
    if a[0] == c[0] {
      if a[1..] != [] { SubsequenceDropFront(a[1..], c); }
    } else {
      SubsequenceSkip(a, c[1..]);
      if a[1..] != [] { SubsequenceDropFront(a[1..], c); }
    }
  }

  /** Every prefix of a subsequence is a subsequence. */
  lemma {:induction false} SubsequencePrefix(a: string, b: string, k: nat)
    requires IsSubsequence(a, b) && k <= |a|
    ensures IsSubsequence(a[..k], b)
    decreases |b|
  {
    if k > 0 && b != [] {
      if a[0] == b[0] {
        SubsequencePrefix(a[1..], b[1..], k - 1);
        assert a[..k][1..] == a[1..][..k - 1];
      } else {
        SubsequencePrefix(a, b[1..], k);
        assert a[..k][0] == a[0];
      }
    }
  }

  /** A string of allowed characters is kept whole. */
  lemma {:induction false} KeepAllowedAllAllowed(s: string)
    requires forall k :: 0 <= k < |s| ==> AllowedInFolder(s[k])
    ensures KeepAllowed(s) == s
  {
    if s != [] {
      KeepAllowedAllAllowed(s[1..]);
      assert [s[0]] + s[1..] == s;
    }
  }

  /** The `.rstrip()` after the filter never removes anything. */
  lemma RStripAfterFilter(s: string)
    ensures StripRight(KeepAllowed(s)) == KeepAllowed(s)
  {
    var f := KeepAllowed(s);
    if f != [] { assert AllowedInFolder(f[|f| - 1]); }
  }

  /** The folder name derived from a query id (pdb_utils.py:125-129):
      keep letters, digits, `_` and `-`, strip trailing whitespace, and cut
      to 100 characters. */
  function FolderName(query: string): (r: string)
    ensures forall k :: 0 <= k < |r| ==> AllowedInFolder(r[k])
    ensures |r| == if |KeepAllowed(query)| > MaxFolderName then MaxFolderName else |KeepAllowed(query)|
    ensures r == KeepAllowed(query)[..|r|]
    ensures IsSubsequence(r, query)
  {
    RStripAfterFilter(query);
    var f := StripRight(KeepAllowed(query));
    var r := if |f| > MaxFolderName then f[..MaxFolderName] else f;
    KeepAllowedIsSubsequence(query);
    SubsequencePrefix(f, query, |r|);
    assert f[..|r|] == r;
    r
  }

  /** Sanitising a folder name again changes nothing. */
  lemma FolderNameIdempotent(query: string)
    ensures FolderName(FolderName(query)) == FolderName(query)
  {
    var r := FolderName(query);
    KeepAllowedAllAllowed(r);
  }

  /** Two different query ids can share a folder: the later one's registry
      replaces the earlier one's. */
  lemma FolderNamesCollide()
    ensures FolderName("Q 1") == FolderName("Q1") == "Q1"
  {
    assert KeepAllowed("1") == "1";
    assert KeepAllowed(" 1") == "1";
    assert KeepAllowed("Q1") == "Q1";
    assert KeepAllowed("Q 1") == "Q1";
  }

  // ---------------------------------------------------------------------
  // Target descriptor
  // ---------------------------------------------------------------------

  /** `pdb|CODE|CHAIN[|...]` -> (CODE, CHAIN) (pdb_utils.py:140-145). */
  function ParseDescriptor(target: string): Option<(string, string)>
  {
    var parts := Split(target, '|');
    if |parts| >= 3 && parts[0] == "pdb" then Some((parts[1], parts[2])) else None
  }

  /** A descriptor is split exactly when it reads `pdb|code|chain` with
      nothing or a further `|` field after the chain. */
  predicate DescriptorShape(target: string, code: string, chain: string)
  {
    && '|' !in code && '|' !in chain
    && var head := "pdb|" + code + "|" + chain;
       |head| <= |target| && target[..|head|] == head && (|target| == |head| || target[|head|] == '|')
  }

  lemma DescriptorParsesShape(target: string, code: string, chain: string)
    requires ParseDescriptor(target) == Some((code, chain))
    ensures DescriptorShape(target, code, chain)
  {
    var parts := Split(target, '|');
    JoinSplit(target, '|');
    var rest: string := if |parts| == 3 then [] else ['|'] + Join(parts[3..], '|');
    assert Join(parts[2..], '|') == chain + rest by {
      if |parts| > 3 { assert parts[2..][1..] == parts[3..]; }
    }
    assert Join(parts[1..], '|') == code + "|" + chain + rest by {
      assert parts[1..][1..] == parts[2..];
    }
    var head := "pdb|" + code + "|" + chain;
    assert target == head + rest;
    assert target[..|head|] == head;
  }

  lemma DescriptorShapeParses(target: string, code: string, chain: string)
    requires DescriptorShape(target, code, chain)
    ensures ParseDescriptor(target) == Some((code, chain))
  {
    var head := "pdb|" + code + "|" + chain;
    var rest := target[|head|..];
    assert target == head + rest;
    var tail := if rest == [] then chain else chain + "|" + rest[1..];
    assert target == "pdb" + "|" + (code + "|" + tail) by {
      if rest != [] { assert rest == "|" + rest[1..]; }
    }
    SplitCons("pdb", '|', code + "|" + tail);
    SplitCons(code, '|', tail);
    if rest == [] {
      SplitNoSep(chain, '|');
    } else {
      SplitCons(chain, '|', rest[1..]);
    }
  }

  /** The structure part of a row: its code and the hit it would store. */
  function Entry(row: HitRow): Option<(string, Hit)>
  {
    match ParseDescriptor(row.target)
    case None => None
    case Some((code, chain)) => Some((code, Hit(chain, row.evalue, row.bitscore, row.pident)))
  }

  predicate HasCode(row: HitRow, code: string)
  {
    Entry(row).Some? && Entry(row).value.0 == code
  }

  // ---------------------------------------------------------------------
  // The registry fold (pdb_utils.py:136-154)
  // ---------------------------------------------------------------------

  /** One iteration of the row loop: a valid row replaces the stored hit
      for its code when the code is new or its evalue is strictly smaller. */
  function Step(reg: Registry, row: HitRow): Registry
  {
    match Entry(row)
    case None => reg
    case Some((code, hit)) =>
      if code !in reg.hits then Registry(reg.codes + [code], reg.hits[code := hit])
      else if hit.evalue < reg.hits[code].evalue then Registry(reg.codes, reg.hits[code := hit])
      else reg
  }

  function RegistryOf(rows: seq<HitRow>): Registry
  {
    if rows == [] then Registry([], map[])
    else Step(RegistryOf(rows[..|rows| - 1]), rows[|rows| - 1])
  }

  /** `codigos_neste_grupo`: the codes of the valid rows. */
  function ValidCodes(rows: seq<HitRow>): set<string>
  {
    set i | 0 <= i < |rows| && Entry(rows[i]).Some? :: Entry(rows[i]).value.0
  }

  /** The codes of the valid rows in row order, repetitions included. */
  function CodeSeq(rows: seq<HitRow>): seq<string>
  {
    if rows == [] then []
    else
      var e := Entry(rows[|rows| - 1]);
      CodeSeq(rows[..|rows| - 1]) + (if e.Some? then [e.value.0] else [])
  }

  /** The first occurrence of every element, in order. */
  function FirstOccurrences(s: seq<string>): seq<string>
  {
    if s == [] then []
    else
      var d := FirstOccurrences(s[..|s| - 1]);
      if s[|s| - 1] in d then d else d + [s[|s| - 1]]
  }

  predicate NoDuplicates(s: seq<string>)
  {
    forall i, j :: 0 <= i < j < |s| ==> s[i] != s[j]
  }

  lemma ValidCodesSnoc(rows: seq<HitRow>)
    requires rows != []
    ensures var last := rows[|rows| - 1];
      ValidCodes(rows) == ValidCodes(rows[..|rows| - 1]) + (if Entry(last).Some? then {Entry(last).value.0} else {})
  {
    var pre := rows[..|rows| - 1];
    var last := rows[|rows| - 1];
    forall c | c in ValidCodes(rows) ensures c in ValidCodes(pre) || (Entry(last).Some? && c == Entry(last).value.0) {
      var i :| 0 <= i < |rows| && Entry(rows[i]).Some? && Entry(rows[i]).value.0 == c;
      if i < |pre| { assert pre[i] == rows[i]; }
    }
    forall c | c in ValidCodes(pre) ensures c in ValidCodes(rows) {
      var i :| 0 <= i < |pre| && Entry(pre[i]).Some? && Entry(pre[i]).value.0 == c;
      assert pre[i] == rows[i];
    }
    if Entry(last).Some? {
      assert Entry(rows[|rows| - 1]).value.0 in ValidCodes(rows);
    }
  }

  /** The registry's keys are the valid codes, with no repetition, in the
      order of each code's first appearance. */
  lemma {:induction false} RegistryKeys(rows: seq<HitRow>)
    ensures RegistryOf(rows).hits.Keys == ValidCodes(rows)
    ensures forall c :: c in RegistryOf(rows).codes <==> c in RegistryOf(rows).hits
    ensures NoDuplicates(RegistryOf(rows).codes)
    ensures RegistryOf(rows).codes == FirstOccurrences(CodeSeq(rows))
  {
    if rows != [] {
      var pre := rows[..|rows| - 1];
      var last := rows[|rows| - 1];
      RegistryKeys(pre);
      ValidCodesSnoc(rows);
      var o := RegistryOf(pre);
      var cs := CodeSeq(pre);
      match Entry(last) {
        case None =>
          assert CodeSeq(rows) == cs;
        case Some((code, hit)) =>
          assert CodeSeq(rows) == cs + [code];
          assert (cs + [code])[..|cs|] == cs;
          assert FirstOccurrences(CodeSeq(rows)) == if code in o.codes then o.codes else o.codes + [code];
      }
    }
  }

  /** Row `w` is the one whose hit is kept for `code`: it has that code, its
      evalue is minimal among the rows with that code, and every earlier row
      with that code has a strictly larger evalue. */
  predicate IsWinner(rows: seq<HitRow>, code: string, w: int)
  {
    && 0 <= w < |rows| && HasCode(rows[w], code)
    && (forall i :: 0 <= i < |rows| && HasCode(rows[i], code) ==> rows[w].evalue <= rows[i].evalue)
    && (forall i :: 0 <= i < w && HasCode(rows[i], code) ==> rows[w].evalue < rows[i].evalue)
  }

  /** What one step does to the hit stored for `code`. */
  lemma StepHit(reg: Registry, row: HitRow, code: string)
    requires code in Step(reg, row).hits
    ensures if HasCode(row, code) && (code !in reg.hits || row.evalue < reg.hits[code].evalue)
            then Step(reg, row).hits[code] == Entry(row).value.1
            else code in reg.hits && Step(reg, row).hits[code] == reg.hits[code]
                 && (HasCode(row, code) ==> reg.hits[code].evalue <= row.evalue)
  {
  }

  /** The last row wins when it beats every earlier row with its code. */
  lemma WinnerLast(rows: seq<HitRow>, code: string)
    requires rows != [] && HasCode(rows[|rows| - 1], code)
    requires forall i :: 0 <= i < |rows| - 1 && HasCode(rows[i], code) ==> rows[|rows| - 1].evalue < rows[i].evalue
    ensures IsWinner(rows, code, |rows| - 1)
  {
  }

  /** A winner stays the winner when the new row does not beat it. */
  lemma WinnerKept(rows: seq<HitRow>, code: string, w: int)
    requires rows != [] && IsWinner(rows[..|rows| - 1], code, w)
    requires HasCode(rows[|rows| - 1], code) ==> rows[w].evalue <= rows[|rows| - 1].evalue
    ensures IsWinner(rows, code, w)
  {
    var pre := rows[..|rows| - 1];
    assert forall i :: 0 <= i < |pre| ==> pre[i] == rows[i];
  }

  lemma NoRowWithCode(rows: seq<HitRow>, code: string)
    requires code !in ValidCodes(rows)
    ensures forall i :: 0 <= i < |rows| ==> !HasCode(rows[i], code)
  {
  }

  /** The hit stored for `code` is the data of its winning row. */
  lemma {:induction false} KeepsBestFor(rows: seq<HitRow>, code: string)
    requires code in RegistryOf(rows).hits
    ensures exists w :: IsWinner(rows, code, w) && RegistryOf(rows).hits[code] == Entry(rows[w]).value.1
  {
    var n := |rows| - 1;
    var pre := rows[..n];
    var last := rows[n];
    var o := RegistryOf(pre);
    assert RegistryOf(rows) == Step(o, last);
    StepHit(o, last, code);
    if HasCode(last, code) && (code !in o.hits || last.evalue < o.hits[code].evalue) {
      if code in o.hits {
        KeepsBestFor(pre, code);
        var w :| IsWinner(pre, code, w) && o.hits[code] == Entry(pre[w]).value.1;
        forall i | 0 <= i < n && HasCode(rows[i], code) ensures last.evalue < rows[i].evalue {
          assert pre[i] == rows[i];
        }
      } else {
        RegistryKeys(pre);
        NoRowWithCode(pre, code);
        assert forall i :: 0 <= i < n ==> pre[i] == rows[i];
      }
      WinnerLast(rows, code);
    } else {
      KeepsBestFor(pre, code);
      var w :| IsWinner(pre, code, w) && o.hits[code] == Entry(pre[w]).value.1;
      assert rows[w] == pre[w];
      WinnerKept(rows, code, w);
    }
  }

  /** Every stored hit is the data of its winning row: the minimal evalue,
      the earliest row among ties, with that row's chain, bitscore and
      pident. */
  lemma RegistryKeepsBest(rows: seq<HitRow>)
    ensures forall c :: c in RegistryOf(rows).hits ==>
      exists w :: IsWinner(rows, c, w) && RegistryOf(rows).hits[c] == Entry(rows[w]).value.1
  {
    forall c | c in RegistryOf(rows).hits
      ensures exists w :: IsWinner(rows, c, w) && RegistryOf(rows).hits[c] == Entry(rows[w]).value.1
    {
      KeepsBestFor(rows, c);
    }
  }

  /** The stored evalue of a code is at most that of every row with the code. */
  lemma RegistryEvalueIsMinimum(rows: seq<HitRow>, code: string, i: int)
    requires code in RegistryOf(rows).hits
    requires 0 <= i < |rows| && HasCode(rows[i], code)
    ensures RegistryOf(rows).hits[code].evalue <= rows[i].evalue
  {
    RegistryKeepsBest(rows);
    var w :| IsWinner(rows, code, w) && RegistryOf(rows).hits[code] == Entry(rows[w]).value.1;
  }

  /** The two-row example: the hit with the smaller evalue is kept. */
  lemma TwoRowExample()
    ensures var rows := [HitRow("Q1", "pdb|1ABC|A", 95.0, 120, 0.001, 300.0),
                         HitRow("Q1", "pdb|1ABC|A", 90.0, 120, 0.01, 250.0)];
            RegistryOf(rows) == Registry(["1ABC"], map["1ABC" := Hit("A", 0.001, 300.0, 95.0)])
  {
    var rows := [HitRow("Q1", "pdb|1ABC|A", 95.0, 120, 0.001, 300.0),
                 HitRow("Q1", "pdb|1ABC|A", 90.0, 120, 0.01, 250.0)];
    var h0 := Hit("A", 0.001, 300.0, 95.0);
    EntryOfExample(rows[0]);
    EntryOfExample(rows[1]);
    var reg1 := Registry(["1ABC"], map["1ABC" := h0]);
    assert Step(Registry([], map[]), rows[0]) == reg1;
    assert rows[..1][..0] == [];
    assert RegistryOf(rows[..1]) == reg1;
    assert Step(reg1, rows[1]) == reg1;
    assert RegistryOf(rows) == Step(RegistryOf(rows[..1]), rows[1]);
  }

  lemma EntryOfExample(row: HitRow)
    requires row.target == "pdb|1ABC|A"
    ensures Entry(row) == Some(("1ABC", Hit("A", row.evalue, row.bitscore, row.pident)))
  {
    DescriptorShapeParses("pdb|1ABC|A", "1ABC", "A");
  }

  // ---------------------------------------------------------------------
  // Effects of the stage on the output directory
  // ---------------------------------------------------------------------

  /** What the stage leaves behind: the registry written at each
      `blast_hits.json` path, the set of paths of structure files present,
      and the log of download requests sent, in order. */
  datatype Disk = Disk(registries: map<string, Registry>, files: set<string>, requests: seq<string>)

  /** `code.strip().upper()` (pdb_utils.py:18). */
  function NormalizeCode(code: string): string { Upper(Strip(code)) }

  function PdbPath(folder: string, code: string): string { PathJoin(folder, code + ".pdb") }

  function RegistryPath(folder: string): string { PathJoin(folder, "blast_hits.json") }

  /** What `_download_worker` does (pdb_utils.py:14-40); `outcome(code)` is
      whether the request for that code succeeds and its file is written. */
  function WorkerEffect(d: Disk, folder: string, code: string, outcome: string -> bool): Disk
  {
    var c := NormalizeCode(code);
    if c == [] then d
    else if PdbPath(folder, c) in d.files then d
    else Disk(d.registries,
              if outcome(c) then d.files + {PdbPath(folder, c)} else d.files,
              d.requests + [c])
  }

  /** The workers run over `codes`, one after another. */
  function WorkersEffect(d: Disk, folder: string, codes: seq<string>, outcome: string -> bool): Disk
  {
    if codes == [] then d
    else WorkerEffect(WorkersEffect(d, folder, codes[..|codes| - 1], outcome), folder, codes[|codes| - 1], outcome)
  }

  /** The workers over one more code: the next worker after the others. */
  lemma WorkersEffectSnoc(d: Disk, folder: string, codes: seq<string>, i: nat, outcome: string -> bool)
    requires i < |codes|
    ensures WorkersEffect(d, folder, codes[..i + 1], outcome)
            == WorkerEffect(WorkersEffect(d, folder, codes[..i], outcome), folder, codes[i], outcome)
  {
    var pre := codes[..i + 1];
    assert pre[..|pre| - 1] == codes[..i] && pre[|pre| - 1] == codes[i];
    assert WorkersEffect(d, folder, pre, outcome)
           == WorkerEffect(WorkersEffect(d, folder, pre[..|pre| - 1], outcome), folder, pre[|pre| - 1], outcome);
  }

  /** `baixar_pdb_files` (pdb_utils.py:42-73): nothing for an empty set,
      otherwise one worker per code in sorted order. */
  function DownloadEffect(d: Disk, folder: string, codes: set<string>, outcome: string -> bool): Disk
  {
    if codes == {} then d else WorkersEffect(d, folder, SortedSet(codes), outcome)
  }

  /** The paths a run of workers over `codes` fetches successfully. */
  function Fetched(folder: string, codes: seq<string>, outcome: string -> bool): set<string>
  {
    set c | c in codes && NormalizeCode(c) != [] && outcome(NormalizeCode(c)) :: PdbPath(folder, NormalizeCode(c))
  }

  /** The workers leave the registries alone, never remove a file, add
      exactly the successful fetches, and only append to the request log. */
  lemma FetchedSnoc(folder: string, codes: seq<string>, outcome: string -> bool)
    requires codes != []
    ensures var c := NormalizeCode(codes[|codes| - 1]);
      Fetched(folder, codes, outcome) ==
      Fetched(folder, codes[..|codes| - 1], outcome) + (if c != [] && outcome(c) then {PdbPath(folder, c)} else {})
  {
    var pre := codes[..|codes| - 1];
    var last := codes[|codes| - 1];
    assert codes == pre + [last];
    forall x | x in codes ensures x in pre || x == last { }
  }

  /** One worker leaves the registries alone, adds the file exactly when
      its fetch succeeds, and only appends to the request log. */
  lemma WorkerStep(d: Disk, folder: string, code: string, outcome: string -> bool)
    ensures WorkerEffect(d, folder, code, outcome).registries == d.registries
    ensures WorkerEffect(d, folder, code, outcome).files ==
      d.files + (if NormalizeCode(code) != [] && outcome(NormalizeCode(code)) then {PdbPath(folder, NormalizeCode(code))} else {})
    ensures WorkerEffect(d, folder, code, outcome).requests ==
      d.requests + (if NormalizeCode(code) != [] && PdbPath(folder, NormalizeCode(code)) !in d.files then [NormalizeCode(code)] else [])
  {
    var c := NormalizeCode(code);
    var p := PdbPath(folder, c);
    if c == [] {
      assert d.requests + [] == d.requests;
      assert d.files + {} == d.files;
    } else if p in d.files {
      assert d.requests + [] == d.requests;
      assert d.files + {p} == d.files;
      assert d.files + {} == d.files;
    }
  }

  lemma InPrefix(codes: seq<string>, m: nat, x: string)
    requires m <= |codes| && x in codes[..m]
    ensures x in codes
  {
    var j :| 0 <= j < m && codes[..m][j] == x;
    assert codes[j] == x;
  }

  lemma UnionAssoc(a: set<string>, b: set<string>, c: set<string>)
    ensures (a + b) + c == a + (b + c)
  {
  }

  /** `a` is a prefix of `b`. */
  predicate PrefixOf(a: seq<string>, b: seq<string>)
  {
    |a| <= |b| && b[..|a|] == a
  }

  lemma PrefixOfAppend(a: seq<string>, b: seq<string>, x: seq<string>)
    requires PrefixOf(a, b)
    ensures PrefixOf(a, b + x)
  {
    assert (b + x)[..|a|] == b[..|a|];
  }

  lemma {:induction false} WorkersFiles(d: Disk, folder: string, codes: seq<string>, outcome: string -> bool)
    ensures WorkersEffect(d, folder, codes, outcome).registries == d.registries
    ensures WorkersEffect(d, folder, codes, outcome).files == d.files + Fetched(folder, codes, outcome)
    ensures PrefixOf(d.requests, WorkersEffect(d, folder, codes, outcome).requests)
  {
    if codes != [] {
      var pre := codes[..|codes| - 1];
      var c := codes[|codes| - 1];
      WorkersFiles(d, folder, pre, outcome);
      FetchedSnoc(folder, codes, outcome);
      var mid := WorkersEffect(d, folder, pre, outcome);
      WorkerStep(mid, folder, c, outcome);
      var e := WorkersEffect(d, folder, codes, outcome);
      assert e == WorkerEffect(mid, folder, c, outcome);
      var n := NormalizeCode(c);
      var add: set<string> := if n != [] && outcome(n) then {PdbPath(folder, n)} else {};
      assert e.files == mid.files + add;
      assert Fetched(folder, codes, outcome) == Fetched(folder, pre, outcome) + add;
      UnionAssoc(d.files, Fetched(folder, pre, outcome), add);
      PrefixOfAppend(d.requests, mid.requests, if n != [] && PdbPath(folder, n) !in mid.files then [n] else []);
    }
  }

  /** A request is only sent for a non-empty normalised code of the list
      whose file was absent before the run. */
  lemma {:induction false} WorkersRequests(d: Disk, folder: string, codes: seq<string>, outcome: string -> bool)
    ensures var r := WorkersEffect(d, folder, codes, outcome).requests;
      forall k :: |d.requests| <= k < |r| ==>
        r[k] != [] && PdbPath(folder, r[k]) !in d.files && exists c :: c in codes && NormalizeCode(c) == r[k]
  {
    if codes != [] {
      var pre := codes[..|codes| - 1];
      var c := codes[|codes| - 1];
      WorkersRequests(d, folder, pre, outcome);
      WorkersFiles(d, folder, pre, outcome);
      var mid := WorkersEffect(d, folder, pre, outcome);
      WorkersEffectSnoc(d, folder, codes, |codes| - 1, outcome);
      assert codes[..|codes| - 1 + 1] == codes;
      WorkerStep(mid, folder, c, outcome);
      var n := NormalizeCode(c);
      var r := WorkersEffect(d, folder, codes, outcome).requests;
      assert r == mid.requests + (if n != [] && PdbPath(folder, n) !in mid.files then [n] else []);
      forall k | |d.requests| <= k < |r|
        ensures r[k] != [] && PdbPath(folder, r[k]) !in d.files && exists x :: x in codes && NormalizeCode(x) == r[k]
      {
        if k < |mid.requests| {
          assert r[k] == mid.requests[k];
          var x :| x in pre && NormalizeCode(x) == r[k];
          InPrefix(codes, |codes| - 1, x);
        } else {
          assert r[k] == n && n != [] && PdbPath(folder, n) !in mid.files;
          assert d.files <= mid.files;
          assert codes[|codes| - 1] == c;
        }
      }
    }
  }

  /** Running the download again sends requests only for codes whose first
      fetch failed; a second run after an all-successful first run sends
      none (the existence check short-circuits). */
  lemma SecondRunOnlyRetriesFailures(d: Disk, folder: string, codes: set<string>, first: string -> bool, second: string -> bool)
    ensures var d1 := DownloadEffect(d, folder, codes, first);
            var d2 := DownloadEffect(d1, folder, codes, second);
            |d1.requests| <= |d2.requests| &&
            forall k :: |d1.requests| <= k < |d2.requests| ==> !first(d2.requests[k])
  {
    if codes != {} {
      var l := SortedSet(codes);
      var d1 := WorkersEffect(d, folder, l, first);
      WorkersFiles(d, folder, l, first);
      WorkersFiles(d1, folder, l, second);
      WorkersRequests(d1, folder, l, second);
      var d2 := WorkersEffect(d1, folder, l, second);
      forall k | |d1.requests| <= k < |d2.requests| ensures !first(d2.requests[k]) {
        var x :| x in l && NormalizeCode(x) == d2.requests[k];
        assert first(d2.requests[k]) ==> PdbPath(folder, NormalizeCode(x)) in Fetched(folder, l, first);
      }
    }
  }

  /** The two codes of the example, in sorted order. */
  lemma SortedAB()
    ensures SortedSet({"A", "B"}) == ["A", "B"]
  {
    var l := SortedSet({"A", "B"});
    assert LexLess("A", "B");
    assert l[0] in {"A", "B"} && l[1] in {"A", "B"};
    assert LexLess(l[0], l[1]) && !LexLess("B", "A");
    LexLessIrreflexive(l[0]);
  }

  /** An upper-case letter is its own upper case. */
  lemma UpperLetter(c: char)
    requires 'A' <= c <= 'Z'
    ensures Upper([c]) == [c]
  {
    assert Upper([c])[0] == UpperChar(c);
  }

  /** One upper-case letter is its own normal form. */
  lemma NormalizeLetter(c: char)
    requires 'A' <= c <= 'Z'
    ensures NormalizeCode([c]) == [c]
  {
    StripNoSpace([c]);
    UpperLetter(c);
  }

  /** The worker for `A` finds `d/A.pdb` and does nothing. */
  lemma CachedWorker(outcome: string -> bool)
    ensures WorkerEffect(Disk(map[], {"d/A.pdb"}, []), "d", "A", outcome) == Disk(map[], {"d/A.pdb"}, [])
  {
    NormalizeLetter('A');
    PdbPathOfLetter('A');
  }

  /** The structure file of a one-letter code in folder `d`. */
  lemma PdbPathOfLetter(c: char)
    requires 'A' <= c <= 'Z'
    ensures PdbPath("d", [c]) == ['d', '/', c, '.', 'p', 'd', 'b']
  {
    assert !StartsWith([c] + ".pdb", "/");
    assert !EndsWith("d", "/");
  }

  /** The worker for `B` requests it, and the failed request adds no file. */
  lemma FailedWorker(outcome: string -> bool)
    requires !outcome("B")
    ensures WorkerEffect(Disk(map[], {"d/A.pdb"}, []), "d", "B", outcome) == Disk(map[], {"d/A.pdb"}, ["B"])
  {
    NormalizeLetter('B');
    PdbPathOfLetter('B');
    var p := PdbPath("d", "B");
    assert p[2] == 'B';
    assert p !in {"d/A.pdb"} by { assert "d/A.pdb"[2] == 'A'; }
    assert [] + ["B"] == ["B"];
  }

  /** Fetch set {A, B}: A's file is already there, B's fetch fails.  A is
      not fetched and stays, B stays absent, one request (for B) is sent. */
  lemma CachedAndFailedExample(outcome: string -> bool)
    requires !outcome("B")
    ensures DownloadEffect(Disk(map[], {"d/A.pdb"}, []), "d", {"A", "B"}, outcome)
            == Disk(map[], {"d/A.pdb"}, ["B"])
  {
    DownloadAB(Disk(map[], {"d/A.pdb"}, []), outcome);
    CachedThenFailed(outcome);
  }

  /** Downloading {A, B} runs the worker for A, then the one for B. */
  lemma DownloadAB(d: Disk, outcome: string -> bool)
    ensures DownloadEffect(d, "d", {"A", "B"}, outcome) == WorkersEffect(d, "d", ["A", "B"], outcome)
  {
    SortedAB();
    assert "A" in {"A", "B"};
  }

  /** The two workers of the example, one after the other. */
  lemma CachedThenFailed(outcome: string -> bool)
    requires !outcome("B")
    ensures WorkersEffect(Disk(map[], {"d/A.pdb"}, []), "d", ["A", "B"], outcome) == Disk(map[], {"d/A.pdb"}, ["B"])
  {
    var d0 := Disk(map[], {"d/A.pdb"}, []);
    var l := ["A", "B"];
    WorkersEffectSnoc(d0, "d", l, 0, outcome);
    assert l[..0] == [];
    CachedWorker(outcome);
    assert WorkersEffect(d0, "d", l[..1], outcome) == d0;
    WorkersEffectSnoc(d0, "d", l, 1, outcome);
    assert l[..1 + 1] == l;
    FailedWorker(outcome);
  }

  /** Grouping by query (`df.groupby(0)`): the rows of one query, in file order. */
  function GroupOf(rows: seq<HitRow>, query: string): (g: seq<HitRow>)
    ensures forall k :: 0 <= k < |g| ==> g[k].query == query && g[k] in rows
  {
    if rows == [] then []
    else GroupOf(rows[..|rows| - 1], query) + (if rows[|rows| - 1].query == query then [rows[|rows| - 1]] else [])
  }

  function QueriesOf(rows: seq<HitRow>): set<string>
  {
    set i | 0 <= i < |rows| :: rows[i].query
  }

  /** One query group (pdb_utils.py:123-167): a registry is written and the
      download run only when at least one `pdb|...` descriptor was found. */
  function QueryEffect(d: Disk, reportFolder: string, query: string, rows: seq<HitRow>, outcome: string -> bool): Disk
  {
    var folder := PathJoin(reportFolder, FolderName(query));
    var codes := ValidCodes(rows);
    if codes == {} then d
    else DownloadEffect(Disk(d.registries[RegistryPath(folder) := RegistryOf(rows)], d.files, d.requests),
                        folder, codes, outcome)
  }

  function QueriesEffect(d: Disk, reportFolder: string, queries: seq<string>, rows: seq<HitRow>, outcome: string -> bool): Disk
  {
    if queries == [] then d
    else
      var q := queries[|queries| - 1];
      QueryEffect(QueriesEffect(d, reportFolder, queries[..|queries| - 1], rows, outcome),
                  reportFolder, q, GroupOf(rows, q), outcome)
  }

  /** The query groups up to one more query. */
  lemma QueriesEffectSnoc(d: Disk, reportFolder: string, queries: seq<string>, i: nat, rows: seq<HitRow>, outcome: string -> bool)
    requires i < |queries|
    ensures QueriesEffect(d, reportFolder, queries[..i + 1], rows, outcome)
            == QueryEffect(QueriesEffect(d, reportFolder, queries[..i], rows, outcome),
                           reportFolder, queries[i], GroupOf(rows, queries[i]), outcome)
  {
    assert queries[..i + 1][..i] == queries[..i];
  }

  /** One report: its query groups in sorted query order. */
  function ReportEffect(d: Disk, reportFolder: string, rows: seq<HitRow>, outcome: string -> bool): Disk
  {
    QueriesEffect(d, reportFolder, SortedSet(QueriesOf(rows)), rows, outcome)
  }

  /** A query group without a single `pdb|CODE|CHAIN` descriptor writes
      nothing and downloads nothing. */
  lemma QueryWithoutCodes(d: Disk, reportFolder: string, query: string, rows: seq<HitRow>, outcome: string -> bool)
    requires forall i :: 0 <= i < |rows| ==> Entry(rows[i]).None?
    ensures QueryEffect(d, reportFolder, query, rows, outcome) == d
  {
    assert ValidCodes(rows) == {};
  }

  /** A query group with codes writes its own registry at its own path, and
      the downloads change only the files and the request log. */
  lemma QueryWritesRegistry(d: Disk, reportFolder: string, query: string, rows: seq<HitRow>, outcome: string -> bool)
    requires ValidCodes(rows) != {}
    ensures var e := QueryEffect(d, reportFolder, query, rows, outcome);
            var p := RegistryPath(PathJoin(reportFolder, FolderName(query)));
            e.registries == d.registries[p := RegistryOf(rows)] && d.files <= e.files
  {
    var folder := PathJoin(reportFolder, FolderName(query));
    var d0 := Disk(d.registries[RegistryPath(folder) := RegistryOf(rows)], d.files, d.requests);
    WorkersFiles(d0, folder, SortedSet(ValidCodes(rows)), outcome);
  }

  /** A report never removes a structure file, and every registry it leaves
      at a path it changed is the registry of one of its query groups whose
      folder is at that path. */
  lemma {:induction false} QueriesEffectRegistries(d: Disk, reportFolder: string, queries: seq<string>, rows: seq<HitRow>, outcome: string -> bool)
    ensures var e := QueriesEffect(d, reportFolder, queries, rows, outcome);
      && d.files <= e.files
      && forall p :: p in e.registries ==>
           (p in d.registries && e.registries[p] == d.registries[p]) ||
           exists q :: q in queries && p == RegistryPath(PathJoin(reportFolder, FolderName(q)))
                       && e.registries[p] == RegistryOf(GroupOf(rows, q))
  {
    if queries != [] {
      var pre := queries[..|queries| - 1];
      var q := queries[|queries| - 1];
      QueriesEffectRegistries(d, reportFolder, pre, rows, outcome);
      var mid := QueriesEffect(d, reportFolder, pre, rows, outcome);
      var e := QueriesEffect(d, reportFolder, queries, rows, outcome);
      var g := GroupOf(rows, q);
      if ValidCodes(g) != {} {
        QueryWritesRegistry(mid, reportFolder, q, g, outcome);
      }
      assert e == QueryEffect(mid, reportFolder, q, g, outcome);
      forall p | p in e.registries
        ensures (p in d.registries && e.registries[p] == d.registries[p]) ||
           exists q' :: q' in queries && p == RegistryPath(PathJoin(reportFolder, FolderName(q')))
                       && e.registries[p] == RegistryOf(GroupOf(rows, q'))
      {
        if ValidCodes(g) != {} && p == RegistryPath(PathJoin(reportFolder, FolderName(q))) {
          assert q in queries;
        } else {
          assert p in mid.registries && e.registries[p] == mid.registries[p];
          if !(p in d.registries && mid.registries[p] == d.registries[p]) {
            var q' :| q' in pre && p == RegistryPath(PathJoin(reportFolder, FolderName(q')))
                       && mid.registries[p] == RegistryOf(GroupOf(rows, q'));
            assert q' in queries;
          }
        }
      }
    }
  }

  // ---------------------------------------------------------------------
  // The stage as a program over the output directory
  // ---------------------------------------------------------------------

  /** The `hits_data` loop of one query group. */
  method BuildRegistry(rows: seq<HitRow>) returns (reg: Registry, codes: set<string>)
    ensures reg == RegistryOf(rows)
    ensures codes == ValidCodes(rows)
  {
    var order: seq<string> := [];
    var hits: map<string, Hit> := map[];
    codes := {};
    var i := 0;
    while i < |rows|
      invariant 0 <= i <= |rows|
      invariant Registry(order, hits) == RegistryOf(rows[..i])
      invariant codes == ValidCodes(rows[..i])
    {
      var row := rows[i];
      assert rows[..i + 1][..i] == rows[..i];
      ValidCodesSnoc(rows[..i + 1]);
      match ParseDescriptor(row.target) {
        case None =>
        case Some((code, chain)) =>
          codes := codes + {code};
          if code !in hits || row.evalue < hits[code].evalue {
            if code !in hits { order := order + [code]; }
            hits := hits[code := Hit(chain, row.evalue, row.bitscore, row.pident)];
          }
      }
      i := i + 1;
    }
    assert rows[..i] == rows;
    reg := Registry(order, hits);
  }

  /** The output directory of the stage: the registries written, the
      structure files present, and the requests sent to the repository. */
  class PdbWorkspace {
    var registries: map<string, Registry>
    var files: set<string>
    var requests: seq<string>

    function State(): Disk
      reads this
    {
      Disk(registries, files, requests)
    }

    constructor (present: set<string>)
      ensures State() == Disk(map[], present, [])
    {
      registries := map[];
      files := present;
      requests := [];
    }

    /** `_download_worker`: normalise, skip an empty code, skip a file that
        exists, otherwise request it and write it when the request succeeds. */
    method DownloadWorker(code: string, folder: string, outcome: string -> bool)
      modifies this
      ensures State() == WorkerEffect(old(State()), folder, code, outcome)
    {
      var c := Upper(Strip(code));
      if c == [] { return; }
      var path := PathJoin(folder, c + ".pdb");
      if path in files { return; }
      requests := requests + [c];
      if outcome(c) {
        files := files + {path};
      }
    }

    /** `baixar_pdb_files`: the sorted codes, one worker each. */
    method DownloadAll(codes: set<string>, folder: string, outcome: string -> bool)
      modifies this
      ensures State() == DownloadEffect(old(State()), folder, codes, outcome)
    {
      if codes == {} { return; }
      var list := SortedSet(codes);
      var i := 0;
      while i < |list|
        invariant 0 <= i <= |list|
        invariant State() == WorkersEffect(old(State()), folder, list[..i], outcome)
      {
        WorkersEffectSnoc(old(State()), folder, list, i, outcome);
        DownloadWorker(list[i], folder, outcome);
        i := i + 1;
      }
      assert list[..i] == list;
    }

    /** One query group of `extrair_pdb_codes`. */
    method ProcessQuery(reportFolder: string, query: string, rows: seq<HitRow>, outcome: string -> bool)
      modifies this
      ensures State() == QueryEffect(old(State()), reportFolder, query, rows, outcome)
    {
      var folder := PathJoin(reportFolder, FolderName(query));
      var reg, codes := BuildRegistry(rows);
      if codes != {} {
        registries := registries[PathJoin(folder, "blast_hits.json") := reg];
        DownloadAll(codes, folder, outcome);
      }
    }

    /** One report: its query groups in sorted order of query id. */
    method ProcessReport(reportFolder: string, rows: seq<HitRow>, outcome: string -> bool)
      modifies this
      ensures State() == ReportEffect(old(State()), reportFolder, rows, outcome)
    {
      var queries := SortedSet(QueriesOf(rows));
      var i := 0;
      while i < |queries|
        invariant 0 <= i <= |queries|
        invariant State() == QueriesEffect(old(State()), reportFolder, queries[..i], rows, outcome)
      {
        QueriesEffectSnoc(old(State()), reportFolder, queries, i, rows, outcome);
        var q := queries[i];
        ProcessQuery(reportFolder, q, GroupOf(rows, q), outcome);
        i := i + 1;
      }
      assert queries[..i] == queries;
    }
  }

  /** `extrair_pdb_codes`: every `.tsv` report found, each under the folder
      named after the report file. */
  function ReportsEffect(d: Disk, outRoot: string, reports: seq<(string, seq<HitRow>)>, outcome: string -> bool): Disk
  {
    if reports == [] then d
    else
      var (name, rows) := reports[|reports| - 1];
      var d' := ReportsEffect(d, outRoot, reports[..|reports| - 1], outcome);
      if EndsWith(name, ".tsv") then ReportEffect(d', PathJoin(outRoot, Stem(name)), rows, outcome) else d'
  }

  /** The reports up to one more report. */
  lemma ReportsEffectSnoc(d: Disk, outRoot: string, reports: seq<(string, seq<HitRow>)>, i: nat, outcome: string -> bool)
    requires i < |reports|
    ensures var d' := ReportsEffect(d, outRoot, reports[..i], outcome);
      var (name, rows) := reports[i];
      ReportsEffect(d, outRoot, reports[..i + 1], outcome)
        == if EndsWith(name, ".tsv") then ReportEffect(d', PathJoin(outRoot, Stem(name)), rows, outcome) else d'
  {
    assert reports[..i + 1][..i] == reports[..i];
  }

  method ExtractPdbCodes(ws: PdbWorkspace, outRoot: string, reports: seq<(string, seq<HitRow>)>, outcome: string -> bool)
    modifies ws
    ensures ws.State() == ReportsEffect(old(ws.State()), outRoot, reports, outcome)
  {
    var i := 0;
    while i < |reports|
      invariant 0 <= i <= |reports|
      invariant ws.State() == ReportsEffect(old(ws.State()), outRoot, reports[..i], outcome)
    {
      ReportsEffectSnoc(old(ws.State()), outRoot, reports, i, outcome);
      var (name, rows) := reports[i];
      if EndsWith(name, ".tsv") {
        ws.ProcessReport(PathJoin(outRoot, Stem(name)), rows, outcome);
      }
      i := i + 1;
    }
    assert reports[..i] == reports;
  }
}
