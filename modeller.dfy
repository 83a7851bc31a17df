/** Template choice for homology modelling (pipeline_utils/modeller_utils.py):
    the `.ali` target file, the resolution read from a PDB header, the
    candidate list built from the hit registry, its ranking, the interactive
    choice and the pick of the best generated model. */
module ModellerUtils {
  import opened Common

  // ---------------------------------------------------------------------
  // The `.ali` target file (modeller_utils.py:76-86)
  // ---------------------------------------------------------------------

  /** The three lines written for the target sequence. */
  function AliText(code: string, sequence: string): string
  {
    ">P1;" + code + "\n" + "sequence:" + code + ":::::::0.00: 0.00\n" + sequence + "*\n"
  }

  /** Read back line by line, the file holds the header, the description
      line and the sequence with its terminator, and nothing else. */
  lemma AliTextLines(code: string, sequence: string)
    requires '\n' !in code && '\n' !in sequence
    ensures Split(AliText(code, sequence), '\n') ==
      [">P1;" + code, "sequence:" + code + ":::::::0.00: 0.00", sequence + "*", ""]
  {
    var l1 := ">P1;" + code;
    var l2 := "sequence:" + code + ":::::::0.00: 0.00";
    var l3 := sequence + "*";
    assert '\n' !in l1 && '\n' !in l2 && '\n' !in l3;
    assert AliText(code, sequence) == l1 + ['\n'] + (l2 + ['\n'] + (l3 + ['\n'] + []));
    SplitCons(l1, '\n', l2 + ['\n'] + (l3 + ['\n'] + []));
    SplitCons(l2, '\n', l3 + ['\n'] + []);
    SplitCons(l3, '\n', []);
  }

  /** Different targets give different files. */
  lemma AliTextInjective(c1: string, s1: string, c2: string, s2: string)
    requires '\n' !in c1 && '\n' !in s1 && '\n' !in c2 && '\n' !in s2
    requires AliText(c1, s1) == AliText(c2, s2)
    ensures c1 == c2 && s1 == s2
  {
    AliTextLines(c1, s1);
    AliTextLines(c2, s2);
    var a := Split(AliText(c1, s1), '\n');
    assert a[0] == ">P1;" + c1 && a[0] == ">P1;" + c2;
    assert c1 == (">P1;" + c1)[4..] && c2 == (">P1;" + c2)[4..];
    assert a[2] == s1 + "*" && a[2] == s2 + "*";
    assert s1 == (s1 + "*")[..|s1|] && s2 == (s2 + "*")[..|s2|];
  }

  // ---------------------------------------------------------------------
  // The leftmost match of `\d+\.\d+`
  // ---------------------------------------------------------------------

  /** The end of the run of digits starting at `i`. */
  function DigitRunEnd(s: string, i: nat): (j: nat)
    requires i <= |s|
    ensures i <= j <= |s|
    ensures forall k :: i <= k < j ==> IsDigit(s[k])
    ensures j == |s| || !IsDigit(s[j])
    decreases |s| - i
  {
    if i < |s| && IsDigit(s[i]) then DigitRunEnd(s, i + 1) else i
  }

  /** The text `\d+\.\d+` matches when started at `i` (greedy runs; a
      shorter first run would end on a digit, never on the dot). */
  function MatchAt(s: string, i: nat): Option<string>
    requires i <= |s|
  {
    var j := DigitRunEnd(s, i);
    if i < j && j + 1 < |s| && s[j] == '.' && IsDigit(s[j + 1]) then Some(s[i..DigitRunEnd(s, j + 1)])
    else None
  }

  /** One or more digits, a dot, one or more digits. */
  predicate IsDecimal(m: string)
  {
    exists d :: 0 < d < |m| - 1 && m[d] == '.' && AllDigits(m[..d]) && AllDigits(m[d + 1..])
  }

  predicate AllDigits(s: string) { forall k :: 0 <= k < |s| ==> IsDigit(s[k]) }

  /** A match is a decimal number that occurs at its start position and
      cannot be extended by a further digit. */
  lemma MatchAtIsDecimal(s: string, i: nat)
    requires i <= |s| && MatchAt(s, i).Some?
    ensures var m := MatchAt(s, i).value;
      && IsDecimal(m) && i + |m| <= |s| && OccursAt(s, m, i)
      && (i + |m| == |s| || !IsDigit(s[i + |m|]))
  {
    var j := DigitRunEnd(s, i);
    var e := DigitRunEnd(s, j + 1);
    var m := s[i..e];
    assert MatchAt(s, i).value == m;
    var d := j - i;
    assert |m| == e - i && 0 < d < |m| - 1 && m[d] == '.';
    var left, right := m[..d], m[d + 1..];
    assert AllDigits(left) by {
      forall k | 0 <= k < |left| ensures IsDigit(left[k]) {
        assert left[k] == s[i + k];
      }
    }
    assert AllDigits(right) by {
      forall k | 0 <= k < |right| ensures IsDigit(right[k]) {
        assert right[k] == s[j + 1 + k];
      }
    }
    assert IsDecimal(m);
    assert OccursAt(s, m, i);
  }

  /** The first position from `from` to `to` where `f` finds something. */
  function FirstHit(f: nat -> Option<string>, from: nat, to: nat): Option<string>
    decreases to - from
  {
    if f(from).Some? then f(from)
    else if from >= to then None
    else FirstHit(f, from + 1, to)
  }

  lemma {:induction false} FirstHitLeftmost(f: nat -> Option<string>, from: nat, to: nat)
    requires from <= to
    ensures FirstHit(f, from, to).Some? ==>
      exists i :: from <= i <= to && f(i) == FirstHit(f, from, to) && forall k :: from <= k < i ==> f(k).None?
    ensures FirstHit(f, from, to).None? ==> (forall k :: from <= k <= to ==> f(k).None?)
    decreases (to as int) - (from as int)
  {
    if f(from).Some? {
      assert f(from) == FirstHit(f, from, to);
    } else if from < to {
      FirstHitLeftmost(f, from + 1, to);
      if FirstHit(f, from, to).Some? {
        var i :| from + 1 <= i <= to && f(i) == FirstHit(f, from + 1, to) && forall k :: from + 1 <= k < i ==> f(k).None?;
        assert forall k :: from <= k < i ==> f(k).None?;
      }
    }
  }

  /** The match starting at each position of `s`. */
  function MatchesOf(s: string): nat -> Option<string>
  {
    (k: nat) => if k <= |s| then MatchAt(s, k) else None
  }

  /** `re.search(r"(\d+\.\d+)", line)` from position `from` onwards. */
  function SearchDecimal(s: string, from: nat): Option<string>
    requires from <= |s|
  {
    FirstHit(MatchesOf(s), from, |s|)
  }

  /** The search returns the match at the leftmost position that has one,
      and finds nothing exactly when no position has one. */
  lemma SearchDecimalLeftmost(s: string, from: nat)
    requires from <= |s|
    ensures SearchDecimal(s, from).Some? ==>
      exists i :: from <= i <= |s| && MatchAt(s, i) == SearchDecimal(s, from)
                  && forall k :: from <= k < i ==> MatchAt(s, k).None?
    ensures SearchDecimal(s, from).None? ==> forall k :: from <= k <= |s| ==> MatchAt(s, k).None?
  {
    var f := MatchesOf(s);
    FirstHitLeftmost(f, from, |s|);
    assert forall k :: 0 <= k <= |s| ==> f(k) == MatchAt(s, k);
  }

  // ---------------------------------------------------------------------
  // Resolution from the PDB header (modeller_utils.py:91-110)
  // ---------------------------------------------------------------------

  /** The three possible answers: a number as text, "N/A", "Erro". */
  datatype Resolution = Value(text: string) | NotAvailable | Unreadable

  function ResolutionText(r: Resolution): string
  {
    match r
    case Value(t) => t
    case NotAvailable => "N/A"
    case Unreadable => "Erro"
  }

  const RemarkPrefix: string := "REMARK   2 RESOLUTION."

  predicate StopsScan(line: string) { StartsWith(line, RemarkPrefix) || StartsWith(line, "ATOM") }

  /** The answer for a readable file given as its lines. */
  function ScanLines(lines: seq<string>): Resolution
  {
    if lines == [] then NotAvailable
    else if StartsWith(lines[0], RemarkPrefix) then
      match SearchDecimal(lines[0], 0)
      case Some(m) => Value(m)
      case None => NotAvailable
    else if StartsWith(lines[0], "ATOM") then NotAvailable
    else ScanLines(lines[1..])
  }

  /** The answer for a file: `None` stands for a file that cannot be read. */
  function ResolutionOf(file: Option<seq<string>>): Resolution
  {
    if file.None? then Unreadable else ScanLines(file.value)
  }

  /** The answer is decided by the first line that starts with the
      resolution remark or with ATOM; nothing after it is read. */
  lemma {:induction false} ScanDecidedByFirstStop(lines: seq<string>, k: nat)
    requires k < |lines| && StopsScan(lines[k])
    requires forall j :: 0 <= j < k ==> !StopsScan(lines[j])
    ensures ScanLines(lines) ==
      if StartsWith(lines[k], RemarkPrefix) then
        (match SearchDecimal(lines[k], 0) case Some(m) => Value(m) case None => NotAvailable)
      else NotAvailable
  {
    if k > 0 {
      assert !StopsScan(lines[0]);
      ScanDecidedByFirstStop(lines[1..], k - 1);
    }
  }

  /** Without any such line the answer is "N/A". */
  lemma {:induction false} ScanWithoutStop(lines: seq<string>)
    requires forall j :: 0 <= j < |lines| ==> !StopsScan(lines[j])
    ensures ScanLines(lines) == NotAvailable
  {
    if lines != [] {
      assert !StopsScan(lines[0]);
      ScanWithoutStop(lines[1..]);
    }
  }

  /** A resolution remark after the first ATOM record is never seen. */
  lemma RemarkAfterAtomIgnored(before: seq<string>, atom: string, after: seq<string>)
    requires forall j :: 0 <= j < |before| ==> !StopsScan(before[j])
    requires StartsWith(atom, "ATOM")
    ensures ScanLines(before + [atom] + after) == NotAvailable
  {
    var lines := before + [atom] + after;
    assert lines[|before|] == atom;
    assert !StartsWith(atom, RemarkPrefix) by { assert atom[0] == 'A'; }
    forall j | 0 <= j < |before| ensures !StopsScan(lines[j]) { assert lines[j] == before[j]; }
    ScanDecidedByFirstStop(lines, |before|);
  }

  /** `get_pdb_resolution`: the line loop with its early return and break. */
  method GetPdbResolution(file: Option<seq<string>>) returns (r: Resolution)
    ensures r == ResolutionOf(file)
  {
    if file.None? { return Unreadable; }
    var lines := file.value;
    var i := 0;
    while i < |lines|
      invariant 0 <= i <= |lines|
      invariant ScanLines(lines) == ScanLines(lines[i..])
    {
      var line := lines[i];
      if StartsWith(line, RemarkPrefix) {
        var m := SearchDecimal(line, 0);
        if m.Some? { return Value(m.value); } else { return NotAvailable; }
      }
      if StartsWith(line, "ATOM") { break; }
      assert lines[i..][1..] == lines[i + 1..];
      i := i + 1;
    }
    return NotAvailable;
  }

  // ---------------------------------------------------------------------
  // Candidates (modeller_utils.py:115-148)
  // ---------------------------------------------------------------------

  /** A registry entry as loaded from JSON: any of its keys may be missing
      (`None`). */
  datatype StoredHit = StoredHit(chain: Option<string>, evalue: Option<real>, bitscore: Option<real>, pident: Option<real>)

  /** `blast_hits.json` in a run directory: not there, there but rejected by
      `json.load`, or loaded (entries in dict order). */
  datatype Registry = NoRegistry | Unparsable | Loaded(entries: seq<(string, StoredHit)>)

  datatype Candidate = Candidate(code: string, chain: string, evalue: real, bitscore: real,
                                 pident: real, resolution: Resolution)

  /** `int(sys.float_info.max)`, the default evalue. */
  const FloatMax: real := 179769313486231570814527423731704356798070567525844996598917476803157260780028538760589558632766878171540458953514382464234321326889464182768467546703537516986049910576551282076245490090389328944075868508455133942304583236903222948165808559332123348274797826204144723168738177180919299881250404026184124858368.0

  function OrDefault(v: Option<real>, default: real): real
  {
    if v.Some? then v.value else default
  }

  function StructurePath(moldes: string, code: string): string { PathJoin(moldes, code + ".pdb") }

  /** Every entry whose structure file is present has a `chain`; reading
      `data['chain']` of one that has none raises `KeyError`. */
  predicate ChainsPresent(entries: seq<(string, StoredHit)>, moldes: string, files: map<string, Option<seq<string>>>)
  {
    entries == []
    || (ChainsPresent(entries[..|entries| - 1], moldes, files)
        && (StructurePath(moldes, entries[|entries| - 1].0) in files ==> entries[|entries| - 1].1.chain.Some?))
  }

  /** `ChainsPresent` holds exactly when no present entry lacks its chain. */
  lemma {:induction false} ChainsPresentMeansNoMissingChain(entries: seq<(string, StoredHit)>, moldes: string, files: map<string, Option<seq<string>>>)
    ensures ChainsPresent(entries, moldes, files) <==>
      forall i :: 0 <= i < |entries| && StructurePath(moldes, entries[i].0) in files ==> entries[i].1.chain.Some?
  {
    if entries != [] {
      var pre := entries[..|entries| - 1];
      assert forall i :: 0 <= i < |pre| ==> pre[i] == entries[i];
      ChainsPresentMeansNoMissingChain(pre, moldes, files);
    }
  }

  /** The candidate for a registry entry whose file is present. */
  function CandidateOf(code: string, h: StoredHit, file: Option<seq<string>>): Candidate
    requires h.chain.Some?
  {
    Candidate(code, h.chain.value, OrDefault(h.evalue, FloatMax), OrDefault(h.bitscore, 0.0),
              OrDefault(h.pident, 0.0), ResolutionOf(file))
  }

  /** The candidates of a registry (entries in dict order) given the files
      in the template folder (path -> lines, `None` if unreadable). */
  function CandidatesOf(entries: seq<(string, StoredHit)>, moldes: string, files: map<string, Option<seq<string>>>): seq<Candidate>
    requires ChainsPresent(entries, moldes, files)
  {
    if entries == [] then []
    else
      var (code, h) := entries[|entries| - 1];
      var p := StructurePath(moldes, code);
      CandidatesOf(entries[..|entries| - 1], moldes, files)
        + (if p in files then [CandidateOf(code, h, files[p])] else [])
  }

  /** Candidate `k` comes from a registry entry whose structure file is
      present, later candidates from later entries: the candidates are the
      present entries, in registry order, with their defaults filled in. */
  predicate IsCandidateOf(entries: seq<(string, StoredHit)>, moldes: string, files: map<string, Option<seq<string>>>, i: int, c: Candidate)
  {
    0 <= i < |entries| && StructurePath(moldes, entries[i].0) in files && entries[i].1.chain.Some?
    && c == CandidateOf(entries[i].0, entries[i].1, files[StructurePath(moldes, entries[i].0)])
  }

  lemma {:induction false} CandidatesAreThePresentEntries(entries: seq<(string, StoredHit)>, moldes: string, files: map<string, Option<seq<string>>>)
    requires ChainsPresent(entries, moldes, files)
    ensures forall c :: c in CandidatesOf(entries, moldes, files) <==>
      exists i :: IsCandidateOf(entries, moldes, files, i, c)
  {
    if entries != [] {
      var n := |entries| - 1;
      var pre := entries[..n];
      CandidatesAreThePresentEntries(pre, moldes, files);
      var cs := CandidatesOf(entries, moldes, files);
      var ps := CandidatesOf(pre, moldes, files);
      assert forall i, c :: IsCandidateOf(pre, moldes, files, i, c) ==> IsCandidateOf(entries, moldes, files, i, c);
      forall c | c in cs ensures exists i :: IsCandidateOf(entries, moldes, files, i, c) {
        if c in ps {
          var i :| IsCandidateOf(pre, moldes, files, i, c);
        } else {
          assert IsCandidateOf(entries, moldes, files, n, c);
        }
      }
      forall c, i | IsCandidateOf(entries, moldes, files, i, c) ensures c in cs {
        if i < n {
          assert IsCandidateOf(pre, moldes, files, i, c);
        }
      }
    }
  }

  /** A registry whose every file is present yields one candidate per entry. */
  lemma {:induction false} AllPresentAllCandidates(entries: seq<(string, StoredHit)>, moldes: string, files: map<string, Option<seq<string>>>)
    requires forall i :: 0 <= i < |entries| ==> StructurePath(moldes, entries[i].0) in files
    requires ChainsPresent(entries, moldes, files)
    ensures |CandidatesOf(entries, moldes, files)| == |entries|
    ensures forall i :: 0 <= i < |entries| ==> CandidatesOf(entries, moldes, files)[i].code == entries[i].0
  {
    if entries != [] {
      var pre := entries[..|entries| - 1];
      assert forall i :: 0 <= i < |pre| ==> pre[i] == entries[i];
      AllPresentAllCandidates(pre, moldes, files);
    }
  }

  /** Dropping the last entries keeps `ChainsPresent`. */
  lemma {:induction false} ChainsPresentPrefix(entries: seq<(string, StoredHit)>, moldes: string, files: map<string, Option<seq<string>>>, n: nat)
    requires n <= |entries|
    requires ChainsPresent(entries, moldes, files)
    ensures ChainsPresent(entries[..n], moldes, files)
    decreases |entries|
  {
    if n < |entries| {
      var pre := entries[..|entries| - 1];
      ChainsPresentPrefix(pre, moldes, files, n);
      assert pre[..n] == entries[..n];
    } else {
      assert entries[..n] == entries;
    }
  }

  /** The `available_hits` loop: `None` when it raises `KeyError` on an
      entry without a chain. */
  method BuildCandidates(entries: seq<(string, StoredHit)>, moldes: string, files: map<string, Option<seq<string>>>)
    returns (cs: Option<seq<Candidate>>)
    ensures cs.Some? <==> ChainsPresent(entries, moldes, files)
    ensures cs.Some? ==> cs.value == CandidatesOf(entries, moldes, files)
  {
    var built := [];
    var i := 0;
    while i < |entries|
      invariant 0 <= i <= |entries|
      invariant ChainsPresent(entries[..i], moldes, files)
      invariant built == CandidatesOf(entries[..i], moldes, files)
    {
      assert entries[..i + 1][..i] == entries[..i];
      var (code, h) := entries[i];
      var p := PathJoin(moldes, code + ".pdb");
      if p in files {
        var res := GetPdbResolution(files[p]);
        if h.chain.None? {
          if ChainsPresent(entries, moldes, files) {
            ChainsPresentPrefix(entries, moldes, files, i + 1);
          }
          return None;
        }
        built := built + [Candidate(code, h.chain.value, OrDefault(h.evalue, FloatMax), OrDefault(h.bitscore, 0.0),
                                    OrDefault(h.pident, 0.0), res)];
      }
      i := i + 1;
    }
    assert entries[..i] == entries;
    return Some(built);
  }

  // ---------------------------------------------------------------------
  // Ranking (modeller_utils.py:151)
  // ---------------------------------------------------------------------

  /** `a` sorts strictly before `b` under the key (-pident, evalue, -bitscore). */
  predicate RanksBefore(a: Candidate, b: Candidate)
  {
    a.pident > b.pident
    || (a.pident == b.pident && (a.evalue < b.evalue || (a.evalue == b.evalue && a.bitscore > b.bitscore)))
  }

  predicate SameKey(a: Candidate, b: Candidate)
  {
    a.pident == b.pident && a.evalue == b.evalue && a.bitscore == b.bitscore
  }

  predicate Ranked(s: seq<Candidate>)
  {
    forall i, j :: 0 <= i < j < |s| ==> !RanksBefore(s[j], s[i])
  }

  /** Insert `x` in front of the first element it does not rank after. */
  function Insert(x: Candidate, t: seq<Candidate>): (r: seq<Candidate>)
    ensures |r| == |t| + 1
  {
    if t == [] then [x]
    else if RanksBefore(t[0], x) then [t[0]] + Insert(x, t[1..])
    else [x] + t
  }

  /** The stable sort, as an insertion sort. */
  function Rank(s: seq<Candidate>): (r: seq<Candidate>)
    ensures |r| == |s|
  {
    if s == [] then [] else Insert(s[0], Rank(s[1..]))
  }

  lemma {:induction false} InsertPermutes(x: Candidate, t: seq<Candidate>)
    ensures multiset(Insert(x, t)) == multiset(t) + multiset{x}
  {
    if t != [] && RanksBefore(t[0], x) {
      InsertPermutes(x, t[1..]);
      assert t == [t[0]] + t[1..];
    }
  }

  /** The tail of a ranked sequence is ranked. */
  lemma RankedTail(t: seq<Candidate>)
    requires t != [] && Ranked(t)
    ensures Ranked(t[1..])
  {
    var rest := t[1..];
    forall i, j | 0 <= i < j < |rest| ensures !RanksBefore(rest[j], rest[i]) {
      assert rest[j] == t[j + 1] && rest[i] == t[i + 1];
    }
  }

  /** A head no element ranks before, on a ranked sequence, keeps it ranked. */
  lemma RankedCons(h: Candidate, s: seq<Candidate>)
    requires Ranked(s)
    requires forall j :: 0 <= j < |s| ==> !RanksBefore(s[j], h)
    ensures Ranked([h] + s)
  {
    var r := [h] + s;
    forall i, j | 0 <= i < j < |r| ensures !RanksBefore(r[j], r[i]) {
      assert r[j] == s[j - 1];
      if i > 0 { assert r[i] == s[i - 1]; }
    }
  }

  lemma {:induction false} InsertRanked(x: Candidate, t: seq<Candidate>)
    requires Ranked(t)
    ensures Ranked(Insert(x, t))
  {
    if t != [] {
      if RanksBefore(t[0], x) {
        var rest := t[1..];
        RankedTail(t);
        InsertRanked(x, rest);
        InsertPermutes(x, rest);
        var s := Insert(x, rest);
        forall j | 0 <= j < |s| ensures !RanksBefore(s[j], t[0]) {
          assert s[j] in multiset(s);
          assert s[j] == x || s[j] in multiset(rest);
          if s[j] != x {
            var k :| 0 <= k < |rest| && rest[k] == s[j];
            assert t[k + 1] == s[j];
          }
        }
        RankedCons(t[0], s);
        assert Insert(x, t) == [t[0]] + s;
      } else {
        forall j | 0 <= j < |t| ensures !RanksBefore(t[j], x) {
          if j > 0 { assert !RanksBefore(t[j], t[0]); }
        }
        RankedCons(x, t);
      }
    }
  }

  /** The ranking is ordered by the key and is a permutation of its input. */
  lemma {:induction false} RankSortsAndPermutes(s: seq<Candidate>)
    ensures Ranked(Rank(s))
    ensures multiset(Rank(s)) == multiset(s)
  {
    if s != [] {
      RankSortsAndPermutes(s[1..]);
      InsertRanked(s[0], Rank(s[1..]));
      InsertPermutes(s[0], Rank(s[1..]));
      assert s == [s[0]] + s[1..];
    }
  }

  /** The elements of `s` that share `c`'s key, in order. */
  function WithKeyOf(s: seq<Candidate>, c: Candidate): seq<Candidate>
  {
    if s == [] then []
    else (if SameKey(s[0], c) then [s[0]] else []) + WithKeyOf(s[1..], c)
  }

  lemma {:induction false} InsertStable(x: Candidate, t: seq<Candidate>, c: Candidate)
    ensures WithKeyOf(Insert(x, t), c) == (if SameKey(x, c) then [x] else []) + WithKeyOf(t, c)
  {
    if t != [] && RanksBefore(t[0], x) {
      InsertStable(x, t[1..], c);
      assert Insert(x, t)[1..] == Insert(x, t[1..]);
    } else if t != [] {
      assert ([x] + t)[1..] == t;
    }
  }

  /** The ranking is stable: candidates with equal keys keep their order. */
  lemma {:induction false} RankStable(s: seq<Candidate>, c: Candidate)
    ensures WithKeyOf(Rank(s), c) == WithKeyOf(s, c)
  {
    if s != [] {
      RankStable(s[1..], c);
      InsertStable(s[0], Rank(s[1..]), c);
    }
  }

  /** The first ranked candidate has the highest identity, then the lowest
      evalue, then the highest bitscore, of all candidates. */
  lemma RankHeadIsBest(s: seq<Candidate>)
    requires s != []
    ensures |Rank(s)| == |s|
    ensures forall c :: c in s ==> !RanksBefore(c, Rank(s)[0])
  {
    RankSortsAndPermutes(s);
    var r := Rank(s);
    forall c | c in s ensures !RanksBefore(c, r[0]) {
      assert c in multiset(s);
      var j :| 0 <= j < |r| && r[j] == c;
    }
  }

  // ---------------------------------------------------------------------
  // The choice (modeller_utils.py:159-201)
  // ---------------------------------------------------------------------

  /** The result of the selection: a template, `(None, None)`, the input
      ending while a prompt waits for an answer, or an exception from reading
      the registry (which aborts `run_modelling`, whose call is not guarded). */
  datatype Choice = Chosen(code: string, chain: string) | NoTemplate | InputEnded | Raised

  function ChoiceOf(c: Candidate): Choice { Chosen(c.code, c.chain) }

  /** The number typed at the manual prompt selects a candidate. */
  predicate ValidPick(ranked: seq<Candidate>, answer: string)
  {
    var n := PyInt(Strip(answer));
    n.Some? && 1 <= n.value <= |ranked|
  }

  /** The candidate the number in `answer` designates. */
  function Picked(ranked: seq<Candidate>, answer: string): Candidate
    requires ValidPick(ranked, answer)
  {
    ranked[PyInt(Strip(answer)).value - 1]
  }

  /** The inner prompt loop on the remaining answers. */
  function Manual(ranked: seq<Candidate>, answers: seq<string>): Choice
  {
    if answers == [] then InputEnded
    else if ValidPick(ranked, answers[0]) then ChoiceOf(Picked(ranked, answers[0]))
    else Manual(ranked, answers[1..])
  }

  /** The outer prompt loop on the remaining answers. */
  function Mode(ranked: seq<Candidate>, answers: seq<string>): Choice
    requires ranked != []
  {
    if answers == [] then InputEnded
    else if Strip(answers[0]) == "1" then ChoiceOf(ranked[0])
    else if Strip(answers[0]) == "2" then Manual(ranked, answers[1..])
    else Mode(ranked, answers[1..])
  }

  /** The whole selection for a run directory. */
  function SelectionOf(registry: Registry, moldes: string,
                       files: map<string, Option<seq<string>>>, answers: seq<string>): Choice
  {
    match registry
    case NoRegistry => NoTemplate
    case Unparsable => Raised
    case Loaded(entries) =>
      if !ChainsPresent(entries, moldes, files) then Raised
      else
        var cs := CandidatesOf(entries, moldes, files);
        if cs == [] then NoTemplate else Mode(Rank(cs), answers)
  }

  /** Answer `j` is the first one that selects a candidate. */
  predicate FirstValidPick(ranked: seq<Candidate>, answers: seq<string>, j: int)
  {
    0 <= j < |answers| && ValidPick(ranked, answers[j])
    && forall l :: 0 <= l < j ==> !ValidPick(ranked, answers[l])
  }

  lemma FirstValidPickShift(ranked: seq<Candidate>, answers: seq<string>, j: int)
    requires answers != [] && !ValidPick(ranked, answers[0]) && FirstValidPick(ranked, answers, j)
    ensures j >= 1 && FirstValidPick(ranked, answers[1..], j - 1)
  {
    var rest := answers[1..];
    forall l | 0 <= l < j - 1 ensures !ValidPick(ranked, rest[l]) { assert rest[l] == answers[l + 1]; }
  }

  lemma ManualTakes(ranked: seq<Candidate>, answers: seq<string>)
    requires answers != [] && ValidPick(ranked, answers[0])
    ensures Manual(ranked, answers) == ChoiceOf(Picked(ranked, answers[0]))
  {
  }

  lemma ManualSkips(ranked: seq<Candidate>, answers: seq<string>)
    requires answers != [] && !ValidPick(ranked, answers[0])
    ensures Manual(ranked, answers) == Manual(ranked, answers[1..])
  {
  }

  /** `n` is the number typed in `answer`. */
  lemma ValidPickOf(ranked: seq<Candidate>, answer: string, n: Option<int>)
    requires n == PyInt(Strip(answer))
    ensures ValidPick(ranked, answer) <==> n.Some? && 1 <= n.value <= |ranked|
    ensures ValidPick(ranked, answer) ==> Picked(ranked, answer) == ranked[n.value - 1]
  {
  }

  /** One answer at the manual prompt: a valid number ends the prompt,
      anything else moves on to the next answer. */
  lemma ManualAt(ranked: seq<Candidate>, answers: seq<string>, i: nat)
    requires i < |answers|
    ensures Manual(ranked, answers[i..])
         == if ValidPick(ranked, answers[i]) then ChoiceOf(Picked(ranked, answers[i])) else Manual(ranked, answers[i + 1..])
  {
    var rest := answers[i..];
    assert rest[0] == answers[i] && rest[1..] == answers[i + 1..];
  }

  /** The answer at `i` holds a number in 1..count: the prompt ends. */
  lemma ManualTakesAt(ranked: seq<Candidate>, answers: seq<string>, i: nat, n: Option<int>)
    requires i < |answers| && n == PyInt(Strip(answers[i]))
    requires n.Some? && 0 <= n.value - 1 < |ranked|
    ensures Manual(ranked, answers[i..]) == Chosen(ranked[n.value - 1].code, ranked[n.value - 1].chain)
  {
    ManualAt(ranked, answers, i);
    ValidPickOf(ranked, answers[i], n);
  }

  /** Any other answer at `i` is skipped. */
  lemma ManualSkipsAt(ranked: seq<Candidate>, answers: seq<string>, i: nat, n: Option<int>)
    requires i < |answers| && n == PyInt(Strip(answers[i]))
    requires !(n.Some? && 0 <= n.value - 1 < |ranked|)
    ensures Manual(ranked, answers[i..]) == Manual(ranked, answers[i + 1..])
  {
    ManualAt(ranked, answers, i);
    ValidPickOf(ranked, answers[i], n);
  }

  /** The manual prompt returns a candidate only for the first answer that
      is an integer in 1..count, and then that candidate; anything else is
      asked again, and there is no default. */
  lemma {:induction false} ManualPicksFirstValid(ranked: seq<Candidate>, answers: seq<string>, j: int)
    requires FirstValidPick(ranked, answers, j)
    ensures Manual(ranked, answers) == ChoiceOf(Picked(ranked, answers[j]))
    decreases |answers|
  {
    var a := answers[j];
    if j == 0 {
      ManualTakes(ranked, answers);
      assert Manual(ranked, answers) == ChoiceOf(Picked(ranked, a));
    } else {
      var rest := answers[1..];
      assert !ValidPick(ranked, answers[0]);
      ManualSkips(ranked, answers);
      FirstValidPickShift(ranked, answers, j);
      ManualPicksFirstValid(ranked, rest, j - 1);
      assert rest[j - 1] == a;
      assert Manual(ranked, rest) == ChoiceOf(Picked(ranked, a));
    }
  }

  /** Without an answer that selects a candidate, the input runs out. */
  lemma {:induction false} ManualWithoutValidPick(ranked: seq<Candidate>, answers: seq<string>)
    requires forall j :: 0 <= j < |answers| ==> !ValidPick(ranked, answers[j])
    ensures Manual(ranked, answers) == InputEnded
  {
    if answers != [] {
      assert !ValidPick(ranked, answers[0]);
      assert forall j :: 0 <= j < |answers[1..]| ==> answers[1..][j] == answers[j + 1];
      ManualWithoutValidPick(ranked, answers[1..]);
    }
  }

  predicate IsModeAnswer(a: string) { Strip(a) == "1" || Strip(a) == "2" }

  /** Answer `j` is the first one that names a mode. */
  predicate FirstMode(answers: seq<string>, j: int)
  {
    0 <= j < |answers| && IsModeAnswer(answers[j])
    && forall l :: 0 <= l < j ==> !IsModeAnswer(answers[l])
  }

  lemma FirstModeShift(answers: seq<string>, j: int)
    requires answers != [] && !IsModeAnswer(answers[0]) && FirstMode(answers, j)
    ensures j >= 1 && FirstMode(answers[1..], j - 1)
  {
    var rest := answers[1..];
    forall l | 0 <= l < j - 1 ensures !IsModeAnswer(rest[l]) { assert rest[l] == answers[l + 1]; }
  }

  /** The mode prompt: the first answer that strips to "1" or "2" decides;
      "1" takes the top-ranked candidate, "2" hands the remaining answers
      to the manual prompt; every other answer is asked again. */
  lemma {:induction false} ModeDecidedByFirstMode(ranked: seq<Candidate>, answers: seq<string>, j: int)
    requires ranked != [] && FirstMode(answers, j)
    ensures Mode(ranked, answers) ==
      if Strip(answers[j]) == "1" then ChoiceOf(ranked[0]) else Manual(ranked, answers[j + 1..])
  {
    if IsModeAnswer(answers[0]) {
      assert j == 0;
    } else {
      FirstModeShift(answers, j);
      ModeDecidedByFirstMode(ranked, answers[1..], j - 1);
      assert answers[1..][j - 1] == answers[j];
      assert answers[1..][j - 1 + 1..] == answers[j + 1..];
    }
  }

  /** Without an answer naming a mode, the input runs out. */
  lemma {:induction false} ModeWithoutModeAnswer(ranked: seq<Candidate>, answers: seq<string>)
    requires ranked != []
    requires forall j :: 0 <= j < |answers| ==> !IsModeAnswer(answers[j])
    ensures Mode(ranked, answers) == InputEnded
  {
    if answers != [] {
      assert !IsModeAnswer(answers[0]);
      assert forall j :: 0 <= j < |answers[1..]| ==> answers[1..][j] == answers[j + 1];
      ModeWithoutModeAnswer(ranked, answers[1..]);
    }
  }

  /** Whatever the answers, a chosen template is one of the ranked
      candidates. */
  lemma {:induction false} ManualChoiceIsCandidate(ranked: seq<Candidate>, answers: seq<string>)
    ensures Manual(ranked, answers).Chosen? ==>
      exists k :: 0 <= k < |ranked| && Manual(ranked, answers) == ChoiceOf(ranked[k])
  {
    if answers != [] && !ValidPick(ranked, answers[0]) {
      ManualChoiceIsCandidate(ranked, answers[1..]);
    }
  }

  lemma {:induction false} ModeChoiceIsCandidate(ranked: seq<Candidate>, answers: seq<string>)
    requires ranked != []
    ensures Mode(ranked, answers).Chosen? ==>
      exists k :: 0 <= k < |ranked| && Mode(ranked, answers) == ChoiceOf(ranked[k])
  {
    if answers != [] {
      if Strip(answers[0]) == "2" {
        ManualChoiceIsCandidate(ranked, answers[1..]);
      } else if Strip(answers[0]) != "1" {
        ModeChoiceIsCandidate(ranked, answers[1..]);
      } else {
        assert Mode(ranked, answers) == ChoiceOf(ranked[0]);
      }
    }
  }

  /** `selecionar_molde_interativo` over a run directory: the registry,
      the files of the template folder, and the answers typed at the
      prompts. */
  method SelectTemplate(registry: Registry, moldes: string,
                        files: map<string, Option<seq<string>>>, answers: seq<string>)
    returns (choice: Choice)
    ensures choice == SelectionOf(registry, moldes, files, answers)
  {
    if registry.NoRegistry? { return NoTemplate; }
    if registry.Unparsable? { return Raised; }
    var built := BuildCandidates(registry.entries, moldes, files);
    if built.None? { return Raised; }
    var available := built.value;
    if available == [] { return NoTemplate; }
    available := Rank(available);
    choice := Prompt(available, answers);
  }

  /** The outer `while True` loop: ask for the mode until "1" or "2". */
  method Prompt(available: seq<Candidate>, answers: seq<string>) returns (choice: Choice)
    requires available != []
    ensures choice == Mode(available, answers)
  {
    var i := 0;
    while i < |answers|
      invariant 0 <= i <= |answers|
      invariant Mode(available, answers) == Mode(available, answers[i..])
    {
      var mode := Strip(answers[i]);
      assert answers[i..][1..] == answers[i + 1..];
      i := i + 1;
      if mode == "1" {
        return Chosen(available[0].code, available[0].chain);
      } else if mode == "2" {
        choice := ManualPrompt(available, answers[i..]);
        return;
      }
    }
    return InputEnded;
  }

  /** The inner `while True` loop: ask for a number until one is in range. */
  method ManualPrompt(available: seq<Candidate>, answers: seq<string>) returns (choice: Choice)
    ensures choice == Manual(available, answers)
  {
    var i := 0;
    while i < |answers|
      invariant 0 <= i <= |answers|
      invariant Manual(available, answers) == Manual(available, answers[i..])
    {
      var sel := Strip(answers[i]);
      var n := PyInt(sel);
      if n.Some? {
        var idx := n.value - 1;
        if 0 <= idx < |available| {
          ManualTakesAt(available, answers, i, n);
          return Chosen(available[idx].code, available[idx].chain);
        }
      }
      ManualSkipsAt(available, answers, i, n);
      i := i + 1;
    }
    return InputEnded;
  }

  /** With every structure file present and "1" typed first, the choice is
      the candidate with the best key. */
  lemma AutomaticChoiceIsBest(registry: seq<(string, StoredHit)>, moldes: string,
                              files: map<string, Option<seq<string>>>, rest: seq<string>)
    requires ChainsPresent(registry, moldes, files)
    requires CandidatesOf(registry, moldes, files) != []
    ensures var cs := CandidatesOf(registry, moldes, files);
      exists b :: b in cs && SelectionOf(Loaded(registry), moldes, files, ["1"] + rest) == ChoiceOf(b)
                  && forall c :: c in cs ==> !RanksBefore(c, b)
  {
    var cs := CandidatesOf(registry, moldes, files);
    RankHeadIsBest(cs);
    RankSortsAndPermutes(cs);
    var r := Rank(cs);
    var answers := ["1"] + rest;
    StripNoSpace("1");
    assert Strip(answers[0]) == "1";
    assert Mode(r, answers) == ChoiceOf(r[0]);
    assert SelectionOf(Loaded(registry), moldes, files, answers) == Mode(r, answers);
    assert r[0] in multiset(cs);
  }

  // ---------------------------------------------------------------------
  // The best generated model (modeller_utils.py:439-442)
  // ---------------------------------------------------------------------

  /** One entry of the modelling engine's output list. */
  datatype ModelOutput = ModelOutput(name: string, failure: Option<string>, dope: Option<real>)

  const MissingDope: real := 999999.0

  function DopeOf(m: ModelOutput): real { OrDefault(m.dope, MissingDope) }

  predicate Succeeded(m: ModelOutput) { m.failure.None? }

  /** `min(sucessos, key=...)`: the first successful entry of minimal DOPE,
      or `None` when no entry succeeded. */
  function BestModel(outputs: seq<ModelOutput>): (r: Option<nat>)
    ensures r.Some? ==> r.value < |outputs| && Succeeded(outputs[r.value])
    ensures r.Some? ==> forall j :: 0 <= j < |outputs| && Succeeded(outputs[j]) ==> DopeOf(outputs[r.value]) <= DopeOf(outputs[j])
    ensures r.Some? ==> forall j :: 0 <= j < r.value && Succeeded(outputs[j]) ==> DopeOf(outputs[r.value]) < DopeOf(outputs[j])
    ensures r.None? <==> forall j :: 0 <= j < |outputs| ==> !Succeeded(outputs[j])
  {
    if outputs == [] then None
    else
      var pre := BestModel(outputs[..|outputs| - 1]);
      var last := |outputs| - 1;
      assert forall j :: 0 <= j < last ==> outputs[..last][j] == outputs[j];
      if !Succeeded(outputs[last]) then pre
      else if pre.None? then Some(last)
      else if DopeOf(outputs[last]) < DopeOf(outputs[pre.value]) then Some(last)
      else pre
  }
}
