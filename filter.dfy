/*
 * Filtering by domains and prediction method (pipeline_utils/filter_utils.py):
 * the user picks one prediction method and some of its outputs; the
 * proteins annotated with them are summarised, those carrying all of them
 * listed, and their sequences copied to a filtered FASTA.
 */
module FilterUtils {
  import opened Common

  /** One row of the InterProScan table, reduced to the columns the stage
      reads: protein id, prediction method and output description. */
  datatype TsvRow = TsvRow(id: string, predictor: string, output: string)

  // ---------------------------------------------------------------------
  // The method prompt (filter_utils.py:21-35)
  // ---------------------------------------------------------------------

  /** `sorted(df[coluna_metodo].unique())`. */
  function Methods(rows: seq<TsvRow>): (r: seq<string>)
    ensures forall m :: m in r <==> exists k :: 0 <= k < |rows| && rows[k].predictor == m
    ensures StrictlySorted(r)
  {
    SortedSet(set k | 0 <= k < |rows| :: rows[k].predictor)
  }

  /** An answer `int()` reads as a number in 1..n. */
  predicate ValidChoice(answer: string, n: nat)
  {
    PyInt(answer).Some? && 1 <= PyInt(answer).value <= n
  }

  /** The method an answer names. */
  function Chosen(methods: seq<string>, answer: string): (m: string)
    requires ValidChoice(answer, |methods|)
    ensures m in methods
  {
    methods[PyInt(answer).value - 1]
  }

  /** The method chosen by a stream of answers: the first valid one wins;
      `None` when the answers run out first (`input` raising EOFError). */
  function MethodChoice(methods: seq<string>, answers: seq<string>): (r: Option<string>)
    ensures r.Some? ==> r.value in methods
  {
    if answers == [] then None
    else if ValidChoice(answers[0], |methods|) then Some(Chosen(methods, answers[0]))
    else MethodChoice(methods, answers[1..])
  }

  /** `answers[j]` is the first valid answer. */
  predicate FirstValid(methods: seq<string>, answers: seq<string>, j: nat)
  {
    j < |answers| && ValidChoice(answers[j], |methods|) &&
    forall i :: 0 <= i < j ==> !ValidChoice(answers[i], |methods|)
  }

  /** Non-numeric and out-of-range answers re-prompt; the first valid answer
      decides, and without one there is no choice. */
  lemma {:induction false} MethodChoiceMeaning(methods: seq<string>, answers: seq<string>, j: nat)
    ensures FirstValid(methods, answers, j) ==>
      MethodChoice(methods, answers) == Some(Chosen(methods, answers[j]))
    ensures (forall i :: 0 <= i < |answers| ==> !ValidChoice(answers[i], |methods|)) ==>
      MethodChoice(methods, answers) == None
  {
    if answers != [] {
      if j > 0 && FirstValid(methods, answers, j) {
        assert !ValidChoice(answers[0], |methods|);
        assert FirstValid(methods, answers[1..], j - 1) by {
          forall i | 0 <= i < j - 1 ensures !ValidChoice(answers[1..][i], |methods|) {
            assert answers[1..][i] == answers[i + 1];
          }
        }
      }
      MethodChoiceMeaning(methods, answers[1..], if j > 0 then j - 1 else 0);
      if forall i :: 0 <= i < |answers| ==> !ValidChoice(answers[i], |methods|) {
        assert !ValidChoice(answers[0], |methods|);
        assert forall i :: 0 <= i < |answers[1..]| ==> answers[1..][i] == answers[i + 1];
      }
    }
  }

  /** The retry loop. */
  method ChooseMethod(methods: seq<string>, answers: seq<string>) returns (choice: Option<string>)
    ensures choice == MethodChoice(methods, answers)
  {
    var i := 0;
    while i < |answers|
      invariant 0 <= i <= |answers|
      invariant MethodChoice(methods, answers) == MethodChoice(methods, answers[i..])
    {
      assert answers[i..][1..] == answers[i + 1..];
      if ValidChoice(answers[i], |methods|) {
        return Some(Chosen(methods, answers[i]));
      }
      i := i + 1;
    }
    return None;
  }

  /** `df[df[coluna_metodo].str.lower() == metodo_escolhido.lower()]`. */
  function MethodRows(rows: seq<TsvRow>, predictor: string): (r: seq<TsvRow>)
    ensures forall x :: x in r <==> x in rows && Lower(x.predictor) == Lower(predictor)
  {
    if rows == [] then []
    else (if Lower(rows[0].predictor) == Lower(predictor) then [rows[0]] else []) + MethodRows(rows[1..], predictor)
  }

  /** `sorted(df_metodo[coluna_output].unique())`. */
  function Outputs(rows: seq<TsvRow>): (r: seq<string>)
    ensures forall d :: d in r <==> exists k :: 0 <= k < |rows| && rows[k].output == d
  {
    SortedSet(set k | 0 <= k < |rows| :: rows[k].output)
  }

  // ---------------------------------------------------------------------
  // The output selection (filter_utils.py:45-53)
  // ---------------------------------------------------------------------

  /** Every comma-separated token, stripped, is a digit string. */
  predicate AllDigitTokens(tokens: seq<string>)
  {
    forall k :: 0 <= k < |tokens| ==> IsDigitString(Strip(tokens[k]))
  }

  /** `outputs_input.split(',')` after the answer is stripped. */
  function Tokens(answer: string): seq<string> { Split(Strip(answer), ',') }

  /** `outputs_de_interesse`: applied only when every token is digits, then
      the in-range 1-based positions in the order given. */
  function Selection(outputs: seq<string>, answer: string): (r: seq<string>)
    ensures forall d :: d in r ==> d in outputs
  {
    var tokens := Tokens(answer);
    if AllDigitTokens(tokens) then PickByNumber(outputs, DigitTokens(tokens)) else []
  }

  /** An answer with an empty or non-digit token selects nothing. */
  lemma SelectionNeedsAllDigits(outputs: seq<string>, answer: string, k: nat)
    requires var tokens := Tokens(answer); k < |tokens| && !IsDigitString(Strip(tokens[k]))
    ensures Selection(outputs, answer) == []
  {
  }

  /** A digit string holds no whitespace and no comma. */
  lemma DigitsNoSpace(x: string)
    requires IsDigitString(x)
    ensures forall k :: 0 <= k < |x| ==> !IsSpace(x[k])
    ensures ',' !in x
  {
  }

  /** `x,,y` with digit strings `x` and `y` strips to itself and has an
      empty second token. */
  lemma DoubleCommaTokens(x: string, y: string)
    requires IsDigitString(x) && IsDigitString(y)
    ensures |Tokens(x + ",," + y)| >= 2 && Tokens(x + ",," + y)[1] == []
  {
    var tail := [','] + y;
    var answer := x + [','] + tail;
    assert answer == x + ",," + y;
    DigitsNoSpace(x);
    DigitsNoSpace(y);
    forall k | 0 <= k < |answer| ensures !IsSpace(answer[k]) {
      if k < |x| {
        assert answer[k] == x[k];
      } else if k > |x| + 1 {
        assert answer[k] == y[k - |x| - 2];
      } else {
        assert answer[k] == ',';
      }
    }
    StripNoSpace(answer);
    SplitCons(x, ',', tail);
    assert tail == [] + [','] + y;
    SplitCons([], ',', y);
  }

  /** An answer such as `1,,3`, with an empty token between two numbers,
      selects nothing. */
  lemma EmptyTokenSelectsNothing(outputs: seq<string>, x: string, y: string)
    requires IsDigitString(x) && IsDigitString(y)
    ensures Selection(outputs, x + ",," + y) == []
  {
    DoubleCommaTokens(x, y);
    assert Strip([]) == [];
    SelectionNeedsAllDigits(outputs, x + ",," + y, 1);
  }

  /** When every token is digits, token `k` names output `tokens[k]`,
      provided all are in range. */
  lemma {:induction false} DigitTokensAll(tokens: seq<string>)
    requires AllDigitTokens(tokens)
    ensures |DigitTokens(tokens)| == |tokens|
    ensures forall k :: 0 <= k < |tokens| ==> DigitTokens(tokens)[k] == DigitsValue(Strip(tokens[k]))
  {
    if tokens != [] {
      assert AllDigitTokens(tokens[1..]) by {
        forall k | 0 <= k < |tokens[1..]| ensures IsDigitString(Strip(tokens[1..][k])) {
          assert tokens[1..][k] == tokens[k + 1];
        }
      }
      DigitTokensAll(tokens[1..]);
    }
  }

  /** The number a digit token stands for. */
  function TokenValue(token: string): nat { DigitsValue(Strip(token)) }

  /** Choosing by digit tokens that are all in range picks output number
      `tokens[k]` for token `k`. */
  lemma PickByTokens(outputs: seq<string>, tokens: seq<string>)
    requires AllDigitTokens(tokens)
    requires forall k :: 0 <= k < |tokens| ==> 1 <= TokenValue(tokens[k]) <= |outputs|
    ensures |PickByNumber(outputs, DigitTokens(tokens))| == |tokens|
    ensures forall k :: 0 <= k < |tokens| ==> PickByNumber(outputs, DigitTokens(tokens))[k] == outputs[TokenValue(tokens[k]) - 1]
  {
    var numbers := DigitTokens(tokens);
    DigitTokensAll(tokens);
    PickByNumberInRange(outputs, numbers);
    var picked := PickByNumber(outputs, numbers);
    forall k | 0 <= k < |tokens| ensures picked[k] == outputs[TokenValue(tokens[k]) - 1] {
      assert picked[k] == outputs[numbers[k] - 1];
    }
  }

  /** With every token digits, the selection is the choice by their values. */
  lemma SelectionOfDigits(outputs: seq<string>, answer: string)
    requires AllDigitTokens(Tokens(answer))
    ensures Selection(outputs, answer) == PickByNumber(outputs, DigitTokens(Tokens(answer)))
  {
  }

  /** With all tokens digits and in range, the `k`-th selected output is
      output number `tokens[k]`. */
  lemma SelectionInRange(outputs: seq<string>, answer: string)
    requires AllDigitTokens(Tokens(answer))
    requires forall k :: 0 <= k < |Tokens(answer)| ==> 1 <= TokenValue(Tokens(answer)[k]) <= |outputs|
    ensures |Selection(outputs, answer)| == |Tokens(answer)|
    ensures forall k :: 0 <= k < |Tokens(answer)| ==> Selection(outputs, answer)[k] == outputs[TokenValue(Tokens(answer)[k]) - 1]
  {
    var tokens := Tokens(answer);
    SelectionOfDigits(outputs, answer);
    PickByTokens(outputs, tokens);
    var r := Selection(outputs, answer);
    assert r == PickByNumber(outputs, DigitTokens(tokens));
    assert |r| == |tokens|;
    forall k | 0 <= k < |tokens| ensures r[k] == outputs[TokenValue(tokens[k]) - 1] {
    }
  }

  // ---------------------------------------------------------------------
  // Rows of the selected outputs and the per-protein summary
  // (filter_utils.py:57-80)
  // ---------------------------------------------------------------------

  /** `str.contains('|'.join(outputs), case=False)`: the output mentions one
      of the selected outputs. */
  predicate MentionsAny(output: string, selected: seq<string>)
  {
    exists d :: d in selected && ContainsIgnoreCase(output, d)
  }

  /** `df_output`. */
  function SelectedRows(rows: seq<TsvRow>, selected: seq<string>): (r: seq<TsvRow>)
    ensures forall x :: x in r <==> x in rows && MentionsAny(x.output, selected)
  {
    if rows == [] then []
    else (if MentionsAny(rows[0].output, selected) then [rows[0]] else []) + SelectedRows(rows[1..], selected)
  }

  /** `sorted(ids_unicos)`. */
  function Proteins(rows: seq<TsvRow>): (r: seq<string>)
    ensures forall p :: p in r <==> exists k :: 0 <= k < |rows| && rows[k].id == p
    ensures StrictlySorted(r)
  {
    SortedSet(set k | 0 <= k < |rows| :: rows[k].id)
  }

  /** Some row of protein `p` mentions `d`. */
  predicate HasOutput(rows: seq<TsvRow>, p: string, d: string)
  {
    exists k :: 0 <= k < |rows| && rows[k].id == p && ContainsIgnoreCase(rows[k].output, d)
  }

  /** `outputs_encontrados`: the selected outputs, in selection order, that
      some row of the protein mentions. */
  function Found(rows: seq<TsvRow>, p: string, selected: seq<string>): (r: seq<string>)
    ensures forall d :: d in r <==> d in selected && HasOutput(rows, p, d)
    ensures |r| <= |selected|
  {
    if selected == [] then []
    else (if HasOutput(rows, p, selected[0]) then [selected[0]] else []) + Found(rows, p, selected[1..])
  }

  /** `', '.join(parts)`. */
  function JoinComma(parts: seq<string>): string
  {
    if |parts| == 0 then []
    else if |parts| == 1 then parts[0]
    else parts[0] + ", " + JoinComma(parts[1..])
  }

  /** One line of the summary: the protein and its found outputs. */
  datatype Summary = Summary(protein: string, found: string)

  /** Every selected output was found for the protein. */
  predicate HasAll(rows: seq<TsvRow>, p: string, selected: seq<string>)
  {
    forall d :: d in selected ==> d in Found(rows, p, selected)
  }

  /** The summary rows and the all-outputs list for the proteins `ps`,
      visited in order. */
  function SummaryOf(rows: seq<TsvRow>, ps: seq<string>, selected: seq<string>): (seq<Summary>, seq<string>)
  {
    if ps == [] then ([], [])
    else
      var pre := SummaryOf(rows, ps[..|ps| - 1], selected);
      var p := ps[|ps| - 1];
      var found := Found(rows, p, selected);
      if found == [] then pre
      else (pre.0 + [Summary(p, JoinComma(found))], pre.1 + (if HasAll(rows, p, selected) then [p] else []))
  }

  /** One more protein extends the summary by its row, when something was
      found for it, and the all-outputs list when everything was. */
  lemma SummaryOfSnoc(rows: seq<TsvRow>, ps: seq<string>, selected: seq<string>)
    requires ps != []
    ensures var pre := SummaryOf(rows, ps[..|ps| - 1], selected);
      var p := ps[|ps| - 1];
      var found := Found(rows, p, selected);
      SummaryOf(rows, ps, selected) ==
        if found == [] then pre
        else (pre.0 + [Summary(p, JoinComma(found))], pre.1 + (if HasAll(rows, p, selected) then [p] else []))
  {
  }

  /** A protein is on the all-outputs list exactly when it was visited,
      something was found for it and every selected output was. */
  lemma {:induction false} SummaryAllMeaning(rows: seq<TsvRow>, ps: seq<string>, selected: seq<string>)
    ensures forall p :: p in SummaryOf(rows, ps, selected).1 <==>
      p in ps && Found(rows, p, selected) != [] && HasAll(rows, p, selected)
  {
    if ps != [] {
      var pre := ps[..|ps| - 1];
      SummaryAllMeaning(rows, pre, selected);
      SummaryOfSnoc(rows, ps, selected);
      assert ps == pre + [ps[|ps| - 1]];
    }
  }

  /** Every summary row belongs to a visited protein and lists the outputs
      found for it. */
  lemma {:induction false} SummaryLinesMeaning(rows: seq<TsvRow>, ps: seq<string>, selected: seq<string>)
    ensures forall s :: s in SummaryOf(rows, ps, selected).0 ==>
      s.protein in ps && Found(rows, s.protein, selected) != [] && s.found == JoinComma(Found(rows, s.protein, selected))
  {
    if ps != [] {
      var pre := ps[..|ps| - 1];
      var p := ps[|ps| - 1];
      SummaryLinesMeaning(rows, pre, selected);
      SummaryOfSnoc(rows, ps, selected);
      assert ps == pre + [p];
      var before := SummaryOf(rows, pre, selected).0;
      forall s | s in SummaryOf(rows, ps, selected).0
        ensures s.protein in ps && Found(rows, s.protein, selected) != [] && s.found == JoinComma(Found(rows, s.protein, selected))
      {
        if s !in before {
          assert s == Summary(p, JoinComma(Found(rows, p, selected)));
        }
      }
    }
  }

  /** When something is found for every protein, the summary has one row
      per protein, in visiting order. */
  lemma {:induction false} SummaryCoversAll(rows: seq<TsvRow>, ps: seq<string>, selected: seq<string>)
    requires forall p :: p in ps ==> Found(rows, p, selected) != []
    ensures |SummaryOf(rows, ps, selected).0| == |ps|
    ensures forall k :: 0 <= k < |ps| ==> SummaryOf(rows, ps, selected).0[k].protein == ps[k]
  {
    if ps != [] {
      var pre := ps[..|ps| - 1];
      var p := ps[|ps| - 1];
      assert ps == pre + [p];
      assert forall q :: q in pre ==> q in ps;
      SummaryCoversAll(rows, pre, selected);
      SummaryOfSnoc(rows, ps, selected);
      assert p in ps;
      var lines := SummaryOf(rows, ps, selected).0;
      var before := SummaryOf(rows, pre, selected).0;
      assert lines == before + [Summary(p, JoinComma(Found(rows, p, selected)))];
      forall k | 0 <= k < |ps| ensures lines[k].protein == ps[k] {
        if k < |pre| {
          assert lines[k] == before[k];
        }
      }
    }
  }

  /** A protein is on the all-outputs list exactly when every selected
      output was found for it; the summary has one row per protein with
      something found, in visiting order. */
  lemma SummaryMeaning(rows: seq<TsvRow>, ps: seq<string>, selected: seq<string>)
    ensures forall p :: p in SummaryOf(rows, ps, selected).1 <==>
      p in ps && Found(rows, p, selected) != [] && HasAll(rows, p, selected)
    ensures forall s :: s in SummaryOf(rows, ps, selected).0 ==>
      s.protein in ps && Found(rows, s.protein, selected) != [] && s.found == JoinComma(Found(rows, s.protein, selected))
    ensures (forall p :: p in ps ==> Found(rows, p, selected) != []) ==>
      |SummaryOf(rows, ps, selected).0| == |ps| &&
      forall k :: 0 <= k < |ps| ==> SummaryOf(rows, ps, selected).0[k].protein == ps[k]
  {
    SummaryAllMeaning(rows, ps, selected);
    SummaryLinesMeaning(rows, ps, selected);
    if forall p :: p in ps ==> Found(rows, p, selected) != [] {
      SummaryCoversAll(rows, ps, selected);
    }
  }

  /** With a non-empty selection, "has every output" needs at least one
      found output. */
  lemma HasAllFindsSomething(rows: seq<TsvRow>, p: string, selected: seq<string>)
    requires selected != [] && HasAll(rows, p, selected)
    ensures Found(rows, p, selected) != []
  {
    assert selected[0] in selected;
  }

  /** Every protein of the selected rows has a row mentioning a selected
      output, so each is summarised. */
  lemma EveryProteinFindsSomething(rows: seq<TsvRow>, selected: seq<string>, p: string)
    requires p in Proteins(SelectedRows(rows, selected))
    ensures Found(SelectedRows(rows, selected), p, selected) != []
  {
    var sel := SelectedRows(rows, selected);
    var k :| 0 <= k < |sel| && sel[k].id == p;
    assert sel[k] in sel;
    var d :| d in selected && ContainsIgnoreCase(sel[k].output, d);
    assert HasOutput(sel, p, d);
    assert d in Found(sel, p, selected);
  }

  /** The protein loop (filter_utils.py:68-80). */
  method Summarise(rows: seq<TsvRow>, ps: seq<string>, selected: seq<string>)
    returns (summary: seq<Summary>, all: seq<string>)
    ensures (summary, all) == SummaryOf(rows, ps, selected)
  {
    summary := [];
    all := [];
    var i := 0;
    while i < |ps|
      invariant 0 <= i <= |ps|
      invariant summary == SummaryOf(rows, ps[..i], selected).0
      invariant all == SummaryOf(rows, ps[..i], selected).1
    {
      assert ps[..i + 1][..i] == ps[..i];
      var p := ps[i];
      var found := Found(rows, p, selected);
      if found != [] {
        summary := summary + [Summary(p, JoinComma(found))];
        if HasAll(rows, p, selected) {
          all := all + [p];
        }
      }
      i := i + 1;
    }
    assert ps[..i] == ps;
  }

  // ---------------------------------------------------------------------
  // Files written and the filtered FASTA (filter_utils.py:82-108)
  // ---------------------------------------------------------------------

  /** `'\n'`-terminated lines. */
  function IdLines(ids: seq<string>): string
  {
    if ids == [] then [] else ids[0] + "\n" + IdLines(ids[1..])
  }

  /** The records of the input FASTA whose id is among the filtered
      proteins; the order in which the set is written is not modelled. */
  function FilteredFasta(rows: seq<TsvRow>, records: map<string, Entry>): (r: map<string, Entry>)
    ensures forall id :: id in r <==> id in records && exists k :: 0 <= k < |rows| && rows[k].id == id
    ensures forall id :: id in r ==> r[id] == records[id]
  {
    map id | id in records && id in (set k | 0 <= k < |rows| :: rows[k].id) :: records[id]
  }

  /** What the stage writes. */
  datatype Output =
    | SummaryTable(lines: seq<Summary>)
    | IdList(text: string)
    | FastaOut(records: map<string, Entry>)

  /** What the two prompts settle: the method, the outputs of interest and
      the rows of that method mentioning them. */
  datatype Filtered = Filtered(rows: seq<TsvRow>, selected: seq<string>, predictor: string)

  /** The prompts and the row filters (filter_utils.py:21-62): `None` when
      the answers run out, nothing is selected or no row is left. */
  function Prompted(rows: seq<TsvRow>, methodAnswers: seq<string>, selectionAnswer: Option<string>): (r: Option<Filtered>)
    ensures r.Some? ==> r.value.selected != [] && r.value.rows != []
  {
    var choice := MethodChoice(Methods(rows), methodAnswers);
    if choice.None? || selectionAnswer.None? then None
    else
      var byMethod := MethodRows(rows, choice.value);
      var selected := Selection(Outputs(byMethod), selectionAnswer.value);
      if selected == [] then None
      else
        var sel := SelectedRows(byMethod, selected);
        if sel == [] then None else Some(Filtered(sel, selected, choice.value))
  }

  function SummaryPath(outDir: string, predictor: string): string { PathJoin(outDir, "sumario_" + predictor + ".tsv") }

  function AllListPath(outDir: string, predictor: string): string
  {
    PathJoin(outDir, "proteinas_" + predictor + "_todos_outputs.txt")
  }

  function FilteredPath(outDir: string, predictor: string): string
  {
    PathJoin(outDir, "proteinas_filtradas_" + predictor + ".fasta")
  }

  /** The summary table, and the all-outputs list when it is not empty. */
  function ReportFiles(f: Filtered, outDir: string): map<string, Output>
  {
    var s := SummaryOf(f.rows, Proteins(f.rows), f.selected);
    var files := map[SummaryPath(outDir, f.predictor) := SummaryTable(s.0)];
    if s.1 != [] then files[AllListPath(outDir, f.predictor) := IdList(IdLines(s.1))] else files
  }

  /** `filtrar_por_dominios_e_metodo`. `table` is the parsed table,
      `methodAnswers` the answers to the method prompt, `selectionAnswer`
      the answer to the selection prompt and `records` the input FASTA
      (`None` for a missing file or an exhausted input). A missing FASTA
      gives no result, but the reports are already written by then. */
  function FilterEffect(table: Option<seq<TsvRow>>, methodAnswers: seq<string>, selectionAnswer: Option<string>,
                        records: Option<map<string, Entry>>, outDir: string): (Option<Filtered>, map<string, Output>)
  {
    if table.None? then (None, map[])
    else
      var prompted := Prompted(table.value, methodAnswers, selectionAnswer);
      if prompted.None? then (None, map[])
      else
        var f := prompted.value;
        var files := ReportFiles(f, outDir);
        if records.None? then (None, files)
        else (Some(f), files[FilteredPath(outDir, f.predictor) := FastaOut(FilteredFasta(f.rows, records.value))])
  }

  /** A result names a method of the table, a non-empty selection of
      outputs of that method, and exactly the rows of that method that
      mention a selected output. */
  lemma PromptedMeaning(rows: seq<TsvRow>, methodAnswers: seq<string>, selectionAnswer: Option<string>)
    requires Prompted(rows, methodAnswers, selectionAnswer).Some?
    ensures var f := Prompted(rows, methodAnswers, selectionAnswer).value;
      && f.predictor in Methods(rows)
      && (forall d :: d in f.selected ==>
            exists k :: 0 <= k < |rows| && rows[k].output == d && Lower(rows[k].predictor) == Lower(f.predictor))
      && (forall x :: x in f.rows <==> x in rows && Lower(x.predictor) == Lower(f.predictor) && MentionsAny(x.output, f.selected))
  {
    var f := Prompted(rows, methodAnswers, selectionAnswer).value;
    var byMethod := MethodRows(rows, f.predictor);
    forall d | d in f.selected
      ensures exists k :: 0 <= k < |rows| && rows[k].output == d && Lower(rows[k].predictor) == Lower(f.predictor)
    {
      var j :| 0 <= j < |byMethod| && byMethod[j].output == d;
      assert byMethod[j] in byMethod;
      var k :| 0 <= k < |rows| && rows[k] == byMethod[j];
    }
  }

  /** The summary of a result lists every protein of its rows, in sorted
      order, with the outputs found for it. */
  lemma SummaryListsEveryProtein(rows: seq<TsvRow>, methodAnswers: seq<string>, selectionAnswer: Option<string>)
    requires Prompted(rows, methodAnswers, selectionAnswer).Some?
    ensures var f := Prompted(rows, methodAnswers, selectionAnswer).value;
      var lines := SummaryOf(f.rows, Proteins(f.rows), f.selected).0;
      && |lines| == |Proteins(f.rows)|
      && forall k :: 0 <= k < |lines| ==>
           lines[k].protein == Proteins(f.rows)[k] && lines[k].found == JoinComma(Found(f.rows, lines[k].protein, f.selected))
  {
    var f := Prompted(rows, methodAnswers, selectionAnswer).value;
    var byMethod := MethodRows(rows, f.predictor);
    assert f.rows == SelectedRows(byMethod, f.selected);
    forall p | p in Proteins(f.rows) ensures Found(f.rows, p, f.selected) != [] {
      EveryProteinFindsSomething(byMethod, f.selected, p);
    }
    SummaryMeaning(f.rows, Proteins(f.rows), f.selected);
    var lines := SummaryOf(f.rows, Proteins(f.rows), f.selected).0;
    forall k | 0 <= k < |lines| ensures lines[k].found == JoinComma(Found(f.rows, lines[k].protein, f.selected)) {
      assert lines[k] in lines;
    }
  }

  /** Different names that do not start with `/` give different paths. */
  lemma NamesDiffer(dir: string, a: string, b: string)
    requires a != b && |a| > 0 && |b| > 0 && a[0] != '/' && b[0] != '/'
    ensures PathJoin(dir, a) != PathJoin(dir, b)
  {
    if dir == [] || EndsWith(dir, "/") {
      assert (dir + a)[|dir|..] == a && (dir + b)[|dir|..] == b;
    } else {
      assert (dir + "/" + a)[|dir| + 1..] == a && (dir + "/" + b)[|dir| + 1..] == b;
    }
  }

  /** The three output names never coincide. */
  lemma PathsDiffer(outDir: string, predictor: string)
    ensures SummaryPath(outDir, predictor) != AllListPath(outDir, predictor)
    ensures SummaryPath(outDir, predictor) != FilteredPath(outDir, predictor)
    ensures AllListPath(outDir, predictor) != FilteredPath(outDir, predictor)
  {
    var a := "sumario_" + predictor + ".tsv";
    var b := "proteinas_" + predictor + "_todos_outputs.txt";
    var c := "proteinas_filtradas_" + predictor + ".fasta";
    assert a[0] == 's' && b[0] == 'p' && c[0] == 'p';
    assert |b| != |c|;
    NamesDiffer(outDir, a, b);
    NamesDiffer(outDir, a, c);
    NamesDiffer(outDir, b, c);
  }

  /** The reports: the summary, and the all-outputs list exactly when
      some protein has every selected output. */
  lemma ReportFilesMeaning(f: Filtered, outDir: string)
    ensures var files := ReportFiles(f, outDir);
      var all := SummaryOf(f.rows, Proteins(f.rows), f.selected).1;
      && SummaryPath(outDir, f.predictor) in files
      && files[SummaryPath(outDir, f.predictor)] == SummaryTable(SummaryOf(f.rows, Proteins(f.rows), f.selected).0)
      && (AllListPath(outDir, f.predictor) in files <==> all != [])
      && (all != [] ==> files[AllListPath(outDir, f.predictor)] == IdList(IdLines(all)))
      && FilteredPath(outDir, f.predictor) !in files
  {
    PathsDiffer(outDir, f.predictor);
  }

  /** The all-outputs list holds exactly the proteins, in sorted order,
      for which every selected output was found. */
  lemma AllListMeaning(f: Filtered)
    requires f.selected != []
    ensures var all := SummaryOf(f.rows, Proteins(f.rows), f.selected).1;
      forall p :: p in all <==> p in Proteins(f.rows) && HasAll(f.rows, p, f.selected)
  {
    SummaryMeaning(f.rows, Proteins(f.rows), f.selected);
    forall p | p in Proteins(f.rows) && HasAll(f.rows, p, f.selected) ensures Found(f.rows, p, f.selected) != [] {
      HasAllFindsSomething(f.rows, p, f.selected);
    }
  }

  /** With a result, the files are the reports plus the filtered FASTA. */
  lemma FilterFiles(table: Option<seq<TsvRow>>, methodAnswers: seq<string>, selectionAnswer: Option<string>,
                    records: Option<map<string, Entry>>, outDir: string)
    requires FilterEffect(table, methodAnswers, selectionAnswer, records, outDir).0.Some?
    ensures var f := FilterEffect(table, methodAnswers, selectionAnswer, records, outDir).0.value;
      && table.Some? && records.Some?
      && Prompted(table.value, methodAnswers, selectionAnswer) == Some(f)
      && FilterEffect(table, methodAnswers, selectionAnswer, records, outDir).1 ==
           ReportFiles(f, outDir)[FilteredPath(outDir, f.predictor) := FastaOut(FilteredFasta(f.rows, records.value))]
  {
  }

  /** The filtered FASTA holds exactly the input records whose id is a
      protein of the filtered rows. */
  lemma FilteredFastaMeaning(rows: seq<TsvRow>, records: map<string, Entry>)
    ensures forall id :: id in FilteredFasta(rows, records) <==> id in records && id in Proteins(rows)
  {
  }

  /** The summary loop and the two report files. */
  method WriteReports(f: Filtered, outDir: string) returns (files: map<string, Output>)
    ensures files == ReportFiles(f, outDir)
  {
    var summary, all := Summarise(f.rows, Proteins(f.rows), f.selected);
    files := map[SummaryPath(outDir, f.predictor) := SummaryTable(summary)];
    if all != [] {
      files := files[AllListPath(outDir, f.predictor) := IdList(IdLines(all))];
    }
  }

  /** The two prompts and the row filters as a method. */
  method Prompt(rows: seq<TsvRow>, methodAnswers: seq<string>, selectionAnswer: Option<string>)
    returns (r: Option<Filtered>)
    ensures r == Prompted(rows, methodAnswers, selectionAnswer)
  {
    var choice := ChooseMethod(Methods(rows), methodAnswers);
    if choice.None? || selectionAnswer.None? {
      return None;
    }
    var predictor := choice.value;
    var byMethod := MethodRows(rows, predictor);
    var selected := Selection(Outputs(byMethod), selectionAnswer.value);
    if selected == [] {
      return None;
    }
    var sel := SelectedRows(byMethod, selected);
    if sel == [] {
      return None;
    }
    return Some(Filtered(sel, selected, predictor));
  }

  /** The stage as a method: the two prompts, then the summary loop. */
  method FilterByDomainsAndMethod(table: Option<seq<TsvRow>>, methodAnswers: seq<string>, selectionAnswer: Option<string>,
                                  records: Option<map<string, Entry>>, outDir: string)
    returns (result: Option<Filtered>, files: map<string, Output>)
    ensures (result, files) == FilterEffect(table, methodAnswers, selectionAnswer, records, outDir)
  {
    result := None;
    files := map[];
    if table.None? {
      return;
    }
    var prompted := Prompt(table.value, methodAnswers, selectionAnswer);
    if prompted.None? {
      return;
    }
    var f := prompted.value;
    files := WriteReports(f, outDir);
    if records.None? {
      return;
    }
    files := files[FilteredPath(outDir, f.predictor) := FastaOut(FilteredFasta(f.rows, records.value))];
    result := Some(f);
  }
}
