/** The renderer: `generateTruthTable` (main.ts:155-173). The variables are
    the distinct lower-case letters of the expression in alphabetical order;
    the output is a leading newline, a header row, a separator row and one
    row per assignment, in the order of `Combinations.Table`. */
module TruthTable {
  import opened Wrappers
  import opened Text
  import opened Combinations
  import opened Substitution

  /** The lower-case letters from code `n` to `z` that occur in `s`, in
      alphabetical order. */
  function LettersFrom(s: string, n: int): (vars: seq<char>)
    requires 'a' as int <= n <= 'z' as int + 1
    ensures forall k :: 0 <= k < |vars| ==> n <= vars[k] as int <= 'z' as int && vars[k] in s
    ensures forall i, j :: 0 <= i < j < |vars| ==> vars[i] < vars[j]
    ensures forall c :: n <= c as int <= 'z' as int && c in s ==> c in vars
    decreases 'z' as int + 1 - n
  {
    if n > 'z' as int then []
    else
      var c := n as char;
      (if c in s then [c] else []) + LettersFrom(s, n + 1)
  }

  /** `Array.from(new Set(expression.match(/[a-z]/g) || [])).sort()`: every
      lower-case letter of the expression once, and nothing else, in
      ascending order. */
  function Variables(s: string): (vars: seq<char>)
    ensures LetterVariables(vars)
    ensures forall i, j :: 0 <= i < j < |vars| ==> vars[i] < vars[j]
    ensures forall c :: c in vars <==> 'a' <= c <= 'z' && c in s
  {
    LettersFrom(s, 'a' as int)
  }

  /** `v ? "1" : "0"`. */
  function Digit(b: bool): string
  {
    if b then "1" else "0"
  }

  function Cells(row: seq<bool>): seq<string>
  {
    seq(|row|, i requires 0 <= i < |row| => Digit(row[i]))
  }

  /** The variable names as one-letter strings. */
  function Names(vars: seq<char>): seq<string>
  {
    seq(|vars|, i requires 0 <= i < |vars| => [vars[i]])
  }

  /** The header row, without its newline. */
  function HeaderLine(vars: seq<char>): string
  {
    "|$" + Join(Names(vars), "$|$") + "$|$\\text{Result}$|"
  }

  /** The `-|` the `forEach` appends once per variable. */
  function Dashes(n: nat): string
  {
    if n == 0 then "" else Dashes(n - 1) + "-|"
  }

  /** The separator row: one `-|` per variable and one for the result. */
  function SeparatorLine(n: nat): string
  {
    "|" + Dashes(n) + "-|"
  }

  /** What one loop turn appends before its `" |\n| "`. */
  function RowText(row: seq<bool>, result: bool): string
  {
    Join(Cells(row), " | ") + " | " + Digit(result)
  }

  /** One data row, without its newline. */
  function DataLine(row: seq<bool>, result: bool): string
  {
    "| " + RowText(row, result) + " |"
  }

  function DataLines(rows: seq<seq<bool>>, results: seq<bool>): seq<string>
    requires |rows| == |results|
  {
    seq(|rows|, i requires 0 <= i < |rows| => DataLine(rows[i], results[i]))
  }

  /** The whole table for known results. */
  function Render(vars: seq<char>, rows: seq<seq<bool>>, results: seq<bool>): string
    requires |rows| == |results|
  {
    "\n" + HeaderLine(vars) + "\n" + SeparatorLine(|vars|) + "\n" + Join(DataLines(rows, results), "\n")
  }

  /** The rows of `vars.length` values each. */
  predicate Assignments(rows: seq<seq<bool>>, vars: seq<char>)
  {
    forall i :: 0 <= i < |rows| ==> |rows[i]| == |vars|
  }

  /** `evaluateExpression` on every row, in order: `None` as soon as one
      evaluation throws, otherwise the result of each row. */
  function EvaluateRows(expression: string, vars: seq<char>, rows: seq<seq<bool>>,
                        eval: string -> Option<bool>): (r: Option<seq<bool>>)
    requires LetterVariables(vars) && Assignments(rows, vars)
    ensures r.Some? ==> |r.value| == |rows|
  {
    if rows == [] then Some([])
    else
      match EvaluateRows(expression, vars, rows[..|rows| - 1], eval)
      case None => None
      case Some(results) =>
        match EvaluateExpression(expression, vars, rows[|rows| - 1], eval)
        case None => None
        case Some(b) => Some(results + [b])
  }

  /** The rows fail together exactly when one row fails, and otherwise the
      results are the rows' values, in order. */
  lemma {:induction false} EvaluateRowsMeaning(expression: string, vars: seq<char>, rows: seq<seq<bool>>,
                                              eval: string -> Option<bool>)
    requires LetterVariables(vars) && Assignments(rows, vars)
    ensures var r := EvaluateRows(expression, vars, rows, eval);
      && (r.Some? ==> forall i :: 0 <= i < |rows| ==> EvaluateExpression(expression, vars, rows[i], eval) == Some(r.value[i]))
      && (r.None? <==> exists i :: 0 <= i < |rows| && EvaluateExpression(expression, vars, rows[i], eval).None?)
  {
    if rows != [] {
      var n := |rows| - 1;
      var init := rows[..n];
      EvaluateRowsMeaning(expression, vars, init, eval);
      assert forall i :: 0 <= i < n ==> rows[i] == init[i];
      if EvaluateRows(expression, vars, init, eval).None? {
        var i :| 0 <= i < n && EvaluateExpression(expression, vars, init[i], eval).None?;
        assert EvaluateExpression(expression, vars, rows[i], eval).None?;
      }
    }
  }

  /** `generateTruthTable` as a value: `None` when evaluating some row
      throws, which `generateResult` catches. */
  function TruthTable(expression: string, eval: string -> Option<bool>): Option<string>
  {
    var vars := Variables(expression);
    var rows := Table(|vars|);
    match EvaluateRows(expression, vars, rows, eval)
    case None => None
    case Some(results) => Some(Render(vars, rows, results))
  }

  /** The text of every row, in order. */
  function RowTexts(rows: seq<seq<bool>>, results: seq<bool>): seq<string>
    requires |rows| == |results|
  {
    seq(|rows|, k requires 0 <= k < |rows| => RowText(rows[k], results[k]))
  }

  /** Everything the method writes before the first data row. */
  function Head(vars: seq<char>): string
  {
    "\n" + HeaderLine(vars) + "\n|" + Dashes(|vars|) + "-|\n| "
  }

  /** `generateTruthTable`: appends the header, one `-|` per variable in the
      `forEach`, and the rows of the `for` loop (`AppendRows`), then drops
      the trailing `"\n| "`. An evaluation that throws ends it. */
  method GenerateTruthTable(expression: string, eval: string -> Option<bool>) returns (r: Option<string>)
    ensures r == TruthTable(expression, eval)
  {
    var truthTable := "\n";
    var variables := Variables(expression);
    truthTable := truthTable + ("|$" + Join(Names(variables), "$|$") + "$|$\\text{Result}$|\n|");
    HeaderAppended(variables);
    var v := 0;
    while v < |variables|
      invariant 0 <= v <= |variables|
      invariant truthTable == "\n" + HeaderLine(variables) + "\n|" + Dashes(v)
    {
      truthTable := truthTable + "-|";
      v := v + 1;
    }
    truthTable := truthTable + "-|\n| ";
    var combinations := GenerateCombinations(|variables|);
    assert truthTable == Head(variables);
    var written := AppendRows(truthTable, expression, variables, combinations, eval);
    ghost var evaluated := EvaluateRows(expression, variables, combinations, eval);
    if written.None? {
      assert evaluated.None?;
      return None;
    }
    assert written.value == Head(variables) + Terminated(RowTexts(combinations, evaluated.value), " |\n| ");
    RenderAssembled(variables, combinations, evaluated.value);
    truthTable := written.value;
    truthTable := truthTable[..|truthTable| - 3];
    assert TruthTable(expression, eval) == Some(Render(variables, combinations, evaluated.value));
    return Some(truthTable);
  }

  /** The `for` loop of `generateTruthTable`: for each combination, evaluate
      the expression and append its row to `truthTable`; the first
      evaluation that throws ends the loop and the whole table. */
  method AppendRows(truthTable0: string, expression: string, variables: seq<char>,
                    combinations: seq<seq<bool>>, eval: string -> Option<bool>) returns (r: Option<string>)
    requires LetterVariables(variables) && Assignments(combinations, variables)
    ensures r == match EvaluateRows(expression, variables, combinations, eval)
                 case None => None
                 case Some(results) => Some(truthTable0 + Terminated(RowTexts(combinations, results), " |\n| "))
  {
    var truthTable := truthTable0;
    ghost var results: seq<bool> := [];
    var i := 0;
    while i < |combinations|
      invariant 0 <= i <= |combinations| && |results| == i
      invariant EvaluateRows(expression, variables, combinations[..i], eval) == Some(results)
      invariant truthTable == truthTable0 + Terminated(RowTexts(combinations[..i], results), " |\n| ")
    {
      var combination := combinations[i];
      var result := EvaluateExpression(expression, variables, combination, eval);
      if result.None? {
        EvaluateRowsMeaning(expression, variables, combinations, eval);
        return None;
      }
      TakeSnoc(combinations, i);
      assert combinations[..i + 1][..i] == combinations[..i];
      RowStep(truthTable0, truthTable, combinations[..i], results, combination, result.value);
      truthTable := truthTable + (Join(Cells(combination), " | ") + " | " + Digit(result.value) + " |\n| ");
      results := results + [result.value];
      i := i + 1;
    }
    assert combinations[..i] == combinations;
    return Some(truthTable);
  }

  /** Every row evaluating makes `EvaluateRows` the list of their values. */
  lemma {:induction false} EvaluateRowsAll(expression: string, vars: seq<char>, rows: seq<seq<bool>>,
                                          results: seq<bool>, eval: string -> Option<bool>)
    requires LetterVariables(vars) && Assignments(rows, vars) && |results| == |rows|
    requires forall k :: 0 <= k < |rows| ==> EvaluateExpression(expression, vars, rows[k], eval) == Some(results[k])
    ensures EvaluateRows(expression, vars, rows, eval) == Some(results)
  {
    if rows != [] {
      var n := |rows| - 1;
      EvaluateRowsAll(expression, vars, rows[..n], results[..n], eval);
      assert results == results[..n] + [results[n]];
    }
  }

  /** The header line and the start of the separator line, as one append. */
  lemma HeaderAppended(vars: seq<char>)
    ensures "\n" + ("|$" + Join(Names(vars), "$|$") + "$|$\\text{Result}$|\n|")
         == "\n" + HeaderLine(vars) + "\n|" + Dashes(0)
  {
    assert "$|$\\text{Result}$|\n|" == "$|$\\text{Result}$|" + "\n|";
  }

  lemma TakeSnoc<T>(s: seq<T>, i: nat)
    requires i < |s|
    ensures s[..i + 1] == s[..i] + [s[i]]
  {
  }

  /** One turn of the row loop appends one terminated row text. */
  lemma RowStep(head: string, before: string, rows: seq<seq<bool>>, results: seq<bool>, row: seq<bool>, b: bool)
    requires |rows| == |results|
    requires before == head + Terminated(RowTexts(rows, results), " |\n| ")
    ensures before + (Join(Cells(row), " | ") + " | " + Digit(b) + " |\n| ")
         == head + Terminated(RowTexts(rows + [row], results + [b]), " |\n| ")
  {
    assert RowTexts(rows + [row], results + [b]) == RowTexts(rows, results) + [RowText(row, b)];
    TerminatedSnoc(head, RowTexts(rows, results), RowText(row, b), " |\n| ");
  }

  /** The loop's string, with its trailing `"\n| "` cut, is the rendered
      table. */
  lemma RenderAssembled(vars: seq<char>, rows: seq<seq<bool>>, results: seq<bool>)
    requires |rows| == |results| >= 1
    ensures var t := Head(vars) + Terminated(RowTexts(rows, results), " |\n| ");
      t[..|t| - 3] == Render(vars, rows, results)
  {
    var texts := RowTexts(rows, results);
    TerminatedJoin(texts, " |\n| ");
    JoinWrapped(texts, "| ", " |", '\n');
    assert " |" + ['\n'] + "| " == " |\n| " && ['\n'] == "\n";
    assert DataLines(rows, results) == seq(|texts|, i requires 0 <= i < |texts| => "| " + texts[i] + " |");
    Assemble(HeaderLine(vars), Dashes(|vars|), Join(texts, " |\n| "));
  }

  /** The string arithmetic behind `RenderAssembled`. */
  lemma Assemble(h: string, d: string, j: string)
    ensures var t := "\n" + h + "\n|" + d + "-|\n| " + (j + " |\n| ");
      t[..|t| - 3] == "\n" + h + "\n" + ("|" + d + "-|") + "\n" + ("| " + j + " |")
  {
    var x := "\n" + h + "\n|" + d + "-|\n| " + j;
    var t := "\n" + h + "\n|" + d + "-|\n| " + (j + " |\n| ");
    assert t == (x + " |") + "\n| ";
    assert t[..|t| - 3] == x + " |";
    assert "\n|" == "\n" + "|";
    assert "-|\n| " == "-|" + "\n" + "| ";
  }

  /** A row of cells between bars: `pre` and `post` around each inner cell,
      then a last cell, read back by splitting at the bars. */
  lemma BarCells(inner: seq<string>, pre: string, post: string, last: string)
    requires |inner| >= 1
    requires '|' !in pre && '|' !in post && '|' !in last
    requires forall i :: 0 <= i < |inner| ==> '|' !in inner[i]
    ensures Split("|" + (pre + Join(inner, post + "|" + pre) + post) + "|" + last + "|", '|')
         == [""] + seq(|inner|, i requires 0 <= i < |inner| => pre + inner[i] + post) + [last, ""]
  {
    var w := seq(|inner|, i requires 0 <= i < |inner| => pre + inner[i] + post);
    var x, j := Join(inner, post + "|" + pre), Join(w, "|");
    JoinWrapped(inner, pre, post, '|');
    assert pre + x + post == j;
    JoinSnoc(w, last, "|");
    JoinFramed(w + [last], "|");
    var parts := [""] + (w + [last]) + [""];
    assert Join(parts, "|") == "|" + (j + "|" + last) + "|";
    assert "|" + (pre + x + post) + "|" + last + "|" == Join(parts, "|");
    assert parts == [""] + w + [last, ""];
    forall i | 0 <= i < |parts| ensures '|' !in parts[i] {
      if 1 <= i <= |w| {
        assert parts[i] == pre + inner[i - 1] + post;
      }
    }
    SplitJoin(parts, '|');
  }

  lemma DataLineShape(row: seq<bool>, result: bool)
    ensures DataLine(row, result)
         == "|" + (" " + Join(Cells(row), " " + "|" + " ") + " ") + "|" + (" " + Digit(result) + " ") + "|"
  {
    var j, d := Join(Cells(row), " | "), Digit(result);
    assert " " + "|" + " " == " | ";
    assert DataLine(row, result) == "| " + (j + " | " + d) + " |";
    assert "| " + (j + " | " + d) + " |" == "|" + (" " + j + " ") + "|" + (" " + d + " ") + "|";
  }

  /** A data row reads back as `|row| + 1` cells, the values and then the
      result, each a digit between two spaces. */
  lemma DataLineCells(row: seq<bool>, result: bool)
    requires |row| >= 1
    ensures Split(DataLine(row, result), '|')
         == [""] + seq(|row|, i requires 0 <= i < |row| => " " + Digit(row[i]) + " ") + [" " + Digit(result) + " ", ""]
  {
    var cells := Cells(row);
    forall i | 0 <= i < |cells| ensures '|' !in cells[i] {
    }
    BarCells(cells, " ", " ", " " + Digit(result) + " ");
    DataLineShape(row, result);
    assert seq(|cells|, i requires 0 <= i < |cells| => " " + cells[i] + " ")
        == seq(|row|, i requires 0 <= i < |row| => " " + Digit(row[i]) + " ");
  }

  lemma HeaderLineShape(vars: seq<char>)
    ensures HeaderLine(vars)
         == "|" + ("$" + Join(Names(vars), "$" + "|" + "$") + "$") + "|" + "$\\text{Result}$" + "|"
  {
    var j := Join(Names(vars), "$|$");
    assert "$" + "|" + "$" == "$|$";
    assert "$|$\\text{Result}$|" == "$" + "|" + "$\\text{Result}$" + "|";
  }

  /** The header reads back as one `$name$` cell per variable and the
      `$\text{Result}$` cell. */
  lemma HeaderCells(vars: seq<char>)
    requires |vars| >= 1 && LetterVariables(vars)
    ensures Split(HeaderLine(vars), '|')
         == [""] + seq(|vars|, i requires 0 <= i < |vars| => "$" + [vars[i]] + "$") + ["$\\text{Result}$", ""]
  {
    var names := Names(vars);
    forall i | 0 <= i < |names| ensures '|' !in names[i] {
    }
    BarCells(names, "$", "$", "$\\text{Result}$");
    HeaderLineShape(vars);
    assert seq(|names|, i requires 0 <= i < |names| => "$" + names[i] + "$")
        == seq(|vars|, i requires 0 <= i < |vars| => "$" + [vars[i]] + "$");
  }

  /** Without variables the header still has an empty `$$` cell before the
      result cell. */
  lemma NoVariableHeader()
    ensures Split(HeaderLine([]), '|') == ["", "$$", "$\\text{Result}$", ""]
  {
    var h := ["", "$$", "$\\text{Result}$", ""];
    assert HeaderLine([]) == Join(h, "|");
    SplitJoin(h, '|');
  }

  /** Without variables a data line still has a blank cell before the
      result cell, the twin of the header's empty `$$` cell. */
  lemma NoVariableDataLine(result: bool)
    ensures Split(DataLine([], result), '|') == ["", "  ", " " + Digit(result) + " ", ""]
  {
    var cell := " " + Digit(result) + " ";
    var inner := ["  ", cell];
    var d := ["", "  ", cell, ""];
    assert Cells([]) == [] && Join(Cells([]), " | ") == "";
    JoinFramed(inner, "|");
    assert [""] + inner + [""] == d;
    JoinCons("  ", [cell], "|");
    assert Join(inner, "|") == "  " + "|" + cell by {
      assert [cell][1..] == [] && Join([cell], "|") == cell;
      assert ["  "] + [cell] == inner;
    }
    assert DataLine([], result) == "|" + ("  " + "|" + cell) + "|";
    SplitJoin(d, '|');
  }

  /** Without variables the separator has only the `-` cell of the result,
      one cell fewer than the header. */
  lemma NoVariableSeparator()
    ensures Split(SeparatorLine(0), '|') == ["", "-", ""]
  {
    assert SeparatorLine(0) == Join(["", "-", ""], "|");
    SplitJoin(["", "-", ""], '|');
  }

  lemma {:induction false} DashesJoin(n: nat)
    ensures Join(seq(n + 1, _ => "-"), "|") == Dashes(n) + "-"
  {
    if n > 0 {
      DashesJoin(n - 1);
      assert seq(n + 1, _ => "-") == seq(n, _ => "-") + ["-"];
      JoinSnoc(seq(n, _ => "-"), "-", "|");
    }
  }

  /** The separator reads back as `n + 1` cells of one `-` each. */
  lemma SeparatorCells(n: nat)
    ensures Split(SeparatorLine(n), '|') == [""] + seq(n + 1, _ => "-") + [""]
  {
    var dashes := seq(n + 1, _ => "-");
    DashesJoin(n);
    JoinFramed(dashes, "|");
    assert "|" + (Dashes(n) + "-") + "|" == SeparatorLine(n);
    var parts := [""] + dashes + [""];
    assert forall i :: 0 <= i < |parts| ==> '|' !in parts[i];
    SplitJoin(parts, '|');
  }

  lemma NoNewlines(vars: seq<char>, rows: seq<seq<bool>>, results: seq<bool>)
    requires |rows| == |results| && LetterVariables(vars)
    ensures '\n' !in HeaderLine(vars)
    ensures '\n' !in SeparatorLine(|vars|)
    ensures forall i :: 0 <= i < |rows| ==> '\n' !in DataLines(rows, results)[i]
  {
    JoinAvoids(Names(vars), "$|$", '\n');
    assert '\n' !in Join(seq(|vars| + 1, _ => "-"), "|") by {
      JoinAvoids(seq(|vars| + 1, _ => "-"), "|", '\n');
    }
    DashesJoin(|vars|);
    forall i | 0 <= i < |rows| ensures '\n' !in DataLines(rows, results)[i] {
      JoinAvoids(Cells(rows[i]), " | ", '\n');
    }
  }

  lemma RenderJoin(vars: seq<char>, rows: seq<seq<bool>>, results: seq<bool>)
    requires |rows| == |results| >= 1
    ensures Render(vars, rows, results)
         == Join(["", HeaderLine(vars), SeparatorLine(|vars|)] + DataLines(rows, results), "\n")
  {
    JoinThree("", HeaderLine(vars), SeparatorLine(|vars|), DataLines(rows, results), "\n");
    assert "" + "\n" == "\n";
  }

  /** The rendered table splits into a leading empty line, the header, the
      separator and one line per row, in row order. */
  lemma RenderLines(vars: seq<char>, rows: seq<seq<bool>>, results: seq<bool>)
    requires |rows| == |results| >= 1 && LetterVariables(vars)
    ensures Split(Render(vars, rows, results), '\n')
         == ["", HeaderLine(vars), SeparatorLine(|vars|)] + DataLines(rows, results)
  {
    var dl := DataLines(rows, results);
    var parts := ["", HeaderLine(vars), SeparatorLine(|vars|)] + dl;
    RenderJoin(vars, rows, results);
    NoNewlines(vars, rows, results);
    forall i | 0 <= i < |parts| ensures '\n' !in parts[i] {
      if i >= 3 {
        assert parts[i] == dl[i - 3];
      }
    }
    SplitJoin(parts, '\n');
  }

  /** The table ends with the ` |` of the last row. */
  lemma RenderEnds(vars: seq<char>, rows: seq<seq<bool>>, results: seq<bool>)
    requires |rows| == |results| >= 1
    ensures var t := Render(vars, rows, results); |t| >= 2 && t[|t| - 2..] == " |"
  {
    var texts := RowTexts(rows, results);
    JoinWrapped(texts, "| ", " |", '\n');
    assert DataLines(rows, results) == seq(|texts|, i requires 0 <= i < |texts| => "| " + texts[i] + " |");
    assert " |" + ['\n'] + "| " == " |\n| " && ['\n'] == "\n";
    var a := "\n" + HeaderLine(vars) + "\n" + SeparatorLine(|vars|) + "\n" + "| " + Join(texts, " |\n| ");
    assert Render(vars, rows, results) == a + " |";
  }

  /** The lines of a rendered table, for any rows and results. */
  lemma RenderedLines(vars: seq<char>, rows: seq<seq<bool>>, results: seq<bool>)
    requires |rows| == |results| >= 1 && LetterVariables(vars)
    ensures var t := Render(vars, rows, results);
      var lines := Split(t, '\n');
      && |lines| == 3 + |rows|
      && lines[0] == "" && lines[1] == HeaderLine(vars) && lines[2] == SeparatorLine(|vars|)
      && (forall i :: 0 <= i < |rows| ==> lines[3 + i] == DataLine(rows[i], results[i]))
      && t[|t| - 2..] == " |"
  {
    var lines := Split(Render(vars, rows, results), '\n');
    RenderLines(vars, rows, results);
    RenderEnds(vars, rows, results);
    forall i | 0 <= i < |rows| ensures lines[3 + i] == DataLine(rows[i], results[i]) {
      assert lines[3 + i] == DataLines(rows, results)[i];
    }
  }

  /** What `generateTruthTable` returns when no evaluation throws: a
      leading empty line, the header, the separator, then `2^|vars|` rows,
      ending with the ` |` of the last row. */
  lemma TruthTableShape(expression: string, eval: string -> Option<bool>)
    requires TruthTable(expression, eval).Some?
    ensures var vars := Variables(expression);
      var t := TruthTable(expression, eval).value;
      var lines := Split(t, '\n');
      && |lines| == 3 + Pow2(|vars|)
      && lines[0] == "" && lines[1] == HeaderLine(vars) && lines[2] == SeparatorLine(|vars|)
      && t[|t| - 2..] == " |"
  {
    var vars := Variables(expression);
    var rows := Table(|vars|);
    RenderedLines(vars, rows, EvaluateRows(expression, vars, rows, eval).value);
  }

  /** Row `i` of the table shows the `i`-th assignment and the value `eval`
      gave the expression under it. */
  lemma TruthTableRows(expression: string, eval: string -> Option<bool>)
    requires TruthTable(expression, eval).Some?
    ensures var vars := Variables(expression);
      var lines := Split(TruthTable(expression, eval).value, '\n');
      && |lines| == 3 + Pow2(|vars|)
      && forall i :: 0 <= i < Pow2(|vars|) ==>
           && EvaluateExpression(expression, vars, Table(|vars|)[i], eval).Some?
           && lines[3 + i] == DataLine(Table(|vars|)[i], EvaluateExpression(expression, vars, Table(|vars|)[i], eval).value)
  {
    var vars := Variables(expression);
    var rows := Table(|vars|);
    EvaluateRowsMeaning(expression, vars, rows, eval);
    RenderedLines(vars, rows, EvaluateRows(expression, vars, rows, eval).value);
  }

  /** A table, when there is one, starts with a newline; in particular it
      is never empty. */
  lemma TruthTableStartsWithNewline(expression: string, eval: string -> Option<bool>)
    requires TruthTable(expression, eval).Some?
    ensures var t := TruthTable(expression, eval).value; |t| > 0 && t[0] == '\n'
  {
    var vars := Variables(expression);
    var rows := Table(|vars|);
    RenderStartsWithNewline(vars, rows, EvaluateRows(expression, vars, rows, eval).value);
  }

  lemma RenderStartsWithNewline(vars: seq<char>, rows: seq<seq<bool>>, results: seq<bool>)
    requires |rows| == |results|
    ensures var t := Render(vars, rows, results); |t| > 0 && t[0] == '\n'
  {
    var rest := HeaderLine(vars) + "\n" + SeparatorLine(|vars|) + "\n" + Join(DataLines(rows, results), "\n");
    assert Render(vars, rows, results) == "\n" + rest;
  }

  /** An expression without lower-case letters has no variables. */
  lemma NoLetters(s: string)
    requires forall k :: 0 <= k < |s| ==> !('a' <= s[k] <= 'z')
    ensures Variables(s) == []
  {
    var vars := Variables(s);
    if vars != [] {
      SomeLetter(s);
      assert false;
    }
  }

  lemma SomeLetter(s: string)
    requires Variables(s) != []
    ensures exists k :: 0 <= k < |s| && 'a' <= s[k] <= 'z'
  {
    var c := Variables(s)[0];
    assert c in s;
    var k :| 0 <= k < |s| && s[k] == c;
  }

  /** With no variables there is one row, the empty assignment, and the
      header still carries an empty `$$` cell: the table of the constant `1`. */
  lemma ConstantTable(eval: string -> Option<bool>)
    requires eval("1") == Some(true)
    ensures TruthTable("1", eval) == Some("\n|$$|$\\text{Result}$|\n|-|\n|  | 1 |")
  {
    NoLetters("1");
    assert Table(0) == [[]];
    assert EvaluateExpression("1", [], [], eval) == Some(true);
    var rows: seq<seq<bool>> := [[]];
    assert rows[..0] == [] && rows[0] == [];
    EvaluateRowsAll("1", [], rows, [true], eval);
    ConstantRender();
  }

  lemma ConstantRender()
    ensures Render([], [[]], [true]) == "\n|$$|$\\text{Result}$|\n|-|\n|  | 1 |"
  {
    ConstantLines();
    var d := "|  | 1 |";
    assert Join([d], "\n") == d;
    ConstantText();
  }

  lemma ConstantText()
    ensures "\n" + "|$$|$\\text{Result}$|" + "\n" + "|-|" + "\n" + "|  | 1 |"
         == "\n|$$|$\\text{Result}$|\n|-|\n|  | 1 |"
  {
    assert "\n" + "|$$|$\\text{Result}$|" == "\n|$$|$\\text{Result}$|";
    assert "\n|$$|$\\text{Result}$|" + "\n" == "\n|$$|$\\text{Result}$|\n";
    assert "\n|$$|$\\text{Result}$|\n" + "|-|" == "\n|$$|$\\text{Result}$|\n|-|";
    assert "\n|$$|$\\text{Result}$|\n|-|" + "\n" == "\n|$$|$\\text{Result}$|\n|-|\n";
  }

  lemma ConstantLines()
    ensures HeaderLine([]) == "|$$|$\\text{Result}$|"
    ensures SeparatorLine(0) == "|-|"
    ensures DataLines([[]], [true]) == ["|  | 1 |"]
  {
    assert Names([]) == [] && Cells([]) == [];
    assert "|$" + "" + "$|$\\text{Result}$|" == "|$$|$\\text{Result}$|";
    assert "| " + ("" + " | " + "1") + " |" == "|  | 1 |";
  }
}
