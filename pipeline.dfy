/** `generateResult` (main.ts:175-186): replace the LaTeX notation, eliminate
    implications, and build the truth table of what is left; an exception
    anywhere gives the empty string. */
module Pipeline {
  import opened Wrappers
  import opened Text
  import opened Normalizer
  import opened Implication
  import opened Combinations
  import opened TruthTable

  /** The expression the table is built for: the selection after
      `replaceMultiple` with the replacement table and `replaceImplication`. */
  function Rewritten(selectedText: string): string
  {
    EliminateImplications(Normalize(selectedText))
  }

  /** `generateResult` as a value: the table, or `""` when evaluating some
      row throws. */
  function Result(selectedText: string, eval: string -> Option<bool>): string
  {
    match TruthTable.TruthTable(Rewritten(selectedText), eval)
    case None => ""
    case Some(table) => table
  }

  /** `generateResult`: the three steps in order; the `catch` returns `""`. */
  method GenerateResult(selectedText: string, eval: string -> Option<bool>) returns (r: string)
    ensures r == Result(selectedText, eval)
  {
    var replaced := ReplaceMultiple(selectedText, Replacements);
    var rewritten := ReplaceImplication(replaced);
    var truthTable := GenerateTruthTable(rewritten, eval);
    if truthTable.None? {
      return "";
    }
    return truthTable.value;
  }

  /** The empty result means exactly that an evaluation threw: a table is
      never empty. */
  lemma ResultEmptyIff(selectedText: string, eval: string -> Option<bool>)
    ensures Result(selectedText, eval) == "" <==> TruthTable.TruthTable(Rewritten(selectedText), eval).None?
  {
    if TruthTable.TruthTable(Rewritten(selectedText), eval).Some? {
      TruthTableStartsWithNewline(Rewritten(selectedText), eval);
    }
  }

  /** What reaches the evaluator holds no `\to`, no brace and no `T` or `F`. */
  lemma RewrittenShape(selectedText: string)
    ensures var e := Rewritten(selectedText);
      !HasArrow(e) && '{' !in e && '}' !in e && 'T' !in e && 'F' !in e
  {
    var n := Normalize(selectedText);
    NormalizeRemovesBracesAndConstants(selectedText);
    Absent(n, '{');
    Absent(n, '}');
    Absent(n, 'T');
    Absent(n, 'F');
  }

  lemma Absent(n: string, c: char)
    requires c !in n && c in "{}TF"
    ensures c !in EliminateImplications(n)
  {
    EliminateKeepsCount(n, c);
  }

  /** The table's variables are the lower-case letters of the replaced
      selection, except that `t` and `o` may go with the `\to` they
      belong to. */
  lemma RewrittenVariables(selectedText: string)
    ensures forall c :: c != 't' && c != 'o' ==>
      (c in Variables(Rewritten(selectedText)) <==> 'a' <= c <= 'z' && c in Normalize(selectedText))
  {
    var n := Normalize(selectedText);
    forall c | c != 't' && c != 'o' && 'a' <= c <= 'z'
      ensures c in EliminateImplications(n) <==> c in n
    {
      KeepsLetter(n, c);
    }
  }

  /** `t` and `o` are variables exactly when the normalised selection holds
      more of them than the `\\to` arrows that elimination consumes. */
  lemma RewrittenArrowLetters(selectedText: string)
    ensures forall c :: c == 't' || c == 'o' ==>
      (c in Variables(Rewritten(selectedText)) <==> multiset(Normalize(selectedText))[c] > ArrowCount(Normalize(selectedText)))
  {
    var n := Normalize(selectedText);
    var e := EliminateImplications(n);
    forall c | c == 't' || c == 'o'
      ensures c in e <==> multiset(n)[c] > ArrowCount(n)
    {
      EliminateArrowChars(n, c);
      assert c in e <==> multiset(e)[c] > 0;
    }
  }

  lemma LetterIsPlain(c: char)
    requires 'a' <= c <= 'z' && c != 't' && c != 'o'
    ensures !IsSpace(c) && c !in "\\to" && c !in "(!) |"
  {
  }

  lemma KeepsLetter(n: string, c: char)
    requires 'a' <= c <= 'z' && c != 't' && c != 'o'
    ensures c in EliminateImplications(n) <==> c in n
  {
    var e := EliminateImplications(n);
    LetterIsPlain(c);
    EliminateKeepsCount(n, c);
    assert c in e <==> multiset(e)[c] > 0;
    assert c in n <==> multiset(n)[c] > 0;
  }

  /** A non-empty result has a line for the header, the separator and each
      of the `2^n` assignments of its `n` variables, after a leading empty
      line. */
  lemma ResultLines(selectedText: string, eval: string -> Option<bool>)
    requires Result(selectedText, eval) != ""
    ensures |Split(Result(selectedText, eval), '\n')| == 3 + Pow2(|Variables(Rewritten(selectedText))|)
  {
    TruthTableShape(Rewritten(selectedText), eval);
  }

  /** Selecting the constant `T` gives the one-row table of `1`, whose
      header has an empty `$$` variable cell and one cell more than the
      separator. */
  lemma ExampleConstant(eval: string -> Option<bool>)
    requires eval("1") == Some(true)
    ensures Result("T", eval) == "\n|$$|$\\text{Result}$|\n|-|\n|  | 1 |"
  {
    RewrittenConstant();
    ConstantTable(eval);
  }

  lemma RewrittenConstant()
    ensures Rewritten("T") == "1"
  {
    NormalizeConstant();
    ArrowCountNoBackslash("1");
    ArrowCountZero("1");
  }
}
