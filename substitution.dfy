/** The substitution half of `evaluateExpression` (main.ts:144-152): for each
    variable in turn, every whole-word occurrence (the pattern `\bv\b` with
    the global flag) is replaced by `true` or `false`, and the result is
    handed to `eval`. */
module Substitution {
  import opened Wrappers

  /** The characters of `\w`: a word boundary `\b` lies between one of these
      and anything else (or an end of the string). */
  predicate IsWordChar(c: char)
  {
    ('a' <= c <= 'z') || ('A' <= c <= 'Z') || ('0' <= c <= '9') || c == '_'
  }

  /** `value.toString()` for a boolean. */
  function BoolString(b: bool): (w: string)
    ensures |w| >= 2 && forall k :: 0 <= k < |w| ==> IsWordChar(w[k])
  {
    if b then "true" else "false"
  }

  /** `c` at position `p` of `s` matches `\bc\b`; `prevWord` says whether a
      word character precedes position 0. */
  predicate StandaloneAt(s: string, c: char, p: int, prevWord: bool)
  {
    && 0 <= p < |s| && s[p] == c
    && (if p == 0 then !prevWord else !IsWordChar(s[p - 1]))
    && (p + 1 == |s| || !IsWordChar(s[p + 1]))
  }

  /** The same search, scanning from the left: is there a whole-word `c`? */
  predicate HasWordFrom(s: string, c: char, prevWord: bool)
  {
    && s != []
    && ((s[0] == c && !prevWord && (|s| == 1 || !IsWordChar(s[1])))
        || HasWordFrom(s[1..], c, IsWordChar(s[0])))
  }

  /** `c` occurs in `s` as a word of its own. */
  predicate HasWord(s: string, c: char)
  {
    HasWordFrom(s, c, false)
  }

  /** `s.replace(new RegExp("\\b" + c + "\\b", "g"), w)` for one word
      character `c`, with `prevWord` the character class before `s`. Matches
      are taken on the original string, so the lookahead reads `s[1]`. */
  function ReplaceWordFrom(s: string, c: char, w: string, prevWord: bool): string
  {
    if s == [] then []
    else
      var hit := s[0] == c && !prevWord && (|s| == 1 || !IsWordChar(s[1]));
      (if hit then w else [s[0]]) + ReplaceWordFrom(s[1..], c, w, IsWordChar(s[0]))
  }

  function ReplaceWord(s: string, c: char, w: string): string
  {
    ReplaceWordFrom(s, c, w, false)
  }

  /** The `reduce` over the variables: each replacement works on the output
      of the one before. */
  function Substitute(s: string, vars: seq<char>, values: seq<bool>): string
    requires |values| == |vars|
    decreases |vars|
  {
    if vars == [] then s
    else Substitute(ReplaceWord(s, vars[0], BoolString(values[0])), vars[1..], values[1..])
  }

  /** Every variable is one lower-case letter, as `match(/[a-z]/g)` finds them. */
  predicate LetterVariables(vars: seq<char>)
  {
    forall k :: 0 <= k < |vars| ==> 'a' <= vars[k] <= 'z'
  }

  /** `evaluateExpression`: `eval` stands for the JavaScript evaluator, `None`
      for an exception, a boolean for the truthiness of its value. */
  function EvaluateExpression(expression: string, vars: seq<char>, values: seq<bool>,
                              eval: string -> Option<bool>): Option<bool>
    requires |values| == |vars| && LetterVariables(vars)
  {
    eval(Substitute(expression, vars, values))
  }

  /** What `evaluateExpression` hands to the evaluator holds no variable as
      a word of its own, and exactly the other whole-word letters of the
      expression. With pairwise different variables, each standalone
      occurrence of `vars[k]` in the expression stands as the text of
      `values[k]`, the text on either side of it substituted in the same way;
      an expression without standalone variables is passed on unchanged. */
  lemma EvaluateExpressionMeaning(expression: string, vars: seq<char>, values: seq<bool>,
                                  eval: string -> Option<bool>)
    requires |values| == |vars| && LetterVariables(vars)
    ensures exists t ::
      && EvaluateExpression(expression, vars, values, eval) == eval(t)
      && (forall k :: 0 <= k < |vars| ==> !HasWord(t, vars[k]))
      && (forall d :: IsWordChar(d) && d !in vars ==> (HasWord(t, d) <==> HasWord(expression, d)))
      && (Distinct(vars) ==>
            forall k, p :: 0 <= k < |vars| && StandaloneAt(expression, vars[k], p, false) ==>
              t == Substitute(expression[..p], vars, values) + BoolString(values[k])
                   + Substitute(expression[p + 1..], vars, values))
      && ((forall k :: 0 <= k < |vars| ==> !HasWord(expression, vars[k])) ==> t == expression)
  {
    var t := Substitute(expression, vars, values);
    SubstitutedText(expression, vars, values);
    assert EvaluateExpression(expression, vars, values, eval) == eval(t);
  }

  /** What the substituted text is: free of the variables, with every other
      word kept, built around each standalone variable from its value, and
      the expression itself when it holds no variable. */
  lemma SubstitutedText(expression: string, vars: seq<char>, values: seq<bool>)
    requires |values| == |vars| && LetterVariables(vars)
    ensures var t := Substitute(expression, vars, values);
      && (forall k :: 0 <= k < |vars| ==> !HasWord(t, vars[k]))
      && (forall d :: IsWordChar(d) && d !in vars ==> (HasWord(t, d) <==> HasWord(expression, d)))
      && (Distinct(vars) ==>
            forall k, p :: 0 <= k < |vars| && StandaloneAt(expression, vars[k], p, false) ==>
              t == Substitute(expression[..p], vars, values) + BoolString(values[k])
                   + Substitute(expression[p + 1..], vars, values))
      && ((forall k :: 0 <= k < |vars| ==> !HasWord(expression, vars[k])) ==> t == expression)
  {
    SubstituteRemovesVariables(expression, vars, values);
    SubstituteKeepsOtherWords(expression, vars, values);
    if Distinct(vars) {
      SubstitutePositions(expression, vars, values);
    }
    if forall k :: 0 <= k < |vars| ==> !HasWord(expression, vars[k]) {
      SubstituteIdentity(expression, vars, values);
    }
  }

  /** `SubstituteAt` at every standalone occurrence of every variable. */
  lemma SubstitutePositions(expression: string, vars: seq<char>, values: seq<bool>)
    requires |values| == |vars| && LetterVariables(vars) && Distinct(vars)
    ensures forall k, p :: 0 <= k < |vars| && StandaloneAt(expression, vars[k], p, false) ==>
      Substitute(expression, vars, values)
        == Substitute(expression[..p], vars, values) + BoolString(values[k])
           + Substitute(expression[p + 1..], vars, values)
  {
    forall k, p | 0 <= k < |vars| && StandaloneAt(expression, vars[k], p, false)
      ensures Substitute(expression, vars, values)
        == Substitute(expression[..p], vars, values) + BoolString(values[k])
           + Substitute(expression[p + 1..], vars, values)
    {
      assert expression == expression[..p] + [vars[k]] + expression[p + 1..];
      SubstituteAt(expression[..p], expression[p + 1..], vars, values, k);
    }
  }

  /** The scan agrees with the positional reading of `\bc\b`. */
  lemma {:induction false} HasWordFromIff(s: string, c: char, prevWord: bool)
    ensures HasWordFrom(s, c, prevWord) <==> exists p :: StandaloneAt(s, c, p, prevWord)
    decreases |s|
  {
    if s != [] {
      var t := s[1..];
      var pw := IsWordChar(s[0]);
      HasWordFromIff(t, c, pw);
      if s[0] == c && !prevWord && (|s| == 1 || !IsWordChar(s[1])) {
        assert StandaloneAt(s, c, 0, prevWord);
      }
      if HasWordFrom(t, c, pw) {
        var p :| StandaloneAt(t, c, p, pw);
        assert StandaloneAt(s, c, p + 1, prevWord);
      }
      forall p | StandaloneAt(s, c, p, prevWord) ensures HasWordFrom(s, c, prevWord) {
        if p > 0 {
          assert StandaloneAt(t, c, p - 1, pw);
        }
      }
    }
  }

  lemma HasWordIff(s: string, c: char)
    ensures HasWord(s, c) <==> exists p :: StandaloneAt(s, c, p, false)
  {
    HasWordFromIff(s, c, false);
  }

  /** The first character of the result is a word character exactly when the
      first character of `s` is one. */
  lemma ReplaceWordFirst(s: string, c: char, w: string, prevWord: bool)
    requires IsWordChar(c) && w != [] && IsWordChar(w[0])
    ensures var r := ReplaceWordFrom(s, c, w, prevWord);
      (r == []) == (s == []) && (s != [] ==> (IsWordChar(r[0]) <==> IsWordChar(s[0])))
  {
  }

  /** A run of at least two word characters hides every letter: none of its
      characters is a word of its own. */
  lemma {:induction false} WordRun(w: string, rest: string, d: char, prevWord: bool)
    requires |w| >= 1 && (prevWord || |w| >= 2)
    requires forall k :: 0 <= k < |w| ==> IsWordChar(w[k])
    ensures HasWordFrom(w + rest, d, prevWord) == HasWordFrom(rest, d, true)
    decreases |w|
  {
    assert (w + rest)[1..] == w[1..] + rest;
    if |w| == 1 {
      assert w[1..] + rest == rest;
    } else {
      assert (w + rest)[1] == w[1];
      WordRun(w[1..], rest, d, true);
    }
  }

  /** Replacing `c` leaves the whole-word occurrences of every other letter
      as they were. */
  lemma {:induction false} ReplaceKeepsOtherWords(s: string, c: char, w: string, d: char, prevWord: bool)
    requires IsWordChar(c) && c != d
    requires |w| >= 2 && forall k :: 0 <= k < |w| ==> IsWordChar(w[k])
    ensures HasWordFrom(ReplaceWordFrom(s, c, w, prevWord), d, prevWord) == HasWordFrom(s, d, prevWord)
    decreases |s|
  {
    if s != [] {
      var pw := IsWordChar(s[0]);
      var rest := ReplaceWordFrom(s[1..], c, w, pw);
      ReplaceKeepsOtherWords(s[1..], c, w, d, pw);
      ReplaceWordFirst(s[1..], c, w, pw);
      var hit := s[0] == c && !prevWord && (|s| == 1 || !IsWordChar(s[1]));
      if hit {
        WordRun(w, rest, d, prevWord);
      } else {
        assert ([s[0]] + rest)[1..] == rest;
      }
    }
  }

  /** After replacing `c` by a word of two or more characters, `c` is no
      longer a word of its own anywhere. */
  lemma {:induction false} ReplaceRemovesWord(s: string, c: char, w: string, prevWord: bool)
    requires IsWordChar(c)
    requires |w| >= 2 && forall k :: 0 <= k < |w| ==> IsWordChar(w[k])
    ensures !HasWordFrom(ReplaceWordFrom(s, c, w, prevWord), c, prevWord)
    decreases |s|
  {
    if s != [] {
      var pw := IsWordChar(s[0]);
      var rest := ReplaceWordFrom(s[1..], c, w, pw);
      ReplaceRemovesWord(s[1..], c, w, pw);
      ReplaceWordFirst(s[1..], c, w, pw);
      var hit := s[0] == c && !prevWord && (|s| == 1 || !IsWordChar(s[1]));
      if hit {
        WordRun(w, rest, c, prevWord);
      } else {
        assert ([s[0]] + rest)[1..] == rest;
      }
    }
  }

  /** The replacement changes nothing exactly when `c` is not a word of its
      own (the replacement being longer than `c`). */
  lemma {:induction false} ReplaceIdentity(s: string, c: char, w: string, prevWord: bool)
    requires |w| >= 2
    ensures ReplaceWordFrom(s, c, w, prevWord) == s <==> !HasWordFrom(s, c, prevWord)
    decreases |s|
  {
    if s != [] {
      ReplaceIdentity(s[1..], c, w, IsWordChar(s[0]));
      ReplaceGrows(s[1..], c, w, IsWordChar(s[0]));
    }
  }

  lemma {:induction false} ReplaceGrows(s: string, c: char, w: string, prevWord: bool)
    requires |w| >= 2
    ensures |ReplaceWordFrom(s, c, w, prevWord)| >= |s|
    decreases |s|
  {
    if s != [] {
      ReplaceGrows(s[1..], c, w, IsWordChar(s[0]));
    }
  }

  /** After the whole `reduce`, no variable is left as a word of its own. */
  lemma {:induction false} SubstituteRemovesVariables(s: string, vars: seq<char>, values: seq<bool>)
    requires |values| == |vars| && LetterVariables(vars)
    ensures forall k :: 0 <= k < |vars| ==> !HasWord(Substitute(s, vars, values), vars[k])
    decreases |vars|
  {
    if vars != [] {
      var c, w := vars[0], BoolString(values[0]);
      var t := ReplaceWord(s, c, w);
      ReplaceRemovesWord(s, c, w, false);
      SubstituteRemovesVariables(t, vars[1..], values[1..]);
      SubstituteKeepsAbsent(t, vars[1..], values[1..], c);
    }
  }

  /** A letter that is not a word of its own stays so through the later
      replacements. */
  lemma {:induction false} SubstituteKeepsAbsent(s: string, vars: seq<char>, values: seq<bool>, d: char)
    requires |values| == |vars| && LetterVariables(vars) && IsWordChar(d) && !HasWord(s, d)
    ensures !HasWord(Substitute(s, vars, values), d)
    decreases |vars|
  {
    if vars != [] {
      var c, w := vars[0], BoolString(values[0]);
      if c == d {
        ReplaceRemovesWord(s, c, w, false);
      } else {
        ReplaceKeepsOtherWords(s, c, w, d, false);
      }
      SubstituteKeepsAbsent(ReplaceWord(s, c, w), vars[1..], values[1..], d);
    }
  }

  /** Letters that are not variables keep their whole-word occurrences. */
  lemma {:induction false} SubstituteKeepsOtherWords(s: string, vars: seq<char>, values: seq<bool>)
    requires |values| == |vars| && LetterVariables(vars)
    ensures forall d :: IsWordChar(d) && d !in vars ==>
      (HasWord(Substitute(s, vars, values), d) <==> HasWord(s, d))
    decreases |vars|
  {
    if vars != [] {
      var c, w := vars[0], BoolString(values[0]);
      SubstituteKeepsOtherWords(ReplaceWord(s, c, w), vars[1..], values[1..]);
      forall d | IsWordChar(d) && d !in vars
        ensures HasWord(ReplaceWord(s, c, w), d) <==> HasWord(s, d)
      {
        ReplaceKeepsOtherWords(s, c, w, d, false);
      }
    }
  }

  /** An expression in which no variable is a word of its own reaches `eval`
      unchanged. */
  lemma {:induction false} SubstituteIdentity(s: string, vars: seq<char>, values: seq<bool>)
    requires |values| == |vars|
    requires forall k :: 0 <= k < |vars| ==> !HasWord(s, vars[k])
    ensures Substitute(s, vars, values) == s
    decreases |vars|
  {
    if vars != [] {
      ReplaceIdentity(s, vars[0], BoolString(values[0]), false);
      SubstituteIdentity(s, vars[1..], values[1..]);
    }
  }

  /** No word continues across the junction of `a` and `b`: `\b` sees the
      same boundary there whether the two are read together or apart. */
  predicate Separated(a: string, b: string)
  {
    a == [] || b == [] || !IsWordChar(a[|a| - 1]) || !IsWordChar(b[0])
  }

  /** The variables name pairwise different letters, as the `Set` of the
      variables guarantees. */
  predicate Distinct(vars: seq<char>)
  {
    forall i, j :: 0 <= i < j < |vars| ==> vars[i] != vars[j]
  }

  lemma {:induction false} ReplaceConcatFrom(a: string, b: string, c: char, w: string, prevWord: bool)
    requires IsWordChar(c) && Separated(a, b)
    ensures ReplaceWordFrom(a + b, c, w, prevWord)
         == ReplaceWordFrom(a, c, w, prevWord) + ReplaceWordFrom(b, c, w, if a == [] then prevWord else IsWordChar(a[|a| - 1]))
    decreases |a|
  {
    if a == [] {
      var t := ReplaceWordFrom(b, c, w, prevWord);
      assert a + b == b;
      assert ReplaceWordFrom(a, c, w, prevWord) == [];
      assert [] + t == t;
    } else if |a| == 1 {
      assert [a[0]] == a && a[|a| - 1] == a[0];
      ReplaceConcatOne(a[0], b, c, w, prevWord);
    } else {
      assert a[1..] != [] && a[1..][|a| - 2] == a[|a| - 1];
      ReplaceConcatFrom(a[1..], b, c, w, IsWordChar(a[0]));
      ReplaceConcatStep(a, b, c, w, prevWord);
    }
  }

  /** One step of the scan: the first character, then the rest. */
  lemma ReplaceHead(s: string, c: char, w: string, prevWord: bool)
    requires s != []
    ensures ReplaceWordFrom(s, c, w, prevWord)
         == (if s[0] == c && !prevWord && (|s| == 1 || !IsWordChar(s[1])) then w else [s[0]])
            + ReplaceWordFrom(s[1..], c, w, IsWordChar(s[0]))
  {
  }

  /** The replace on a single character. */
  lemma ReplaceSingle(x: char, c: char, w: string, prevWord: bool)
    ensures ReplaceWordFrom([x], c, w, prevWord) == if x == c && !prevWord then w else [x]
  {
    var head := if x == c && !prevWord then w else [x];
    assert [x][1..] == [];
    ReplaceHead([x], c, w, prevWord);
    assert ReplaceWordFrom([], c, w, IsWordChar(x)) == [];
    assert head + [] == head;
  }

  /** `ReplaceHead` on `[x] + b` across a junction no word crosses: the
      lookahead into `b` never decides the match. */
  lemma ReplaceHeadSeparated(x: char, b: string, c: char, w: string, prevWord: bool)
    requires IsWordChar(c) && Separated([x], b)
    ensures ReplaceWordFrom([x] + b, c, w, prevWord)
         == (if x == c && !prevWord then w else [x]) + ReplaceWordFrom(b, c, w, IsWordChar(x))
  {
    var xb := [x] + b;
    assert xb[0] == x && xb[1..] == b;
    if b != [] {
      assert xb[1] == b[0];
    }
    ReplaceHead(xb, c, w, prevWord);
  }

  lemma ReplaceConcatOne(x: char, b: string, c: char, w: string, prevWord: bool)
    requires IsWordChar(c) && Separated([x], b)
    ensures ReplaceWordFrom([x] + b, c, w, prevWord)
         == ReplaceWordFrom([x], c, w, prevWord) + ReplaceWordFrom(b, c, w, IsWordChar(x))
  {
    ReplaceSingle(x, c, w, prevWord);
    ReplaceHeadSeparated(x, b, c, w, prevWord);
  }

  /** `ReplaceHead` on `a + b` when `a` has at least two characters: the
      first step reads only `a`. */
  lemma ReplaceHeadJoined(a: string, b: string, c: char, w: string, prevWord: bool)
    requires |a| >= 2
    ensures ReplaceWordFrom(a + b, c, w, prevWord)
         == (if a[0] == c && !prevWord && !IsWordChar(a[1]) then w else [a[0]])
            + ReplaceWordFrom(a[1..] + b, c, w, IsWordChar(a[0]))
  {
    var ab := a + b;
    assert ab[0] == a[0] && ab[1] == a[1] && ab[1..] == a[1..] + b;
    ReplaceHead(ab, c, w, prevWord);
  }

  lemma ReplaceConcatStep(a: string, b: string, c: char, w: string, prevWord: bool)
    requires |a| >= 2
    requires ReplaceWordFrom(a[1..] + b, c, w, IsWordChar(a[0]))
          == ReplaceWordFrom(a[1..], c, w, IsWordChar(a[0])) + ReplaceWordFrom(b, c, w, IsWordChar(a[1..][|a| - 2]))
    ensures ReplaceWordFrom(a + b, c, w, prevWord)
         == ReplaceWordFrom(a, c, w, prevWord) + ReplaceWordFrom(b, c, w, IsWordChar(a[|a| - 1]))
  {
    var head := if a[0] == c && !prevWord && !IsWordChar(a[1]) then w else [a[0]];
    assert a[1..][|a| - 2] == a[|a| - 1];
    ReplaceHeadJoined(a, b, c, w, prevWord);
    ReplaceHead(a, c, w, prevWord);
    var rest := ReplaceWordFrom(a[1..], c, w, IsWordChar(a[0]));
    var tail := ReplaceWordFrom(b, c, w, IsWordChar(a[|a| - 1]));
    ConcatAssoc(head, rest, tail);
    calc {
      ReplaceWordFrom(a + b, c, w, prevWord);
      head + ReplaceWordFrom(a[1..] + b, c, w, IsWordChar(a[0]));
      head + (rest + tail);
      (head + rest) + tail;
      ReplaceWordFrom(a, c, w, prevWord) + tail;
    }
  }

  lemma ConcatAssoc(x: string, y: string, z: string)
    ensures x + (y + z) == (x + y) + z
  {
  }

  /** After a character that is not a word character, the scan forgets
      what came before. */
  lemma ReplaceAfterBoundary(b: string, c: char, w: string, prevWord: bool)
    requires IsWordChar(c) && (b == [] || !IsWordChar(b[0]))
    ensures ReplaceWordFrom(b, c, w, prevWord) == ReplaceWordFrom(b, c, w, false)
  {
  }

  /** The global replace works piecewise across a junction no word crosses. */
  lemma ReplaceConcat(a: string, b: string, c: char, w: string)
    requires IsWordChar(c) && Separated(a, b)
    ensures ReplaceWord(a + b, c, w) == ReplaceWord(a, c, w) + ReplaceWord(b, c, w)
  {
    ReplaceConcatFrom(a, b, c, w, false);
    if a != [] && IsWordChar(a[|a| - 1]) {
      ReplaceAfterBoundary(b, c, w, true);
    }
  }

  /** Every standalone occurrence of `c` becomes `w`, and the text on either
      side is replaced independently. */
  lemma ReplaceWordAt(a: string, b: string, c: char, w: string)
    requires IsWordChar(c)
    requires a == [] || !IsWordChar(a[|a| - 1])
    requires b == [] || !IsWordChar(b[0])
    ensures ReplaceWord(a + [c] + b, c, w) == ReplaceWord(a, c, w) + w + ReplaceWord(b, c, w)
  {
    ReplaceConcat(a, [c], c, w);
    ReplaceConcat(a + [c], b, c, w);
    assert ReplaceWordFrom([c], c, w, false) == w + ReplaceWordFrom([], c, w, true);
  }

  lemma {:induction false} ReplaceWordLast(s: string, c: char, w: string, prevWord: bool)
    requires IsWordChar(c) && w != [] && IsWordChar(w[|w| - 1])
    ensures var r := ReplaceWordFrom(s, c, w, prevWord);
      (r == []) == (s == []) && (s != [] ==> (IsWordChar(r[|r| - 1]) <==> IsWordChar(s[|s| - 1])))
    decreases |s|
  {
    if s != [] {
      ReplaceWordLast(s[1..], c, w, IsWordChar(s[0]));
      if |s| >= 2 {
        assert s[1..][|s| - 2] == s[|s| - 1];
      }
    }
  }

  /** A replacement by a run of word characters keeps a junction free of
      words. */
  lemma SeparatedKept(a: string, b: string, c: char, w: string)
    requires IsWordChar(c) && Separated(a, b)
    requires |w| >= 1 && forall k :: 0 <= k < |w| ==> IsWordChar(w[k])
    ensures Separated(ReplaceWord(a, c, w), ReplaceWord(b, c, w))
  {
    ReplaceWordLast(a, c, w, false);
    ReplaceWordFirst(b, c, w, false);
  }

  /** The whole `reduce` works piecewise across a junction no word crosses. */
  lemma {:induction false} SubstituteConcat(a: string, b: string, vars: seq<char>, values: seq<bool>)
    requires |values| == |vars| && LetterVariables(vars) && Separated(a, b)
    ensures Substitute(a + b, vars, values) == Substitute(a, vars, values) + Substitute(b, vars, values)
    decreases |vars|
  {
    if vars != [] {
      var c, w := vars[0], BoolString(values[0]);
      ReplaceConcat(a, b, c, w);
      SeparatedKept(a, b, c, w);
      SubstituteConcat(ReplaceWord(a, c, w), ReplaceWord(b, c, w), vars[1..], values[1..]);
    }
  }

  /** Variable `vars[k]` on its own becomes the text of `values[k]`. */
  lemma {:induction false} SubstituteOneVariable(vars: seq<char>, values: seq<bool>, k: nat)
    requires |values| == |vars| && LetterVariables(vars) && Distinct(vars) && k < |vars|
    ensures Substitute([vars[k]], vars, values) == BoolString(values[k])
    decreases k
  {
    var c, w := vars[0], BoolString(values[0]);
    if k == 0 {
      assert ReplaceWordFrom([c], c, w, false) == w + ReplaceWordFrom([], c, w, true);
      assert ReplaceWord([c], c, w) == w;
      assert w + [] == w;
      forall j | 0 <= j < |vars| - 1 ensures !HasWord(w, vars[1..][j]) {
        WordRun(w, [], vars[1..][j], false);
      }
      SubstituteIdentity(w, vars[1..], values[1..]);
      assert Substitute([c], vars, values) == Substitute(w, vars[1..], values[1..]);
    } else {
      assert vars[k] != c;
      assert ReplaceWordFrom([vars[k]], c, w, false) == [vars[k]] + ReplaceWordFrom([], c, w, true);
      assert vars[1..][k - 1] == vars[k];
      SubstituteOneVariable(vars[1..], values[1..], k - 1);
    }
  }

  /** A standalone occurrence of variable `vars[k]` becomes the text of
      `values[k]`, and the text on either side is substituted
      independently. */
  lemma SubstituteAt(a: string, b: string, vars: seq<char>, values: seq<bool>, k: nat)
    requires |values| == |vars| && LetterVariables(vars) && Distinct(vars) && k < |vars|
    requires a == [] || !IsWordChar(a[|a| - 1])
    requires b == [] || !IsWordChar(b[0])
    ensures Substitute(a + [vars[k]] + b, vars, values)
         == Substitute(a, vars, values) + BoolString(values[k]) + Substitute(b, vars, values)
  {
    SubstituteConcat(a, [vars[k]], vars, values);
    SubstituteConcat(a + [vars[k]], b, vars, values);
    SubstituteOneVariable(vars, values, k);
  }

  /** Whole words only: in `p || up` the variable `p` becomes a literal,
      but the `p` inside `up` is left alone. */
  lemma ExampleSubstitution()
    ensures Substitute("p || up", ['p'], [true]) == "true || up"
  {
    assert ReplaceWordFrom("p", 'p', "true", true) == "p";
    assert ReplaceWordFrom("up", 'p', "true", false) == "up";
    assert ReplaceWordFrom(" up", 'p', "true", false) == " up";
    assert ReplaceWordFrom("| up", 'p', "true", false) == "| up";
    assert ReplaceWordFrom("|| up", 'p', "true", false) == "|| up";
    assert ReplaceWordFrom(" || up", 'p', "true", true) == " || up";
    assert ReplaceWord("p || up", 'p', "true") == "true || up";
  }
}
