/** The implication eliminator: `replaceImplication` with its inner
    `negateLeftSide` and `processExpression` (main.ts:75-129). Each round takes
    the last `\to`, trims both sides, finds the operand boundaries with a
    bracket counter shared by both scans, and rewrites the implication into
    `(!(left) || (right))`. The rewrite is only structural: the boundary `(`
    stays inside the left operand, so the result is not in general logically
    equivalent to the input (see ExampleInsideBrackets). */
module Implication {
  import opened Wrappers
  import opened Text

  /** The three characters `\to` start at position `i` of `s`. */
  predicate IsArrowAt(s: string, i: int)
  {
    0 <= i && i + 3 <= |s| && s[i] == '\\' && s[i + 1] == 't' && s[i + 2] == 'o'
  }

  ghost predicate HasArrow(s: string)
  {
    exists i :: IsArrowAt(s, i)
  }

  /** The number of `\to` occurrences (they cannot overlap). */
  function ArrowCount(s: string): nat
    decreases |s|
  {
    if |s| < 3 then 0 else (if IsArrowAt(s, 0) then 1 else 0) + ArrowCount(s[1..])
  }

  /** The last `\to` starting at or before `i`, or -1. */
  function LastArrowFrom(s: string, i: int): (r: int)
    ensures r == -1 || (0 <= r <= i && IsArrowAt(s, r))
    ensures forall j :: r < j <= i ==> !IsArrowAt(s, j)
    decreases i + 1
  {
    if i < 0 then -1 else if IsArrowAt(s, i) then i else LastArrowFrom(s, i - 1)
  }

  /** `s.lastIndexOf("\\to")`: -1 exactly when there is none, otherwise the
      position of the last one. */
  function LastArrow(s: string): (r: int)
    ensures r == -1 <==> !HasArrow(s)
    ensures r != -1 ==> IsArrowAt(s, r) && forall j :: r < j ==> !IsArrowAt(s, j)
  {
    LastArrowFrom(s, |s| - 3)
  }

  /** No `\to` can span the junction of `a` and `b`. */
  predicate NoStraddle(a: string, b: string)
  {
    a == [] || b == [] || (b[0] != 't' && b[0] != 'o') || (a[|a| - 1] != '\\' && a[|a| - 1] != 't')
  }

  lemma {:induction false} ArrowCountConcat(a: string, b: string)
    requires NoStraddle(a, b)
    ensures ArrowCount(a + b) == ArrowCount(a) + ArrowCount(b)
    decreases |a|
  {
    if a == [] {
      assert a + b == b;
    } else {
      assert (a + b)[1..] == a[1..] + b;
      ArrowCountConcat(a[1..], b);
      if |a| < 3 {
        assert !IsArrowAt(a + b, 0);
        assert ArrowCount(a[1..]) == 0;
      }
    }
  }

  lemma {:induction false} ArrowCountNoBackslash(s: string)
    requires '\\' !in s
    ensures ArrowCount(s) == 0
    decreases |s|
  {
    if |s| >= 3 {
      ArrowCountNoBackslash(s[1..]);
    }
  }

  /** The count is zero exactly when there is no `\to`. */
  lemma {:induction false} ArrowCountZero(s: string)
    ensures ArrowCount(s) == 0 <==> !HasArrow(s)
    decreases |s|
  {
    if |s| >= 3 {
      ArrowCountZero(s[1..]);
      forall j | IsArrowAt(s[1..], j) ensures IsArrowAt(s, j + 1) { }
      forall j | IsArrowAt(s, j) && j > 0 ensures IsArrowAt(s[1..], j - 1) { }
    } else {
      assert forall j :: !IsArrowAt(s, j);
    }
  }

  /** White space is none of the characters of `\to` and no bracket. */
  lemma SpaceIsPlain(w: string)
    requires forall k :: 0 <= k < |w| ==> IsSpace(w[k])
    ensures forall k :: 0 <= k < |w| ==> w[k] !in "\\to()"
    ensures ArrowCount(w) == 0
    ensures '(' !in w && ')' !in w
  {
    assert forall k :: 0 <= k < |w| ==> w[k] !in "\\to()";
    ArrowCountNoBackslash(w);
  }

  /** Trimming removes no `\to`. */
  lemma ArrowCountTrim(s: string)
    ensures ArrowCount(Trim(s)) == ArrowCount(s)
  {
    TrimAround(s);
    ArrowCountAround(s[..TrimStart(s)], Trim(s), s[TrimEnd(s)..]);
  }

  /** White space around a string adds no `\to`. */
  lemma ArrowCountAround(lead: string, t: string, trail: string)
    requires forall k :: 0 <= k < |lead| ==> IsSpace(lead[k])
    requires forall k :: 0 <= k < |trail| ==> IsSpace(trail[k])
    ensures ArrowCount(lead + (t + trail)) == ArrowCount(t)
  {
    SpaceIsPlain(lead);
    SpaceIsPlain(trail);
    assert NoStraddle(lead, t + trail) by {
      if lead != [] { assert lead[|lead| - 1] !in "\\to()"; }
    }
    ArrowCountConcat(lead, t + trail);
    assert NoStraddle(t, trail) by {
      if trail != [] { assert trail[0] !in "\\to()"; }
    }
    ArrowCountConcat(t, trail);
  }

  /** The outcome of one bracket scan: where it stopped, if it did, and the
      value of the shared counter afterwards. */
  datatype Scan = Scan(cut: Option<nat>, brackets: int)

  /** The backward scan over `left` in `negateLeftSide`, resumed at `index`
      with counter `brackets`: `)` counts up, `(` counts down and stops the
      scan when the counter is no longer positive. */
  function ScanLeft(left: string, index: int, brackets: int): (r: Scan)
    requires -1 <= index < |left|
    ensures r.cut.Some? ==> r.cut.value <= index && left[r.cut.value] == '('
    decreases index + 1
  {
    if index < 0 then Scan(None, brackets)
    else if left[index] == ')' then ScanLeft(left, index - 1, brackets + 1)
    else if left[index] == '(' then
      if brackets - 1 <= 0 then Scan(Some(index), brackets - 1)
      else ScanLeft(left, index - 1, brackets - 1)
    else ScanLeft(left, index - 1, brackets)
  }

  /** The forward scan over `right`, resumed at `index` with counter
      `brackets`: `(` counts up, `)` counts down and stops the scan when the
      counter is no longer positive. */
  function ScanRight(right: string, index: nat, brackets: int): (r: Scan)
    requires index <= |right|
    ensures r.cut.Some? ==> index <= r.cut.value < |right| && right[r.cut.value] == ')'
    decreases |right| - index
  {
    if index == |right| then Scan(None, brackets)
    else if right[index] == '(' then ScanRight(right, index + 1, brackets + 1)
    else if right[index] == ')' then
      if brackets - 1 <= 0 then Scan(Some(index), brackets - 1)
      else ScanRight(right, index + 1, brackets - 1)
    else ScanRight(right, index + 1, brackets)
  }

  /** What one character adds to the bracket depth. */
  function Weight(c: char): int
  {
    if c == '(' then 1 else if c == ')' then -1 else 0
  }

  /** How many more `(` than `)` a string holds, counted character by
      character from the left. `ParenBalance` counts the same from the
      multiset (DepthIsBalance); the elimination lemmas use the multiset
      form, which follows concatenation directly, and the scan lemmas use
      this one, whose one-character steps keep the induction over slices
      cheap for the verifier. */
  function Depth(s: string): int
  {
    if s == [] then 0 else Depth(s[..|s| - 1]) + Weight(s[|s| - 1])
  }

  lemma {:induction false} DepthCons(c: char, t: string)
    ensures Depth([c] + t) == Weight(c) + Depth(t)
  {
    if t != [] {
      assert ([c] + t)[..|t|] == [c] + t[..|t| - 1];
      DepthCons(c, t[..|t| - 1]);
    }
  }

  lemma {:induction false} DepthIsBalance(s: string)
    ensures Depth(s) == ParenBalance(s)
  {
    if s != [] {
      var u, c := s[..|s| - 1], s[|s| - 1];
      DepthIsBalance(u);
      assert s == u + [c];
      assert multiset(s) == multiset(u) + multiset{c};
    }
  }

  lemma LeftStep(left: string, m: int, index: int)
    requires 0 <= m <= index < |left|
    ensures Depth(left[m..index + 1]) == Depth(left[m..index]) + Weight(left[index])
  {
    assert left[m..index + 1][..index - m] == left[m..index];
  }

  lemma RightStep(right: string, index: int, j: int)
    requires 0 <= index < j <= |right|
    ensures Depth(right[index..j]) == Weight(right[index]) + Depth(right[index + 1..j])
  {
    assert right[index..j] == [right[index]] + right[index + 1..j];
    DepthCons(right[index], right[index + 1..j]);
  }

  /** The backward scan, read as counting: resumed at `index` with counter
      `b`, the counter over `left[m..index + 1]` is `b` minus its depth.
      The scan stops at the first `(` (going left) where that counter is no
      longer positive, leaving the counter there; it runs off the start only
      when there is no such `(`, leaving the counter over all of
      `left[..index + 1]`. */
  lemma {:induction false} ScanLeftCounts(left: string, index: int, b: int)
    requires -1 <= index < |left|
    ensures var r := ScanLeft(left, index, b);
      match r.cut
      case Some(k) =>
        && left[k] == '(' && r.brackets == b - Depth(left[k..index + 1]) <= 0
        && forall m :: k < m <= index && left[m] == '(' ==> b - Depth(left[m..index + 1]) > 0
      case None =>
        && r.brackets == b - Depth(left[..index + 1])
        && forall m :: 0 <= m <= index && left[m] == '(' ==> b - Depth(left[m..index + 1]) > 0
    decreases index + 1
  {
    if index >= 0 {
      var c := left[index];
      if c == '(' && b - 1 <= 0 {
        LeftStep(left, index, index);
        assert left[index..index] == [];
      } else {
        var b' := b - Weight(c);
        assert ScanLeft(left, index, b) == ScanLeft(left, index - 1, b');
        ScanLeftCounts(left, index - 1, b');
        LeftSteps(left, index);
      }
    }
  }

  /** `LeftStep` at every start `m` up to `index`. */
  lemma LeftSteps(left: string, index: int)
    requires 0 <= index < |left|
    ensures forall m :: 0 <= m <= index ==>
      Depth(left[m..index + 1]) == Depth(left[m..index]) + Weight(left[index])
    ensures left[..index + 1] == left[0..index + 1] && left[..index] == left[0..index]
  {
    forall m | 0 <= m <= index
      ensures Depth(left[m..index + 1]) == Depth(left[m..index]) + Weight(left[index])
    {
      LeftStep(left, m, index);
    }
  }

  /** The forward scan, read as counting: resumed at `index` with counter
      `b`, the counter over `right[index..m + 1]` is `b` plus its depth.
      The scan stops at the first `)` where that counter is no longer
      positive, leaving the counter there; it runs off the end only when
      there is no such `)`, leaving the counter over all of `right[index..]`. */
  lemma {:induction false} ScanRightCounts(right: string, index: nat, b: int)
    requires index <= |right|
    ensures var r := ScanRight(right, index, b);
      match r.cut
      case Some(k) =>
        && right[k] == ')' && r.brackets == b + Depth(right[index..k + 1]) <= 0
        && forall m :: index <= m < k && right[m] == ')' ==> b + Depth(right[index..m + 1]) > 0
      case None =>
        && r.brackets == b + Depth(right[index..])
        && forall m :: index <= m < |right| && right[m] == ')' ==> b + Depth(right[index..m + 1]) > 0
    decreases |right| - index
  {
    if index < |right| {
      var c := right[index];
      if c == ')' && b - 1 <= 0 {
        RightStep(right, index, index + 1);
        assert right[index + 1..index + 1] == [];
      } else {
        ScanRightCounts(right, index + 1, b + Weight(c));
        ScanRightOn(right, index, b);
      }
    }
  }

  /** The step of `ScanRightCounts` past a character that does not stop the
      scan: the counts from `index + 1` on, with the counter moved by that
      character, give the counts from `index` on. */
  lemma ScanRightOn(right: string, index: nat, b: int)
    requires index < |right| && !(right[index] == ')' && b - 1 <= 0)
    requires var b' := b + Weight(right[index]);
      var r := ScanRight(right, index + 1, b');
      match r.cut
      case Some(k) =>
        && right[k] == ')' && r.brackets == b' + Depth(right[index + 1..k + 1]) <= 0
        && forall m :: index + 1 <= m < k && right[m] == ')' ==> b' + Depth(right[index + 1..m + 1]) > 0
      case None =>
        && r.brackets == b' + Depth(right[index + 1..])
        && forall m :: index + 1 <= m < |right| && right[m] == ')' ==> b' + Depth(right[index + 1..m + 1]) > 0
    ensures var r := ScanRight(right, index, b);
      match r.cut
      case Some(k) =>
        && right[k] == ')' && r.brackets == b + Depth(right[index..k + 1]) <= 0
        && forall m :: index <= m < k && right[m] == ')' ==> b + Depth(right[index..m + 1]) > 0
      case None =>
        && r.brackets == b + Depth(right[index..])
        && forall m :: index <= m < |right| && right[m] == ')' ==> b + Depth(right[index..m + 1]) > 0
  {
    assert ScanRight(right, index, b) == ScanRight(right, index + 1, b + Weight(right[index]));
    RightSteps(right, index);
  }

  /** `RightStep` at every end `j` after `index`. */
  lemma RightSteps(right: string, index: int)
    requires 0 <= index < |right|
    ensures forall j :: index < j <= |right| ==>
      Depth(right[index..j]) == Weight(right[index]) + Depth(right[index + 1..j])
    ensures Depth(right[index..]) == Weight(right[index]) + Depth(right[index + 1..])
  {
    forall j | index < j <= |right|
      ensures Depth(right[index..j]) == Weight(right[index]) + Depth(right[index + 1..j])
    {
      RightStep(right, index, j);
    }
    assert right[index..] == right[index..|right|];
    assert right[index + 1..] == right[index + 1..|right|];
  }

  /** The four parts `negateLeftSide` cuts its sides into. */
  datatype Operands = Operands(missingLeft: string, left: string, right: string, missingRight: string)

  /** The cut of `negateLeftSide`. The left scan runs first and the right scan
      continues with the counter it left behind. The prefix before the
      boundary `(` and the suffix from the boundary `)` are copied verbatim;
      the boundary `(` opens the left operand and the boundary `)` opens the
      right remainder. */
  function SplitOperands(left: string, right: string): (o: Operands)
    ensures o.missingLeft + o.left == left
    ensures o.left == left || (|o.left| > 0 && o.left[0] == '(')
    ensures o.right + o.missingRight == right
    ensures o.right == right || (|o.missingRight| > 0 && o.missingRight[0] == ')')
  {
    var l := ScanLeft(left, |left| - 1, 0);
    var r := ScanRight(right, 0, l.brackets);
    var missingLeft := if l.cut.Some? then left[..l.cut.value] else "";
    var leftOperand := if l.cut.Some? then left[l.cut.value..] else left;
    var rightOperand := if r.cut.Some? then right[..r.cut.value] else right;
    var missingRight := if r.cut.Some? then right[r.cut.value..] else "";
    assert l.cut.Some? ==> left == left[..l.cut.value] + left[l.cut.value..];
    assert r.cut.Some? ==> right == right[..r.cut.value] + right[r.cut.value..];
    Operands(missingLeft, leftOperand, rightOperand, missingRight)
  }

  /** Where `negateLeftSide` cuts. The left side is cut at the first `(`
      from its end whose suffix has no more `)` than `(` (no cut when there
      is none). The counter then stands at minus the depth of the kept left
      operand, and the right side is cut at the first `)` at which that
      counter plus the depth of the prefix read so far is no longer positive
      (no cut when there is none). */
  lemma SplitOperandsCounts(left: string, right: string)
    ensures var o := SplitOperands(left, right);
      var k := |o.missingLeft|;
      && (|| (o.left == left && forall m :: 0 <= m < |left| && left[m] == '(' ==> Depth(left[m..]) < 0)
          || (&& k < |left| && left[k] == '(' && Depth(left[k..]) >= 0
              && forall m :: k < m < |left| && left[m] == '(' ==> Depth(left[m..]) < 0))
    ensures var o := SplitOperands(left, right);
      var carried := -Depth(o.left);
      || (o.right == right && forall m :: 0 <= m < |right| && right[m] == ')' ==> carried + Depth(right[..m + 1]) > 0)
      || (&& |o.right| < |right| && right[|o.right|] == ')' && carried + Depth(right[..|o.right| + 1]) <= 0
          && forall m :: 0 <= m < |o.right| && right[m] == ')' ==> carried + Depth(right[..m + 1]) > 0)
  {
    LeftCut(left);
    RightCut(right, SplitOperands(left, right).left, ScanLeft(left, |left| - 1, 0).brackets);
  }

  lemma LeftCut(left: string)
    ensures var l := ScanLeft(left, |left| - 1, 0);
      var o := SplitOperands(left, "");
      && l.brackets == -Depth(o.left)
      && (|| (o.left == left && forall m :: 0 <= m < |left| && left[m] == '(' ==> Depth(left[m..]) < 0)
          || (&& |o.missingLeft| < |left| && left[|o.missingLeft|] == '(' && Depth(left[|o.missingLeft|..]) >= 0
              && forall m :: |o.missingLeft| < m < |left| && left[m] == '(' ==> Depth(left[m..]) < 0))
  {
    var l := ScanLeft(left, |left| - 1, 0);
    ScanLeftCounts(left, |left| - 1, 0);
    match l.cut {
      case None =>
        assert left[..|left|] == left;
      case Some(k) =>
    }
  }

  lemma RightCut(right: string, kept: string, b: int)
    requires b == -Depth(kept)
    ensures var r := ScanRight(right, 0, b);
      var rightOperand := if r.cut.Some? then right[..r.cut.value] else right;
      || (rightOperand == right && forall m :: 0 <= m < |right| && right[m] == ')' ==> b + Depth(right[..m + 1]) > 0)
      || (&& |rightOperand| < |right| && right[|rightOperand|] == ')' && b + Depth(right[..|rightOperand| + 1]) <= 0
          && forall m :: 0 <= m < |rightOperand| && right[m] == ')' ==> b + Depth(right[..m + 1]) > 0)
  {
    var r := ScanRight(right, 0, b);
    ScanRightCounts(right, 0, b);
    forall j | 0 <= j <= |right| ensures right[0..j] == right[..j] { }
    match r.cut {
      case None =>
      case Some(k) =>
        assert |right[..k]| == k;
    }
  }

  /** The string `negateLeftSide` returns. */
  function Rewrite(left: string, right: string): string
  {
    var o := SplitOperands(left, right);
    o.missingLeft + "(!(" + o.left + ") || (" + o.right + "))" + o.missingRight
  }

  /** `negateLeftSide`: two index loops sharing the counter `brackets`. */
  method NegateLeftSide(left0: string, right0: string) returns (r: string)
    ensures r == Rewrite(left0, right0)
  {
    var left, right := left0, right0;
    var missingLeftPart, missingRightPart := "", "";
    var brackets := 0;
    var index := |left| - 1;
    while index >= 0
      invariant -1 <= index < |left0|
      invariant left == left0 && missingLeftPart == ""
      invariant ScanLeft(left0, index, brackets) == ScanLeft(left0, |left0| - 1, 0)
    {
      if left[index] == ')' {
        brackets := brackets + 1;
      } else if left[index] == '(' {
        brackets := brackets - 1;
        if brackets <= 0 {
          missingLeftPart := left[..index];
          left := left[index..];
          break;
        }
      }
      index := index - 1;
    }
    ghost var l := ScanLeft(left0, |left0| - 1, 0);
    assert l.brackets == brackets;
    assert missingLeftPart + left == left0;
    assert l.cut.Some? ==> missingLeftPart == left0[..l.cut.value] && left == left0[l.cut.value..];
    assert l.cut.None? ==> missingLeftPart == "" && left == left0;
    var j := 0;
    while j < |right|
      invariant 0 <= j <= |right0|
      invariant right == right0 && missingRightPart == ""
      invariant ScanRight(right0, j, brackets) == ScanRight(right0, 0, l.brackets)
    {
      if right[j] == '(' {
        brackets := brackets + 1;
      } else if right[j] == ')' {
        brackets := brackets - 1;
        if brackets <= 0 {
          missingRightPart := right[j..];
          right := right[..j];
          break;
        }
      }
      j := j + 1;
    }
    r := missingLeftPart + "(!(" + left + ") || (" + right + "))" + missingRightPart;
  }

  /** One round of `processExpression` at the `\to` found at `i`: trim
      both sides and rewrite. */
  function Round(s: string, i: int): string
    requires IsArrowAt(s, i)
  {
    Rewrite(Trim(s[..i]), Trim(s[i + 3..]))
  }

  /** The three characters of `\to` between the two sides. */
  lemma SplitAtArrow(s: string, i: int)
    requires IsArrowAt(s, i)
    ensures s == s[..i] + "\\to" + s[i + 3..]
  {
    assert s[i..i + 3] == "\\to";
    assert s == s[..i] + s[i..i + 3] + s[i + 3..];
  }

  /** The rewrite keeps every `\to` of its sides and adds none. */
  lemma RewriteArrowCount(left: string, right: string)
    ensures ArrowCount(Rewrite(left, right)) == ArrowCount(left) + ArrowCount(right)
  {
    var o := SplitOperands(left, right);
    var x2 := o.missingLeft + "(!(";
    var x3 := x2 + o.left;
    var x4 := x3 + ") || (";
    var x5 := x4 + o.right;
    var x6 := x5 + "))";
    assert Rewrite(left, right) == x6 + o.missingRight;
    ArrowCountNoBackslash("(!(");
    ArrowCountNoBackslash(") || (");
    ArrowCountNoBackslash("))");
    ArrowCountConcat(o.missingLeft, "(!(");
    assert x2[|x2| - 1] == '(';
    ArrowCountConcat(x2, o.left);
    ArrowCountConcat(x3, ") || (");
    assert x4[|x4| - 1] == '(';
    ArrowCountConcat(x4, o.right);
    ArrowCountConcat(x5, "))");
    assert x6[|x6| - 1] == ')';
    ArrowCountConcat(x6, o.missingRight);
    ArrowCountConcat(o.missingLeft, o.left);
    ArrowCountConcat(o.right, o.missingRight);
  }

  /** The rewrite keeps every character of its sides and adds exactly the
      punctuation `(!() || ())`: three `(` and three `)`. */
  lemma RewriteChars(left: string, right: string)
    ensures multiset(Rewrite(left, right)) == multiset(left) + multiset(right)
              + multiset{'(', '!', '(', ')', ' ', '|', '|', ' ', '(', ')', ')'}
  {
    var o := SplitOperands(left, right);
    PunctuationChars();
    MultisetOfParts(o.missingLeft, "(!(", o.left, ") || (", o.right, "))", o.missingRight);
  }

  lemma MultisetOfParts(a: string, p: string, b: string, q: string, c: string, r: string, d: string)
    ensures multiset(a + p + b + q + c + r + d)
         == multiset(a + b) + multiset(c + d) + (multiset(p) + multiset(q) + multiset(r))
  {
  }

  /** Hence the rewrite adds exactly three `(` and three `)`. */
  lemma RewriteParens(left: string, right: string)
    ensures multiset(Rewrite(left, right))['('] == multiset(left)['('] + multiset(right)['('] + 3
    ensures multiset(Rewrite(left, right))[')'] == multiset(left)[')'] + multiset(right)[')'] + 3
  {
    RewriteChars(left, right);
    var m := multiset{'(', '!', '(', ')', ' ', '|', '|', ' ', '(', ')', ')'};
    assert m['('] == 3 && m[')'] == 3;
  }

  lemma PunctuationChars()
    ensures multiset("(!(") + multiset(") || (") + multiset("))")
         == multiset{'(', '!', '(', ')', ' ', '|', '|', ' ', '(', ')', ')'}
  {
  }

  /** Each round removes exactly one `\to`. */
  lemma RoundArrowCount(s: string, i: int)
    requires IsArrowAt(s, i)
    ensures ArrowCount(Round(s, i)) == ArrowCount(s) - 1
  {
    var a, b := s[..i], s[i + 3..];
    SplitAtArrow(s, i);
    assert s == a + ("\\to" + b);
    ArrowCountConcat(a, "\\to" + b);
    ArrowCountConcat("\\to", b);
    ArrowCountTrim(a);
    ArrowCountTrim(b);
    RewriteArrowCount(Trim(a), Trim(b));
  }

  /** White space holds no bracket, so trimming keeps the bracket counts. */
  lemma TrimParens(s: string)
    ensures multiset(Trim(s))['('] == multiset(s)['(']
    ensures multiset(Trim(s))[')'] == multiset(s)[')']
  {
    ParensAround(s[..TrimStart(s)], Trim(s), s[TrimEnd(s)..]);
  }

  lemma ParensAround(lead: string, t: string, trail: string)
    requires forall k :: 0 <= k < |lead| ==> IsSpace(lead[k])
    requires forall k :: 0 <= k < |trail| ==> IsSpace(trail[k])
    ensures multiset(lead + t + trail)['('] == multiset(t)['(']
    ensures multiset(lead + t + trail)[')'] == multiset(t)[')']
  {
    SpaceIsPlain(lead);
    SpaceIsPlain(trail);
    assert multiset(lead + t + trail) == multiset(lead) + multiset(t) + multiset(trail);
  }

  /** `\to` holds no bracket. */
  lemma ArrowHasNoParens(a: string, b: string)
    ensures multiset(a + "\\to" + b)['('] == multiset(a)['('] + multiset(b)['(']
    ensures multiset(a + "\\to" + b)[')'] == multiset(a)[')'] + multiset(b)[')']
  {
    var m := multiset("\\to");
    assert m == multiset{'\\', 't', 'o'};
    assert multiset(a + "\\to" + b) == multiset(a) + m + multiset(b);
  }

  /** Each round adds exactly three `(` and three `)`. */
  lemma RoundParens(s: string, i: int)
    requires IsArrowAt(s, i)
    ensures multiset(Round(s, i))['('] == multiset(s)['('] + 3
    ensures multiset(Round(s, i))[')'] == multiset(s)[')'] + 3
  {
    var a, b := s[..i], s[i + 3..];
    SplitAtArrow(s, i);
    TrimParens(a);
    TrimParens(b);
    RewriteParens(Trim(a), Trim(b));
    ArrowHasNoParens(a, b);
  }

  /** How many more `(` than `)` a string holds. */
  function ParenBalance(s: string): int
  {
    multiset(s)['('] as int - multiset(s)[')'] as int
  }

  /** `processExpression`: rounds at the last `\to` until none is left. The
      result holds no `\to`, has the bracket balance of the input, and an
      input without `\to` comes back unchanged, untrimmed. */
  function EliminateImplications(s: string): (r: string)
    ensures !HasArrow(r)
    ensures ParenBalance(r) == ParenBalance(s)
    ensures !HasArrow(s) ==> r == s
    decreases ArrowCount(s)
  {
    var i := LastArrow(s);
    if i == -1 then s
    else
      RoundArrowCount(s, i);
      RoundParens(s, i);
      EliminateImplications(Round(s, i))
  }

  /** One round at the last `\to`, if there is one. */
  function NextRound(s: string): string
  {
    var i := LastArrow(s);
    if i == -1 then s else Round(s, i)
  }

  /** `k` rounds of the loop body. */
  function Rounds(s: string, k: nat): string
    decreases k
  {
    if k == 0 then s else Rounds(NextRound(s), k - 1)
  }

  /** The loop runs exactly as many rounds as the input has `\to`: each
      round removes one, and after the last the result is reached. */
  lemma {:induction false} EliminationRounds(s: string)
    ensures EliminateImplications(s) == Rounds(s, ArrowCount(s))
    decreases ArrowCount(s)
  {
    var i := LastArrow(s);
    ArrowCountZero(s);
    if i != -1 {
      RoundArrowCount(s, i);
      EliminationRounds(Round(s, i));
      RoundsCase(s, i);
    }
  }

  lemma RoundsCase(s: string, i: int)
    requires i == LastArrow(s) && i != -1
    requires EliminateImplications(Round(s, i)) == Rounds(Round(s, i), ArrowCount(Round(s, i)))
    ensures EliminateImplications(s) == Rounds(s, ArrowCount(s))
  {
    var r, k := Round(s, i), ArrowCount(s);
    EliminateRound(s, i);
    RoundArrowCount(s, i);
    assert NextRound(s) == r;
    RoundsStep(s, k);
    assert Rounds(s, k) == Rounds(r, k - 1);
  }

  lemma RoundsStep(s: string, k: nat)
    requires k > 0
    ensures Rounds(s, k) == Rounds(NextRound(s), k - 1)
  {
  }

  /** One pass of the loop body, as `EliminateImplications` sees it. */
  lemma EliminateRound(s: string, i: int)
    requires i == LastArrow(s) && i != -1
    ensures EliminateImplications(s) == EliminateImplications(Round(s, i))
    ensures ArrowCount(Round(s, i)) < ArrowCount(s)
  {
    RoundArrowCount(s, i);
  }

  /** White space around `t` holds no other character. */
  lemma CountAround(lead: string, t: string, trail: string, c: char)
    requires forall k :: 0 <= k < |lead| ==> IsSpace(lead[k])
    requires forall k :: 0 <= k < |trail| ==> IsSpace(trail[k])
    requires !IsSpace(c)
    ensures multiset(lead + t + trail)[c] == multiset(t)[c]
  {
    assert c !in lead && c !in trail;
    assert multiset(lead + t + trail) == multiset(lead) + multiset(t) + multiset(trail);
  }

  /** Trimming keeps every character that is not white space. */
  lemma TrimCount(s: string, c: char)
    requires !IsSpace(c)
    ensures multiset(Trim(s))[c] == multiset(s)[c]
  {
    CountAround(s[..TrimStart(s)], Trim(s), s[TrimEnd(s)..], c);
  }

  /** A round keeps every character other than white space, those of `\to`
      and the punctuation it adds. */
  lemma RoundCount(s: string, i: int, c: char)
    requires IsArrowAt(s, i) && !IsSpace(c) && c !in "\\to" && c !in "(!) |"
    ensures multiset(Round(s, i))[c] == multiset(s)[c]
  {
    var a, b := s[..i], s[i + 3..];
    SplitAtArrow(s, i);
    TrimCount(a, c);
    TrimCount(b, c);
    RewriteChars(Trim(a), Trim(b));
    ArrowChars(a, b, c);
    PunctuationAvoids(c);
  }

  lemma ArrowChars(a: string, b: string, c: char)
    requires c !in "\\to"
    ensures multiset(a + "\\to" + b)[c] == multiset(a)[c] + multiset(b)[c]
  {
    assert multiset(a + "\\to" + b) == multiset(a) + multiset("\\to") + multiset(b);
  }

  lemma PunctuationAvoids(c: char)
    requires c !in "(!) |"
    ensures multiset{'(', '!', '(', ')', ' ', '|', '|', ' ', '(', ')', ')'}[c] == 0
  {
  }

  /** Eliminating implications keeps every character other than white
      space, those of `\to` and the punctuation the rounds add: in
      particular every variable letter except `t` and `o`. */
  lemma {:induction false} EliminateKeepsCount(s: string, c: char)
    requires !IsSpace(c) && c !in "\\to" && c !in "(!) |"
    ensures multiset(EliminateImplications(s))[c] == multiset(s)[c]
    decreases ArrowCount(s)
  {
    var i := LastArrow(s);
    if i != -1 {
      EliminateRound(s, i);
      RoundCount(s, i, c);
      EliminateKeepsCount(Round(s, i), c);
    }
  }

  /** A round removes exactly one each of `\\`, `t` and `o`: those of the
      `\\to` it rewrites. */
  lemma RoundArrowChars(s: string, i: int, c: char)
    requires IsArrowAt(s, i) && c in "\\to"
    ensures multiset(Round(s, i))[c] == multiset(s)[c] - 1
  {
    var a, b := s[..i], s[i + 3..];
    ArrowLetterPlain(c);
    SplitAtArrow(s, i);
    TrimCount(a, c);
    TrimCount(b, c);
    RewriteChars(Trim(a), Trim(b));
    ArrowCharsHit(a, b, c);
    PunctuationAvoids(c);
  }

  lemma ArrowLetterPlain(c: char)
    requires c in "\\to"
    ensures !IsSpace(c) && c !in "(!) |"
  {
  }

  lemma ArrowCharsHit(a: string, b: string, c: char)
    requires c in "\\to"
    ensures multiset(a + "\\to" + b)[c] == multiset(a)[c] + multiset(b)[c] + 1
  {
    assert multiset(a + "\\to" + b) == multiset(a) + multiset("\\to") + multiset(b);
  }

  /** Eliminating implications removes one `\\`, one `t` and one `o` per
      `\\to` of the input, and no other of them. */
  lemma {:induction false} EliminateArrowChars(s: string, c: char)
    requires c in "\\to"
    ensures multiset(EliminateImplications(s))[c] == multiset(s)[c] - ArrowCount(s)
    decreases ArrowCount(s)
  {
    var i := LastArrow(s);
    if i != -1 {
      EliminateRound(s, i);
      RoundArrowChars(s, i, c);
      RoundArrowCount(s, i);
      EliminateArrowChars(Round(s, i), c);
    } else {
      ArrowCountZero(s);
    }
  }

  /** `replaceImplication`: the `while (true)` loop of `processExpression`,
      which reassigns `expression` until `lastIndexOf` finds no `\to`. */
  method ReplaceImplication(expr: string) returns (r: string)
    ensures r == EliminateImplications(expr)
  {
    var expression := expr;
    while true
      invariant EliminateImplications(expression) == EliminateImplications(expr)
      decreases ArrowCount(expression)
    {
      var implicationIndex := LastArrow(expression);
      if implicationIndex == -1 {
        return expression;
      }
      var left := Trim(expression[..implicationIndex]);
      var right := Trim(expression[implicationIndex + 3..]);
      EliminateRound(expression, implicationIndex);
      expression := NegateLeftSide(left, right);
    }
  }

  /** When neither trimmed side holds a backslash, one round is the last. */
  lemma EliminateLastRound(s: string, i: int)
    requires i == LastArrow(s) && i != -1
    requires '\\' !in Trim(s[..i]) && '\\' !in Trim(s[i + 3..])
    ensures EliminateImplications(s) == Round(s, i)
  {
    ArrowCountNoBackslash(Trim(s[..i]));
    ArrowCountNoBackslash(Trim(s[i + 3..]));
    RewriteArrowCount(Trim(s[..i]), Trim(s[i + 3..]));
    ArrowCountZero(Round(s, i));
  }

  /** The single implication of the documentation. */
  lemma ExampleSimple()
    ensures EliminateImplications("p \\to q") == "(!(p) || (q))"
  {
    var s := "p \\to q";
    SimpleArrow();
    assert s[..2] == "p " && s[5..] == " q";
    SimpleSides();
    SimpleRewrite();
    EliminateLastRound(s, 2);
  }

  lemma SimpleArrow()
    ensures LastArrow("p \\to q") == 2
  {
    var s := "p \\to q";
    assert LastArrowFrom(s, 2) == 2;
  }

  lemma SimpleSides()
    ensures Trim("p ") == "p" && Trim(" q") == "q"
    ensures '\\' !in "p" && '\\' !in "q"
  {
    assert SpaceEnd("p ", 0) == 0 && SpaceStart("p ", 0, 2) == 1;
    assert SpaceEnd(" q", 0) == 1 && SpaceStart(" q", 1, 2) == 2;
  }

  lemma SimpleRewrite()
    ensures Rewrite("p", "q") == "(!(p) || (q))"
  {
    assert ScanLeft("p", 0, 0) == Scan(None, 0);
    assert ScanRight("q", 0, 0) == Scan(None, 0);
  }

  /** A bracketed right operand is cut at its own `)`: the counter starts
      at 0, the `(` raises it to 1 and the `)` brings it back to 0. */
  lemma ExampleBracketedRight()
    ensures SplitOperands("p", "(q)") == Operands("", "p", "(q", ")")
    ensures Rewrite("p", "(q)") == "(!(p) || ((q)))"
  {
    assert ScanLeft("p", 0, 0) == Scan(None, 0);
    assert ScanRight("(q)", 2, 1) == Scan(Some(2), 0);
    assert ScanRight("(q)", 0, 0) == Scan(Some(2), 0);
  }

  /** Inside brackets the boundary `(` is kept in the left operand and the
      counter carried over stops the right scan at the closing `)`, which
      negates the whole disjunction: `a && (p \to q)` does not mean
      `a && (!p || q)` any more. */
  lemma ExampleInsideBrackets()
    ensures EliminateImplications("a && (p \\to q)") == "a && (!((p) || (q)))"
  {
    var s := "a && (p \\to q)";
    BracketsArrow();
    assert s[..8] == "a && (p " && s[11..] == " q)";
    BracketsSides();
    BracketsRewrite();
    EliminateLastRound(s, 8);
  }

  lemma BracketsArrow()
    ensures LastArrow("a && (p \\to q)") == 8
  {
    var s := "a && (p \\to q)";
    assert LastArrowFrom(s, 8) == 8;
    assert LastArrowFrom(s, 10) == 8;
  }

  lemma BracketsSides()
    ensures Trim("a && (p ") == "a && (p" && Trim(" q)") == "q)"
    ensures '\\' !in "a && (p" && '\\' !in "q)"
  {
    assert SpaceEnd("a && (p ", 0) == 0;
    assert SpaceStart("a && (p ", 0, 8) == 7;
    assert SpaceEnd(" q)", 0) == 1 && SpaceStart(" q)", 1, 3) == 3;
  }

  lemma BracketsRewrite()
    ensures Rewrite("a && (p", "q)") == "a && (!((p) || (q)))"
  {
    var left := "a && (p";
    assert ScanLeft(left, 6, 0) == Scan(Some(5), -1);
    assert ScanRight("q)", 0, -1) == Scan(Some(1), -2);
    assert SplitOperands(left, "q)") == Operands("a && ", "(p", "q", ")");
  }
}
