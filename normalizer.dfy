/** The notation normaliser: `replaceMultiple` applied to the fixed
    `replacements` table, turning LaTeX connectives, braces and constants
    into the operator syntax of the evaluator (main.ts:49-73). */
module Normalizer {

  /** `key` occurs in `s` starting at position `i`. */
  predicate OccursAt(s: string, key: string, i: int)
  {
    0 <= i && i + |key| <= |s| && s[i..i + |key|] == key
  }

  ghost predicate Contains(s: string, key: string)
  {
    exists i :: OccursAt(s, key, i)
  }

  /** `s.split("").join(value)`: `value` between every two characters. */
  function Intersperse(s: string, value: string): string
  {
    if |s| <= 1 then s else [s[0]] + value + Intersperse(s[1..], value)
  }

  /** `s.split(key).join(value)`: every occurrence of `key`, found from left
      to right without overlaps, is replaced by `value`. */
  function ReplaceAll(s: string, key: string, value: string): string
    decreases |s|
  {
    if key == [] then Intersperse(s, value)
    else if |s| < |key| then s
    else if s[..|key|] == key then value + ReplaceAll(s[|key|..], key, value)
    else [s[0]] + ReplaceAll(s[1..], key, value)
  }

  /** The replacement pairs applied one after the other, in table order:
      each pair sees the output of the pairs before it. */
  function ApplyAll(s: string, table: seq<(string, string)>): string
    decreases |table|
  {
    if table == [] then s else ApplyAll(ReplaceAll(s, table[0].0, table[0].1), table[1..])
  }

  /** The `replacements` table, in its insertion order. */
  const Replacements: seq<(string, string)> := [
    ("\\text", ""),
    ("\\vee", "||"),
    ("\\lor", "||"),
    ("\\wedge", "&&"),
    ("\\land", "&&"),
    ("{", "("),
    ("}", ")"),
    ("\\overline", "!"),
    ("\\neg", "!"),
    ("True", "1"),
    ("T", "1"),
    ("true", "1"),
    ("False", "0"),
    ("F", "0"),
    ("false", "0")
  ]

  function Normalize(s: string): string
  {
    ApplyAll(s, Replacements)
  }

  /** `replaceMultiple`: reassigns `result` once per table entry. */
  method ReplaceMultiple(input: string, replacements: seq<(string, string)>) returns (result: string)
    ensures result == ApplyAll(input, replacements)
  {
    result := input;
    var i := 0;
    while i < |replacements|
      invariant 0 <= i <= |replacements|
      invariant ApplyAll(result, replacements[i..]) == ApplyAll(input, replacements)
    {
      assert replacements[i..][1..] == replacements[i + 1..];
      result := ReplaceAll(result, replacements[i].0, replacements[i].1);
      i := i + 1;
    }
    assert replacements[i..] == [];
  }

  /** A key that does not occur leaves the string as it is. */
  lemma {:induction false} ReplaceAllAbsent(s: string, key: string, value: string)
    requires key != [] && !Contains(s, key)
    ensures ReplaceAll(s, key, value) == s
    decreases |s|
  {
    if |s| >= |key| {
      assert !OccursAt(s, key, 0);
      forall i | OccursAt(s[1..], key, i) ensures OccursAt(s, key, i + 1) {
        assert s[1..][i..i + |key|] == s[i + 1..i + 1 + |key|];
      }
      ReplaceAllAbsent(s[1..], key, value);
    }
  }

  /** A key with a character that `s` lacks does not occur in `s`. */
  lemma NotContainsChar(s: string, key: string, j: nat)
    requires j < |key| && key[j] !in s
    ensures !Contains(s, key)
  {
  }

  /** Every character of the result comes from `s` or from `value`, and every
      character of `s` that is not in `key` survives. */
  lemma {:induction false} ReplaceAllChars(s: string, key: string, value: string, c: char)
    requires key != []
    ensures c in ReplaceAll(s, key, value) ==> c in s || c in value
    ensures c in s && c !in key ==> c in ReplaceAll(s, key, value)
    decreases |s|
  {
    if |s| >= |key| {
      if s[..|key|] == key {
        ReplaceAllChars(s[|key|..], key, value, c);
        if c in s && c !in key {
          var i :| 0 <= i < |s| && s[i] == c;
          if i >= |key| {
            assert s[|key|..][i - |key|] == c;
          }
        }
        if c in s[|key|..] {
          var i :| 0 <= i < |s| - |key| && s[|key|..][i] == c;
          assert s[|key| + i] == c;
        }
      } else {
        ReplaceAllChars(s[1..], key, value, c);
        if c in s && c !in key && c != s[0] {
          var i :| 0 <= i < |s| && s[i] == c;
          assert s[1..][i - 1] == c;
        }
        if c in s[1..] {
          var i :| 0 <= i < |s| - 1 && s[1..][i] == c;
          assert s[i + 1] == c;
        }
      }
    }
  }

  /** Replacing a one-character key by a value without that character
      removes the character altogether. */
  lemma {:induction false} ReplaceAllRemovesChar(s: string, c: char, value: string)
    requires c !in value
    ensures c !in ReplaceAll(s, [c], value)
    decreases |s|
  {
    if |s| >= 1 {
      ReplaceAllRemovesChar(s[1..], c, value);
      if s[..1] == [c] {
        assert s[1..] == s[|[c]|..];
      } else {
        assert s[0] != c by { assert s[..1] == [s[0]]; }
      }
    }
  }

  /** Applying two tables one after the other is applying their
      concatenation: the rules act strictly in sequence. */
  lemma {:induction false} ApplyAllAppend(s: string, first: seq<(string, string)>, second: seq<(string, string)>)
    ensures ApplyAll(s, first + second) == ApplyAll(ApplyAll(s, first), second)
    decreases |first|
  {
    if first == [] {
      assert first + second == second;
    } else {
      assert (first + second)[0] == first[0];
      assert (first + second)[1..] == first[1..] + second;
      ApplyAllAppend(ReplaceAll(s, first[0].0, first[0].1), first[1..], second);
    }
  }

  /** A string in which no key occurs passes through unchanged. */
  lemma {:induction false} ApplyAllNoKeys(s: string, table: seq<(string, string)>)
    requires forall i :: 0 <= i < |table| ==> table[i].0 != [] && !Contains(s, table[i].0)
    ensures ApplyAll(s, table) == s
    decreases |table|
  {
    if table != [] {
      ReplaceAllAbsent(s, table[0].0, table[0].1);
      ApplyAllNoKeys(s, table[1..]);
    }
  }

  /** A character that is absent, and that no later rule mentions, stays absent. */
  lemma {:induction false} ApplyAllKeepsAbsent(s: string, table: seq<(string, string)>, c: char)
    requires c !in s
    requires forall i :: 0 <= i < |table| ==> table[i].0 != [] && c !in table[i].1
    ensures c !in ApplyAll(s, table)
    decreases |table|
  {
    if table != [] {
      ReplaceAllChars(s, table[0].0, table[0].1, c);
      ApplyAllKeepsAbsent(ReplaceAll(s, table[0].0, table[0].1), table[1..], c);
    }
  }

  /** A character that is the whole key of some rule, and that neither that
      rule nor any later one writes back, is absent from the result. */
  lemma {:induction false} ApplyAllRemovesChar(s: string, table: seq<(string, string)>, c: char, k: nat)
    requires k < |table| && table[k].0 == [c]
    requires forall i :: 0 <= i < |table| ==> table[i].0 != []
    requires forall i :: k <= i < |table| ==> c !in table[i].1
    ensures c !in ApplyAll(s, table)
    decreases k
  {
    var t := ReplaceAll(s, table[0].0, table[0].1);
    if k == 0 {
      ReplaceAllRemovesChar(s, c, table[0].1);
      ApplyAllKeepsAbsent(t, table[1..], c);
    } else {
      ApplyAllRemovesChar(t, table[1..], c, k - 1);
    }
  }

  /** Every key of the table is non-empty, and no value writes a brace or
      an upper-case letter. */
  lemma ReplacementsShape()
    ensures forall i :: 0 <= i < |Replacements| ==> Replacements[i].0 != []
    ensures forall i :: 0 <= i < |Replacements| ==>
      '{' !in Replacements[i].1 && '}' !in Replacements[i].1 && 'T' !in Replacements[i].1 && 'F' !in Replacements[i].1
  {
    forall i | 0 <= i < |Replacements|
      ensures Replacements[i].1 in ["", "||", "&&", "(", ")", "!", "1", "0"]
    {
    }
  }

  /** Text in which no key of the table occurs is already normal: normalising
      it changes nothing, and normalising twice is normalising once. */
  lemma NormalizeKeyFree(s: string)
    requires forall i :: 0 <= i < |Replacements| ==> !Contains(s, Replacements[i].0)
    ensures Normalize(s) == s
    ensures Normalize(Normalize(s)) == Normalize(s)
  {
    ReplacementsShape();
    ApplyAllNoKeys(s, Replacements);
  }

  /** A brace or constant letter that is a whole key is gone after
      normalisation. */
  lemma NormalizeRemovesKey(s: string, c: char, k: nat)
    requires c in "{}TF" && k < |Replacements| && Replacements[k].0 == [c]
    ensures c !in Normalize(s)
  {
    ReplacementsShape();
    ApplyAllRemovesChar(s, Replacements, c, k);
  }

  /** Where the table holds the keys `{`, `}`, `T` and `F`. */
  lemma BraceAndConstantKeys()
    ensures |Replacements| == 15
    ensures Replacements[5].0 == "{" && Replacements[6].0 == "}"
    ensures Replacements[10].0 == "T" && Replacements[13].0 == "F"
  {
  }

  /** After normalisation no brace and no upper-case constant letter is left:
      `{`, `}`, `T` and `F` are each a whole key, and no value writes them
      back. */
  lemma NormalizeRemovesBracesAndConstants(s: string)
    ensures '{' !in Normalize(s) && '}' !in Normalize(s)
    ensures 'T' !in Normalize(s) && 'F' !in Normalize(s)
  {
    BraceAndConstantKeys();
    NormalizeRemovesKey(s, '{', 5);
    NormalizeRemovesKey(s, '}', 6);
    NormalizeRemovesKey(s, 'T', 10);
    NormalizeRemovesKey(s, 'F', 13);
  }

  /** No rule after the first matches in `\text`, so the rest of the table
      leaves it (and the empty string) alone. */
  lemma LaterRulesKeepText()
    ensures ApplyAll("\\text", Replacements[1..]) == "\\text"
    ensures ApplyAll("", Replacements[1..]) == ""
  {
    var rest := Replacements[1..];
    assert |rest| == 14;
    var t := "\\text";
    forall i | 0 <= i < |rest| ensures rest[i].0 != [] && !Contains(t, rest[i].0) {
      if i == 0 {
        assert rest[i].0 == "\\vee";
        NotContainsChar(t, "\\vee", 1);
      } else if i == 1 {
        assert rest[i].0 == "\\lor";
        NotContainsChar(t, "\\lor", 1);
      } else if i == 2 {
        assert rest[i].0 == "\\wedge";
        NotContainsChar(t, "\\wedge", 1);
      } else if i == 3 {
        assert rest[i].0 == "\\land";
        NotContainsChar(t, "\\land", 1);
      } else if i == 4 {
        assert rest[i].0 == "{";
        NotContainsChar(t, "{", 0);
      } else if i == 5 {
        assert rest[i].0 == "}";
        NotContainsChar(t, "}", 0);
      } else if i == 6 {
        assert rest[i].0 == "\\overline";
        NotContainsChar(t, "\\overline", 1);
      } else if i == 7 {
        assert rest[i].0 == "\\neg";
        NotContainsChar(t, "\\neg", 1);
      } else if i == 8 {
        assert rest[i].0 == "True";
        NotContainsChar(t, "True", 0);
      } else if i == 9 {
        assert rest[i].0 == "T";
        NotContainsChar(t, "T", 0);
      } else if i == 10 {
        assert rest[i].0 == "true";
        NotContainsChar(t, "true", 1);
      } else if i == 11 {
        assert rest[i].0 == "False";
        NotContainsChar(t, "False", 0);
      } else if i == 12 {
        assert rest[i].0 == "F";
        NotContainsChar(t, "F", 0);
      } else {
        assert rest[i].0 == "false";
        NotContainsChar(t, "false", 0);
      }
    }
    ApplyAllNoKeys("\\text", rest);
    ApplyAllNoKeys("", rest);
  }

  /** The constant `T` becomes `1`: only its own rule matches it. */
  lemma NormalizeConstant()
    ensures Normalize("T") == "1"
  {
    assert Replacements == Replacements[..10] + Replacements[10..];
    ApplyAllAppend("T", Replacements[..10], Replacements[10..]);
    RulesBeforeTKeepT();
    RulesFromTGiveOne();
  }

  lemma RulesFromTGiveOne()
    ensures ApplyAll("T", Replacements[10..]) == "1"
  {
    var rest := Replacements[10..];
    assert rest[0] == ("T", "1") && rest[1..] == Replacements[11..];
    ReplaceAllHit("T", "T", "1");
    assert ReplaceAll("T", "T", "1") == "1";
    RulesAfterTKeepOne();
  }

  lemma RulesBeforeTKeepT()
    ensures ApplyAll("T", Replacements[..10]) == "T"
  {
    var first := Replacements[..10];
    var t := "T";
    forall i | 0 <= i < |first| ensures first[i].0 != [] && !Contains(t, first[i].0) {
      if i == 0 {
        NotContainsChar(t, "\\text", 0);
      } else if i == 1 {
        NotContainsChar(t, "\\vee", 0);
      } else if i == 2 {
        NotContainsChar(t, "\\lor", 0);
      } else if i == 3 {
        NotContainsChar(t, "\\wedge", 0);
      } else if i == 4 {
        NotContainsChar(t, "\\land", 0);
      } else if i == 5 {
        NotContainsChar(t, "{", 0);
      } else if i == 6 {
        NotContainsChar(t, "}", 0);
      } else if i == 7 {
        NotContainsChar(t, "\\overline", 0);
      } else if i == 8 {
        NotContainsChar(t, "\\neg", 0);
      } else {
        assert first[i].0 == "True";
        NotContainsChar(t, "True", 1);
      }
    }
    ApplyAllNoKeys(t, first);
  }

  lemma RulesAfterTKeepOne()
    ensures ApplyAll("1", Replacements[11..]) == "1"
  {
    var last := Replacements[11..];
    var t := "1";
    forall i | 0 <= i < |last| ensures last[i].0 != [] && !Contains(t, last[i].0) {
      if i == 0 {
        NotContainsChar(t, "true", 0);
      } else if i == 1 {
        NotContainsChar(t, "False", 0);
      } else if i == 2 {
        NotContainsChar(t, "F", 0);
      } else {
        NotContainsChar(t, "false", 0);
      }
    }
    ApplyAllNoKeys(t, last);
  }

  /** Normalisation is not idempotent in general: deleting `\text` can
      bring a new `\text` together, which only a second pass removes. */
  lemma NormalizeNotIdempotent()
    ensures Normalize("\\te\\textxt") == "\\text"
    ensures Normalize("\\text") == ""
  {
    FirstRuleJoinsText();
    LaterRulesKeepText();
    assert Replacements[0] == ("\\text", "");
    assert Normalize("\\te\\textxt") == ApplyAll("\\text", Replacements[1..]);
    assert Normalize("\\text") == ApplyAll("", Replacements[1..]);
  }

  /** Deleting `\\text` from `\\te\\textxt` joins a new `\\text`. */
  lemma FirstRuleJoinsText()
    ensures ReplaceAll("\\te\\textxt", "\\text", "") == "\\text"
    ensures ReplaceAll("\\text", "\\text", "") == ""
  {
    var k := "\\text";
    assert ReplaceAll("xt", k, "") == "xt";
    ReplaceAllHit("\\textxt", k, "");
    assert "\\textxt"[5..] == "xt";
    assert "e\\textxt"[0] != k[0];
    ReplaceAllSkip("e\\textxt", k, "");
    assert "e\\textxt"[1..] == "\\textxt";
    assert "te\\textxt"[0] != k[0];
    ReplaceAllSkip("te\\textxt", k, "");
    assert "te\\textxt"[1..] == "e\\textxt";
    var s := "\\te\\textxt";
    assert s[3] != k[3];
    ReplaceAllSkip(s, k, "");
    assert s[1..] == "te\\textxt";
    ReplaceAllHit(k, k, "");
    assert k[5..] == "";
  }

  lemma ReplaceAllHit(s: string, key: string, value: string)
    requires key != [] && |key| <= |s| && s[..|key|] == key
    ensures ReplaceAll(s, key, value) == value + ReplaceAll(s[|key|..], key, value)
  {
  }

  lemma ReplaceAllSkip(s: string, key: string, value: string)
    requires key != [] && |key| <= |s| && s[..|key|] != key
    ensures ReplaceAll(s, key, value) == [s[0]] + ReplaceAll(s[1..], key, value)
  {
  }
}
