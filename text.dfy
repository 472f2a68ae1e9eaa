/** String operations of the JavaScript runtime that the engine relies on:
    `String.prototype.trim`, `Array.prototype.join`, and a one-character
    `split` used to read a rendered table back into lines and cells. */
module Text {

  /** The characters `trim` removes: ECMAScript WhiteSpace and LineTerminator. */
  predicate IsSpace(c: char)
  {
    || c == '\t' || c == '\n' || c == '\U{000B}' || c == '\U{000C}' || c == '\r'
    || c == ' ' || c == '\U{00A0}' || c == '\U{1680}'
    || ('\U{2000}' <= c <= '\U{200A}')
    || c == '\U{2028}' || c == '\U{2029}' || c == '\U{202F}' || c == '\U{205F}'
    || c == '\U{3000}' || c == '\U{FEFF}'
  }

  /** The first position at or after `i` that does not hold white space. */
  function SpaceEnd(s: string, i: nat): (a: nat)
    requires i <= |s|
    ensures i <= a <= |s|
    ensures forall k :: i <= k < a ==> IsSpace(s[k])
    ensures a == |s| || !IsSpace(s[a])
    decreases |s| - i
  {
    if i < |s| && IsSpace(s[i]) then SpaceEnd(s, i + 1) else i
  }

  /** The last position at or before `j`, but not before `a`, that does not
      follow white space. */
  function SpaceStart(s: string, a: nat, j: nat): (b: nat)
    requires a <= j <= |s|
    ensures a <= b <= j
    ensures forall k :: b <= k < j ==> IsSpace(s[k])
    ensures b == a || !IsSpace(s[b - 1])
    decreases j
  {
    if a < j && IsSpace(s[j - 1]) then SpaceStart(s, a, j - 1) else j
  }

  /** Where `Trim(s)` starts in `s`. */
  function TrimStart(s: string): nat
  {
    SpaceEnd(s, 0)
  }

  /** Where `Trim(s)` ends in `s`. */
  function TrimEnd(s: string): (b: nat)
    ensures TrimStart(s) <= b <= |s|
  {
    SpaceStart(s, TrimStart(s), |s|)
  }

  /** `s.trim()`: `s` is leading white space, then the result, then
      trailing white space; the result neither starts nor ends with white
      space, and keeps the inside of `s` untouched. */
  function Trim(s: string): (r: string)
    ensures s == s[..TrimStart(s)] + r + s[TrimEnd(s)..]
    ensures r == [] || (!IsSpace(r[0]) && !IsSpace(r[|r| - 1]))
    ensures forall k :: 0 <= k < TrimStart(s) ==> IsSpace(s[k])
    ensures forall k :: TrimEnd(s) <= k < |s| ==> IsSpace(s[k])
  {
    SliceAround(s, TrimStart(s), TrimEnd(s));
    s[TrimStart(s)..TrimEnd(s)]
  }

  /** Cutting `s` at `a` and `b` and joining the three pieces gives `s`. */
  lemma SliceAround(s: string, a: nat, b: nat)
    requires a <= b <= |s|
    ensures s == s[..a] + s[a..b] + s[b..]
  {
    assert s[..a] + s[a..b] == s[..b];
  }

  /** The split of `Trim`'s contract, grouped from the right. */
  lemma TrimAround(s: string)
    ensures s == s[..TrimStart(s)] + (Trim(s) + s[TrimEnd(s)..])
  {
    var lead, t, trail := s[..TrimStart(s)], Trim(s), s[TrimEnd(s)..];
    assert lead + t + trail == lead + (t + trail);
  }

  /** `parts.join(sep)`: the empty array gives the empty string. */
  function Join(parts: seq<string>, sep: string): string
  {
    if |parts| == 0 then ""
    else if |parts| == 1 then parts[0]
    else parts[0] + sep + Join(parts[1..], sep)
  }

  lemma JoinCons(p: string, rest: seq<string>, sep: string)
    requires |rest| >= 1
    ensures Join([p] + rest, sep) == p + sep + Join(rest, sep)
  {
    assert ([p] + rest)[1..] == rest;
  }

  lemma JoinThree(a: string, b: string, c: string, rest: seq<string>, sep: string)
    requires |rest| >= 1
    ensures Join([a, b, c] + rest, sep) == a + sep + b + sep + c + sep + Join(rest, sep)
  {
    JoinCons(c, rest, sep);
    JoinCons(b, [c] + rest, sep);
    JoinCons(a, [b] + ([c] + rest), sep);
    assert [a, b, c] + rest == [a] + ([b] + ([c] + rest));
  }

  lemma {:induction false} JoinSnoc(parts: seq<string>, p: string, sep: string)
    requires |parts| >= 1
    ensures Join(parts + [p], sep) == Join(parts, sep) + sep + p
  {
    if |parts| == 1 {
      assert (parts + [p])[1..] == [p];
    } else {
      assert (parts + [p])[1..] == parts[1..] + [p];
      JoinSnoc(parts[1..], p, sep);
    }
  }

  /** `s.split(c)` for a one-character separator: the pieces between the
      separators, always at least one. */
  function Split(s: string, c: char): (pieces: seq<string>)
    ensures |pieces| >= 1
  {
    if s == [] then [""]
    else
      var rest := Split(s[1..], c);
      if s[0] == c then [""] + rest else [[s[0]] + rest[0]] + rest[1..]
  }

  lemma {:induction false} SplitPrefix(p: string, t: string, c: char)
    requires c !in p
    ensures Split(p + t, c) == [p + Split(t, c)[0]] + Split(t, c)[1..]
  {
    var S := Split(t, c);
    if p == [] {
      assert p + t == t && p + S[0] == S[0];
      assert S == [S[0]] + S[1..];
    } else {
      assert (p + t)[1..] == p[1..] + t;
      SplitPrefix(p[1..], t, c);
      assert [p[0]] + (p[1..] + S[0]) == p + S[0];
    }
  }

  /** Splitting on `c` undoes joining with `c` when no part contains `c`. */
  lemma {:induction false} SplitJoin(parts: seq<string>, c: char)
    requires |parts| >= 1
    requires forall i :: 0 <= i < |parts| ==> c !in parts[i]
    ensures Split(Join(parts, [c]), c) == parts
  {
    if |parts| == 1 {
      SplitPrefix(parts[0], "", c);
      assert parts[0] + "" == parts[0];
      assert parts == [parts[0]];
    } else {
      var rest := Join(parts[1..], [c]);
      SplitJoin(parts[1..], c);
      assert Join(parts, [c]) == parts[0] + ([c] + rest);
      SplitPrefix(parts[0], [c] + rest, c);
      assert ([c] + rest)[1..] == rest;
      assert Split([c] + rest, c) == [""] + parts[1..];
      assert parts[0] + "" == parts[0];
      assert parts == [parts[0]] + parts[1..];
    }
  }

  /** Wrapping every part in `pre` and `post` and joining with `c` is the
      same as joining with `post + [c] + pre` and wrapping the whole. */
  lemma {:induction false} JoinWrapped(parts: seq<string>, pre: string, post: string, c: char)
    requires |parts| >= 1
    ensures pre + Join(parts, post + [c] + pre) + post
         == Join(seq(|parts|, i requires 0 <= i < |parts| => pre + parts[i] + post), [c])
  {
    var wrapped := seq(|parts|, i requires 0 <= i < |parts| => pre + parts[i] + post);
    if |parts| > 1 {
      var tail := seq(|parts| - 1, i requires 0 <= i < |parts| - 1 => pre + parts[1..][i] + post);
      JoinWrapped(parts[1..], pre, post, c);
      assert wrapped[1..] == tail;
    }
  }

  /** Every part followed by `sep`: what a loop that appends `part + sep`
      accumulates. */
  function Terminated(parts: seq<string>, sep: string): string
  {
    if parts == [] then "" else Terminated(parts[..|parts| - 1], sep) + parts[|parts| - 1] + sep
  }

  /** Appending one more terminated part after `head`. */
  lemma TerminatedSnoc(head: string, parts: seq<string>, p: string, sep: string)
    ensures head + Terminated(parts + [p], sep) == head + Terminated(parts, sep) + (p + sep)
  {
    assert (parts + [p])[..|parts|] == parts;
  }

  lemma {:induction false} TerminatedJoin(parts: seq<string>, sep: string)
    requires |parts| >= 1
    ensures Terminated(parts, sep) == Join(parts, sep) + sep
  {
    var init := parts[..|parts| - 1];
    if |parts| == 1 {
      assert init == [];
    } else {
      TerminatedJoin(init, sep);
      JoinSnoc(init, parts[|parts| - 1], sep);
      assert init + [parts[|parts| - 1]] == parts;
    }
  }

  /** A character in neither the parts nor the separator is not in their join. */
  lemma {:induction false} JoinAvoids(parts: seq<string>, sep: string, c: char)
    requires c !in sep && forall i :: 0 <= i < |parts| ==> c !in parts[i]
    ensures c !in Join(parts, sep)
  {
    if |parts| > 1 {
      JoinAvoids(parts[1..], sep, c);
    }
  }

  /** Empty pieces at both ends put a separator at both ends. */
  lemma JoinFramed(inner: seq<string>, sep: string)
    requires |inner| >= 1
    ensures Join([""] + inner + [""], sep) == sep + Join(inner, sep) + sep
  {
    var parts := [""] + inner + [""];
    assert parts[1..] == inner + [""];
    JoinSnoc(inner, "", sep);
  }
}
