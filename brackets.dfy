/** Bracket nesting over program text, and the matching `]` of a `[`.
    Program text is a sequence of characters addressed by index. */
module Brackets {
  import opened Wrappers

  function Delta(c: char): int {
    if c == '[' then 1 else if c == ']' then -1 else 0
  }

  /** Net nesting change of a piece of text: opening minus closing brackets. */
  function Depth(s: seq<char>): int {
    if s == [] then 0 else Delta(s[0]) + Depth(s[1..])
  }

  lemma {:induction false} DepthAppend(a: seq<char>, b: seq<char>)
    ensures Depth(a + b) == Depth(a) + Depth(b)
  {
    if a != [] {
      assert (a + b)[0] == a[0];
      assert (a + b)[1..] == a[1..] + b;
      DepthAppend(a[1..], b);
    } else {
      assert a + b == b;
    }
  }

  /** No prefix closes more brackets than it opened. */
  predicate NonNegativePrefixes(s: seq<char>) {
    forall k :: 0 <= k <= |s| ==> Depth(s[..k]) >= 0
  }

  /** Every bracket in `s` is matched inside `s`. */
  predicate Balanced(s: seq<char>) {
    Depth(s) == 0 && NonNegativePrefixes(s)
  }

  /** `code[j]` is the `]` that closes the bracket at `start`: the text strictly
      between them is balanced. */
  predicate IsMatch(code: seq<char>, start: nat, j: nat) {
    start < j < |code| && code[j] == ']' && Balanced(code[start + 1..j])
  }

  lemma NonNegativeExtend(s: seq<char>, c: char)
    requires NonNegativePrefixes(s) && Depth(s + [c]) >= 0
    ensures NonNegativePrefixes(s + [c])
  {
    forall k | 0 <= k <= |s| + 1
      ensures Depth((s + [c])[..k]) >= 0
    {
      if k <= |s| {
        assert (s + [c])[..k] == s[..k];
      } else {
        assert (s + [c])[..k] == s + [c];
      }
    }
  }

  /** A `[` has at most one matching `]`. */
  lemma MatchUnique(code: seq<char>, start: nat, j1: nat, j2: nat)
    requires IsMatch(code, start, j1) && IsMatch(code, start, j2)
    ensures j1 == j2
  {
    if j1 != j2 {
      var (a, b) := if j1 < j2 then (j1, j2) else (j2, j1);
      var inner := code[start + 1..b];
      assert inner[..a + 1 - (start + 1)] == code[start + 1..a] + [code[a]];
      DepthAppend(code[start + 1..a], [code[a]]);
      assert false;
    }
  }

  /** The scan of `slice_bracket`: from index `k` with `depth` brackets still
      open, the index of the first `]` met at depth zero. */
  function FindClose(code: seq<char>, k: nat, depth: nat): Option<nat>
    decreases |code| - k
  {
    if k >= |code| then None
    else if code[k] == '[' then FindClose(code, k + 1, depth + 1)
    else if code[k] == ']' then
      if depth == 0 then Some(k) else FindClose(code, k + 1, depth - 1)
    else FindClose(code, k + 1, depth)
  }

  lemma {:induction false} FindCloseSound(code: seq<char>, lo: nat, k: nat, depth: nat)
    requires lo <= k <= |code|
    requires depth == Depth(code[lo..k]) && NonNegativePrefixes(code[lo..k])
    ensures FindClose(code, k, depth).Some? ==>
              var j := FindClose(code, k, depth).value;
              k <= j < |code| && code[j] == ']' && Balanced(code[lo..j])
    ensures FindClose(code, k, depth).None? ==>
              forall j :: k <= j < |code| ==> !(code[j] == ']' && Balanced(code[lo..j]))
    decreases |code| - k
  {
    if k < |code| {
      var c := code[k];
      assert code[lo..k + 1] == code[lo..k] + [c];
      DepthAppend(code[lo..k], [c]);
      assert Depth([c]) == Delta(c);
      if c == '[' {
        NonNegativeExtend(code[lo..k], c);
        FindCloseSound(code, lo, k + 1, depth + 1);
      } else if c == ']' {
        if depth > 0 {
          NonNegativeExtend(code[lo..k], c);
          FindCloseSound(code, lo, k + 1, depth - 1);
        }
      } else {
        NonNegativeExtend(code[lo..k], c);
        FindCloseSound(code, lo, k + 1, depth);
      }
    }
  }

  /** The matching `]` of the `[` at `start`, if the text has one. */
  function MatchEnd(code: seq<char>, start: nat): (r: Option<nat>)
    requires start < |code|
    ensures r.Some? ==> IsMatch(code, start, r.value)
    ensures r.None? ==> forall j: nat :: !IsMatch(code, start, j)
  {
    assert code[start + 1..start + 1] == [];
    FindCloseSound(code, start + 1, start + 1, 0);
    FindClose(code, start + 1, 0)
  }

  /** A bracket that has a match is the one the depth scan finds. */
  lemma MatchEndIs(code: seq<char>, start: nat, j: nat)
    requires start < |code| && IsMatch(code, start, j)
    ensures MatchEnd(code, start) == Some(j)
  {
    MatchUnique(code, start, j, MatchEnd(code, start).value);
  }

  /** Every `[` of the text has a matching `]`. */
  predicate OpensMatched(code: seq<char>) {
    forall i :: 0 <= i < |code| && code[i] == '[' ==> MatchEnd(code, i).Some?
  }

  lemma {:induction false} FindCloseReaches(code: seq<char>, k: nat, depth: nat, t: nat)
    requires k <= t <= |code|
    requires Depth(code[k..t]) < -(depth as int)
    ensures FindClose(code, k, depth).Some?
    decreases t - k
  {
    if k == t {
      assert false;
    } else {
      assert code[k..t][1..] == code[k + 1..t];
      if code[k] == '[' {
        FindCloseReaches(code, k + 1, depth + 1, t);
      } else if code[k] == ']' {
        if depth > 0 {
          FindCloseReaches(code, k + 1, depth - 1, t);
        }
      } else {
        FindCloseReaches(code, k + 1, depth, t);
      }
    }
  }

  /** In balanced text every `[` is matched, so a loop body extracted by the
      interpreter never holds an unmatched bracket. */
  lemma BalancedOpensMatched(s: seq<char>)
    requires Balanced(s)
    ensures OpensMatched(s)
  {
    forall i | 0 <= i < |s| && s[i] == '['
      ensures MatchEnd(s, i).Some?
    {
      assert s == s[..i + 1] + s[i + 1..];
      DepthAppend(s[..i + 1], s[i + 1..]);
      assert s[..i + 1] == s[..i] + [s[i]];
      DepthAppend(s[..i], [s[i]]);
      assert Depth([s[i]]) == 1;
      assert s[i + 1..] == s[i + 1..|s|];
      FindCloseReaches(s, i + 1, 0, |s|);
    }
  }
}
