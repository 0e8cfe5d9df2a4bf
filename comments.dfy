/** Characters other than the eight symbols are comments: deleting them from
    the text changes neither the status of a run nor its tape, cursor or
    output. Only the offsets kept in the last-instruction marker move, since
    they are offsets into the text. */
module Comments {
  import opened Wrappers
  import opened Brackets
  import opened Semantics

  predicate IsSymbol(c: char) {
    IsInstruction(c) || c == ']'
  }

  /** What stripping keeps of one character. */
  function Keep(c: char): seq<char> {
    if IsSymbol(c) then [c] else []
  }

  /** The text with every comment character removed. */
  function Symbols(code: seq<char>): seq<char> {
    if code == [] then [] else Keep(code[0]) + Symbols(code[1..])
  }

  /** What is left is made of symbols only, so stripping twice changes nothing. */
  lemma {:induction false} SymbolsIdempotent(code: seq<char>)
    ensures forall k :: 0 <= k < |Symbols(code)| ==> IsSymbol(Symbols(code)[k])
    ensures Symbols(Symbols(code)) == Symbols(code)
  {
    if code != [] {
      var head := Keep(code[0]);
      SymbolsIdempotent(code[1..]);
      SymbolsAppend(head, Symbols(code[1..]));
      if head != [] {
        assert head[1..] == [];
      }
    }
  }

  lemma {:induction false} SymbolsAppend(a: seq<char>, b: seq<char>)
    ensures Symbols(a + b) == Symbols(a) + Symbols(b)
  {
    if a == [] {
      assert a + b == b;
    } else {
      assert (a + b)[0] == a[0];
      assert (a + b)[1..] == a[1..] + b;
      SymbolsAppend(a[1..], b);
      calc {
        Symbols(a + b);
        Keep(a[0]) + Symbols(a[1..] + b);
        Keep(a[0]) + (Symbols(a[1..]) + Symbols(b));
        (Keep(a[0]) + Symbols(a[1..])) + Symbols(b);
      }
    }
  }

  lemma SymbolsSplit(code: seq<char>, k: nat)
    requires k <= |code|
    ensures Symbols(code) == Symbols(code[..k]) + Symbols(code[k..])
  {
    assert code == code[..k] + code[k..];
    SymbolsAppend(code[..k], code[k..]);
  }

  /** Offset in the stripped text of offset `k` of the original. */
  function Image(code: seq<char>, k: nat): (r: nat)
    requires k <= |code|
    ensures r <= |Symbols(code)|
  {
    SymbolsSplit(code, k);
    |Symbols(code[..k])|
  }

  lemma ImageStep(code: seq<char>, k: nat)
    requires k < |code|
    ensures Image(code, k + 1) == Image(code, k) + (if IsSymbol(code[k]) then 1 else 0)
    ensures Image(code, k) <= |Symbols(code)|
    ensures IsSymbol(code[k]) ==> Image(code, k) < |Symbols(code)| && Symbols(code)[Image(code, k)] == code[k]
  {
    assert code[..k + 1] == code[..k] + [code[k]];
    SymbolsAppend(code[..k], [code[k]]);
    assert Symbols([code[k]]) == Keep(code[k]);
    SymbolsSplit(code, k + 1);
  }

  lemma ImageEnd(code: seq<char>)
    ensures Image(code, |code|) == |Symbols(code)|
  {
    assert code[..|code|] == code;
  }

  /** Bracket matching sees through comments. */
  lemma {:induction false} FindCloseStripped(code: seq<char>, k: nat, depth: nat)
    requires k <= |code|
    ensures FindClose(code, k, depth).None? ==> FindClose(Symbols(code), Image(code, k), depth).None?
    ensures FindClose(code, k, depth).Some? ==>
              FindClose(code, k, depth).value < |code| &&
              FindClose(Symbols(code), Image(code, k), depth) == Some(Image(code, FindClose(code, k, depth).value))
    decreases |code| - k
  {
    if k == |code| {
      ImageEnd(code);
    } else {
      ImageStep(code, k);
      var c := code[k];
      if c == '[' {
        FindCloseStripped(code, k + 1, depth + 1);
      } else if c == ']' {
        if depth > 0 {
          FindCloseStripped(code, k + 1, depth - 1);
        }
      } else {
        FindCloseStripped(code, k + 1, depth);
      }
    }
  }

  /** The matching `]` of an opening bracket, seen in the stripped text. */
  lemma MatchEndStripped(code: seq<char>, i: nat)
    requires i < |code| && code[i] == '['
    ensures Image(code, i) < |Symbols(code)|
    ensures MatchEnd(code, i).None? ==> MatchEnd(Symbols(code), Image(code, i)).None?
    ensures MatchEnd(code, i).Some? ==>
              MatchEnd(Symbols(code), Image(code, i)) == Some(Image(code, MatchEnd(code, i).value))
  {
    ImageStep(code, i);
    FindCloseStripped(code, i + 1, 0);
  }

  lemma BodyStripped(code: seq<char>, i: nat, j: nat)
    requires i < j < |code| && code[i] == '['
    ensures Image(code, i) + 1 <= Image(code, j) <= |Symbols(code)|
    ensures Symbols(code)[Image(code, i) + 1..Image(code, j)] == Symbols(code[i + 1..j])
  {
    var s := Symbols(code);
    SymbolsSplit(code, j);
    assert code[..j] == code[..i] + [code[i]] + code[i + 1..j];
    SymbolsAppend(code[..i] + [code[i]], code[i + 1..j]);
    SymbolsAppend(code[..i], [code[i]]);
    assert Symbols([code[i]]) == [code[i]];
    assert s[..Image(code, j)] == Symbols(code[..j]);
  }

  /** Two states that differ at most in the last-instruction marker. */
  predicate Alike(m: Machine, n: Machine) {
    m.tape == n.tape && m.pos == n.pos && m.output == n.output
  }

  lemma StepAlike(m: Machine, n: Machine, i: nat, k: nat, c: char)
    requires Valid(m) && Valid(n) && Alike(m, n)
    requires c != '[' && (c == '<' ==> m.pos > 0)
    ensures Alike(Step(m, i, c), Step(n, k, c))
  {
  }

  /** Two outcomes with the same status in alike states. */
  predicate SameEnd(r: Outcome, q: Outcome) {
    r.status == q.status && Alike(r.machine, q.machine)
  }

  /** Running a text from offset `i` and its stripped form `s` from the
      matching offset `k`, in alike states, ends the same way. The three
      helpers below take the three ways a scan step unfolds. */
  lemma {:induction false} StrippedRunAlike(code: seq<char>, s: seq<char>, inBracket: bool, i: nat, k: nat, m: Machine, n: Machine, fuel: nat)
    requires s == Symbols(code) && i <= |code| && k == Image(code, i)
    requires Valid(m) && Valid(n) && Alike(m, n)
    ensures SameEnd(Run(code, inBracket, i, m, fuel), Run(s, inBracket, k, n, fuel))
    decreases |code|, fuel, |code| - i, 3
  {
    if i == |code| {
      ImageEnd(code);
      AlikeAtEnd(code, s, inBracket, m, n, fuel);
    } else if code[i] == '[' {
      AlikeAtOpen(code, s, inBracket, i, k, m, n, fuel);
    } else {
      AlikeAtSymbol(code, s, inBracket, i, k, m, n, fuel);
    }
  }

  lemma {:induction false} AlikeAtEnd(code: seq<char>, s: seq<char>, inBracket: bool, m: Machine, n: Machine, fuel: nat)
    requires s == Symbols(code)
    requires Valid(m) && Valid(n) && Alike(m, n)
    ensures SameEnd(Run(code, inBracket, |code|, m, fuel), Run(s, inBracket, |s|, n, fuel))
    decreases |code|, fuel, 0, 1
  {
    if inBracket && Current(m) != 0 && fuel > 0 {
      AlikeRestart(code, s, inBracket, m, n, fuel);
    } else {
      RunAtEnd(code, inBracket, m, fuel);
      RunAtEnd(s, inBracket, n, fuel);
    }
  }

  /** A loop body whose cell is still nonzero starts over in both texts. */
  lemma {:induction false} AlikeRestart(code: seq<char>, s: seq<char>, inBracket: bool, m: Machine, n: Machine, fuel: nat)
    requires s == Symbols(code)
    requires Valid(m) && Valid(n) && Alike(m, n)
    requires inBracket && Current(m) != 0 && fuel > 0
    ensures SameEnd(Run(code, inBracket, |code|, m, fuel), Run(s, inBracket, |s|, n, fuel))
    decreases |code|, fuel, 0, 0
  {
    RunAtEnd(code, inBracket, m, fuel);
    RunAtEnd(s, inBracket, n, fuel);
    assert Image(code, 0) == 0 by {
      assert code[..0] == [];
    }
    StrippedRunAlike(code, s, inBracket, 0, 0, m, n, fuel - 1);
  }

  lemma {:induction false} AlikeAtSymbol(code: seq<char>, s: seq<char>, inBracket: bool, i: nat, k: nat, m: Machine, n: Machine, fuel: nat)
    requires s == Symbols(code) && i < |code| && k == Image(code, i) && code[i] != '['
    requires Valid(m) && Valid(n) && Alike(m, n)
    ensures SameEnd(Run(code, inBracket, i, m, fuel), Run(s, inBracket, k, n, fuel))
    decreases |code|, fuel, |code| - i, 1
  {
    ImageStep(code, i);
    if !IsSymbol(code[i]) {
      RunAtSymbol(code, inBracket, i, m, fuel);
      StrippedRunAlike(code, s, inBracket, i + 1, k, m, n, fuel);
    } else if code[i] == '<' && m.pos == 0 {
      RunAtSymbol(code, inBracket, i, m, fuel);
      RunAtSymbol(s, inBracket, k, n, fuel);
    } else {
      AlikeAtStep(code, s, inBracket, i, k, m, n, fuel);
    }
  }

  /** An instruction that does not fault is taken in both texts. */
  lemma {:induction false} AlikeAtStep(code: seq<char>, s: seq<char>, inBracket: bool, i: nat, k: nat, m: Machine, n: Machine, fuel: nat)
    requires s == Symbols(code) && i < |code| && code[i] != '[' && IsSymbol(code[i])
    requires k == Image(code, i) && k < |s| && s[k] == code[i] && Image(code, i + 1) == k + 1
    requires Valid(m) && Valid(n) && Alike(m, n) && (code[i] == '<' ==> m.pos > 0)
    ensures SameEnd(Run(code, inBracket, i, m, fuel), Run(s, inBracket, k, n, fuel))
    decreases |code|, fuel, |code| - i, 0
  {
    var c := code[i];
    RunAtSymbol(code, inBracket, i, m, fuel);
    RunAtSymbol(s, inBracket, k, n, fuel);
    StepAlike(m, n, i, k, c);
    StrippedRunAlike(code, s, inBracket, i + 1, k + 1, Step(m, i, c), Step(n, k, c), fuel);
  }

  lemma {:induction false} AlikeAtOpen(code: seq<char>, s: seq<char>, inBracket: bool, i: nat, k: nat, m: Machine, n: Machine, fuel: nat)
    requires s == Symbols(code) && i < |code| && k == Image(code, i) && code[i] == '['
    requires Valid(m) && Valid(n) && Alike(m, n)
    ensures SameEnd(Run(code, inBracket, i, m, fuel), Run(s, inBracket, k, n, fuel))
    decreases |code|, fuel, |code| - i, 2
  {
    MatchEndStripped(code, i);
    ImageStep(code, i);
    match MatchEnd(code, i)
    case None =>
    case Some(j) =>
      ImageStep(code, j);
      AlikeAtMatch(code, s, inBracket, i, j, k, Image(code, j), m, n, fuel);
  }

  lemma {:induction false} AlikeAtMatch(code: seq<char>, s: seq<char>, inBracket: bool, i: nat, j: nat, k: nat, l: nat,
                                        m: Machine, n: Machine, fuel: nat)
    requires s == Symbols(code) && i < |code| && code[i] == '[' && MatchEnd(code, i) == Some(j)
    requires k == Image(code, i) && l == Image(code, j) && l + 1 == Image(code, j + 1)
    requires k < |s| && s[k] == '[' && MatchEnd(s, k) == Some(l)
    requires Valid(m) && Valid(n) && Alike(m, n)
    ensures SameEnd(Run(code, inBracket, i, m, fuel), Run(s, inBracket, k, n, fuel))
    decreases |code|, fuel, |code| - i, 1
  {
    assert i < j < |code| && code[j] == ']';
    AlikeBody(code, s, i, j, k, l, m, n, fuel);
    var body := Run(code[i + 1..j], true, 0, m, fuel);
    var body' := Run(s[k + 1..l], true, 0, n, fuel);
    if body.status == Done {
      assert l < |s|;
      OpenThenRest(code, inBracket, i, j, m, body.machine, fuel);
      OpenThenRest(s, inBracket, k, l, n, body'.machine, fuel);
      AlikeAfterBody(code, s, inBracket, i, j, k, l, m, n, body.machine, body'.machine, fuel);
    } else {
      OpenFails(code, inBracket, i, j, m, fuel);
      OpenFails(s, inBracket, k, l, n, fuel);
    }
  }

  /** The body of a loop and its stripped form end alike. */
  lemma {:induction false} AlikeBody(code: seq<char>, s: seq<char>, i: nat, j: nat, k: nat, l: nat,
                                     m: Machine, n: Machine, fuel: nat)
    requires s == Symbols(code) && i < j < |code| && code[i] == '['
    requires k == Image(code, i) && l == Image(code, j)
    requires Valid(m) && Valid(n) && Alike(m, n)
    ensures k + 1 <= l <= |s|
    ensures SameEnd(Run(code[i + 1..j], true, 0, m, fuel), Run(s[k + 1..l], true, 0, n, fuel))
    decreases |code|, fuel, |code| - i, 0
  {
    BodyStripped(code, i, j);
    assert code[i + 1..j][..0] == [];
    StrippedRunAlike(code[i + 1..j], s[k + 1..l], true, 0, 0, m, n, fuel);
  }

  /** Once both bodies end normally, both scans go on just past their `]`. */
  lemma {:induction false} AlikeAfterBody(code: seq<char>, s: seq<char>, inBracket: bool, i: nat, j: nat, k: nat, l: nat,
                                          m: Machine, n: Machine, mb: Machine, nb: Machine, fuel: nat)
    requires s == Symbols(code) && i < j < |code| && k < l < |s| && l + 1 == Image(code, j + 1)
    requires Valid(m) && Valid(n) && Valid(mb) && Valid(nb) && Alike(mb, nb)
    requires Run(code, inBracket, i, m, fuel) == Run(code, inBracket, j + 1, mb, fuel)
    requires Run(s, inBracket, k, n, fuel) == Run(s, inBracket, l + 1, nb, fuel)
    ensures SameEnd(Run(code, inBracket, i, m, fuel), Run(s, inBracket, k, n, fuel))
    decreases |code|, fuel, |code| - i, 0
  {
    StrippedRunAlike(code, s, inBracket, j + 1, l + 1, mb, nb, fuel);
    SameEndCarried(Run(code, inBracket, i, m, fuel), Run(code, inBracket, j + 1, mb, fuel),
                   Run(s, inBracket, k, n, fuel), Run(s, inBracket, l + 1, nb, fuel));
  }

  lemma SameEndCarried(r: Outcome, r': Outcome, q: Outcome, q': Outcome)
    requires r == r' && q == q' && SameEnd(r', q')
    ensures SameEnd(r, q)
  {
  }

  /** A loop body that ends normally leaves the scan just past its `]`. */
  lemma OpenThenRest(code: seq<char>, inBracket: bool, i: nat, j: nat, m: Machine, mb: Machine, fuel: nat)
    requires Valid(m) && Valid(mb) && i < |code| && code[i] == '[' && MatchEnd(code, i) == Some(j)
    requires Run(code[i + 1..j], true, 0, m, fuel) == Outcome(Done, mb)
    ensures Run(code, inBracket, i, m, fuel) == Run(code, inBracket, j + 1, mb, fuel)
  {
    RunAtOpen(code, inBracket, i, j, m, fuel);
  }

  /** A loop body that does not end normally ends the enclosing scan. */
  lemma OpenFails(code: seq<char>, inBracket: bool, i: nat, j: nat, m: Machine, fuel: nat)
    requires Valid(m) && i < |code| && code[i] == '[' && MatchEnd(code, i) == Some(j)
    requires Run(code[i + 1..j], true, 0, m, fuel).status != Done
    ensures Run(code, inBracket, i, m, fuel) == Run(code[i + 1..j], true, 0, m, fuel)
  {
    RunAtOpen(code, inBracket, i, j, m, fuel);
  }

  /** Deleting comments from a program changes neither how it ends nor its
      tape, cursor and output. */
  lemma CommentsIgnored(code: seq<char>, m: Machine, fuel: nat)
    requires Valid(m)
    ensures Interpret(Symbols(code), m, fuel).status == Interpret(code, m, fuel).status
    ensures Alike(Interpret(Symbols(code), m, fuel).machine, Interpret(code, m, fuel).machine)
  {
    assert code[..0] == [];
    StrippedRunAlike(code, Symbols(code), false, 0, 0, m, m, fuel);
  }
}
