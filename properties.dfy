/** Properties of a run that hold for every program text. */
module Properties {
  import opened Wrappers
  import opened Cells
  import opened Brackets
  import opened Semantics

  /** No instruction removes or rewrites earlier output, and the tape never
      shrinks. */
  lemma {:induction false} RunExtends(code: seq<char>, inBracket: bool, i: nat, m: Machine, fuel: nat)
    requires Valid(m) && i <= |code|
    ensures m.output <= Run(code, inBracket, i, m, fuel).machine.output
    ensures |m.tape| <= |Run(code, inBracket, i, m, fuel).machine.tape|
    decreases |code|, fuel, |code| - i
  {
    if i == |code| {
      if inBracket && Current(m) != 0 && fuel > 0 {
        RunExtends(code, inBracket, 0, m, fuel - 1);
      }
    } else if code[i] == '[' {
      match MatchEnd(code, i)
      case None =>
      case Some(j) =>
        RunExtends(code[i + 1..j], true, 0, m, fuel);
        var body := Run(code[i + 1..j], true, 0, m, fuel);
        if body.status == Done {
          RunExtends(code, inBracket, j + 1, body.machine, fuel);
        }
    } else if !(code[i] == '<' && m.pos == 0) {
      RunExtends(code, inBracket, i + 1, Step(m, i, code[i]), fuel);
    }
  }

  /** Fuel only bounds how long a run may go on: a run that ends (normally
      or by a fault) within some fuel ends the same way with any more. */
  lemma {:induction false} FuelMonotone(code: seq<char>, inBracket: bool, i: nat, m: Machine, fuel: nat, more: nat)
    requires Valid(m) && i <= |code| && fuel <= more
    requires Run(code, inBracket, i, m, fuel).status != OutOfFuel
    ensures Run(code, inBracket, i, m, more) == Run(code, inBracket, i, m, fuel)
    decreases |code|, fuel, |code| - i, 1
  {
    if i == |code| {
      RunAtEnd(code, inBracket, m, fuel);
      RunAtEnd(code, inBracket, m, more);
      if inBracket && Current(m) != 0 {
        FuelMonotone(code, inBracket, 0, m, fuel - 1, more - 1);
      }
    } else if code[i] == '[' {
      match MatchEnd(code, i)
      case None =>
      case Some(j) =>
        FuelMonotoneAtOpen(code, inBracket, i, j, m, fuel, more);
    } else {
      RunAtSymbol(code, inBracket, i, m, fuel);
      RunAtSymbol(code, inBracket, i, m, more);
      if !(code[i] == '<' && m.pos == 0) {
        FuelMonotone(code, inBracket, i + 1, Step(m, i, code[i]), fuel, more);
      }
    }
  }

  lemma {:induction false} FuelMonotoneAtOpen(code: seq<char>, inBracket: bool, i: nat, j: nat, m: Machine, fuel: nat, more: nat)
    requires Valid(m) && i < |code| && code[i] == '[' && MatchEnd(code, i) == Some(j) && fuel <= more
    requires Run(code, inBracket, i, m, fuel).status != OutOfFuel
    ensures Run(code, inBracket, i, m, more) == Run(code, inBracket, i, m, fuel)
    decreases |code|, fuel, |code| - i, 0
  {
    RunAtOpen(code, inBracket, i, j, m, fuel);
    RunAtOpen(code, inBracket, i, j, m, more);
    var body := Run(code[i + 1..j], true, 0, m, fuel);
    FuelMonotone(code[i + 1..j], true, 0, m, fuel, more);
    if body.status == Done {
      FuelMonotone(code, inBracket, j + 1, body.machine, fuel, more);
    }
  }

  /** When every `[` of the text has its `]`, bracket matching never faults:
      loop bodies are balanced, so their own brackets are matched too. */
  lemma {:induction false} MatchedTextNeverUnmatched(code: seq<char>, inBracket: bool, i: nat, m: Machine, fuel: nat)
    requires Valid(m) && i <= |code| && OpensMatched(code)
    ensures Run(code, inBracket, i, m, fuel).status != Faulted(UnmatchedBracket)
    decreases |code|, fuel, |code| - i
  {
    if i == |code| {
      if inBracket && Current(m) != 0 && fuel > 0 {
        MatchedTextNeverUnmatched(code, inBracket, 0, m, fuel - 1);
      }
    } else if code[i] == '[' {
      var j := MatchEnd(code, i).value;
      BalancedOpensMatched(code[i + 1..j]);
      MatchedTextNeverUnmatched(code[i + 1..j], true, 0, m, fuel);
      var body := Run(code[i + 1..j], true, 0, m, fuel);
      if body.status == Done {
        MatchedTextNeverUnmatched(code, inBracket, j + 1, body.machine, fuel);
      }
    } else if !(code[i] == '<' && m.pos == 0) {
      MatchedTextNeverUnmatched(code, inBracket, i + 1, Step(m, i, code[i]), fuel);
    }
  }

  /** An empty loop body entered on a non-zero cell restarts forever: no
      amount of fuel lets it finish. */
  lemma {:induction false} EmptyBodyNeverEnds(m: Machine, fuel: nat)
    requires Valid(m) && Current(m) != 0
    ensures Run([], true, 0, m, fuel) == Outcome(OutOfFuel, m)
    decreases fuel
  {
    if fuel > 0 {
      EmptyBodyNeverEnds(m, fuel - 1);
    }
  }

  function Zeros(n: nat): (s: seq<int>)
    ensures |s| == n && forall k :: 0 <= k < n ==> s[k] == 0
  {
    seq(n, _ => 0)
  }

  /** A run of `>` from the last cell appends one zero cell per symbol. */
  lemma {:induction false} RightsAppendZeros(code: seq<char>, i: nat, m: Machine, fuel: nat)
    requires Valid(m) && i <= |code| && m.pos + 1 == |m.tape|
    requires forall k :: i <= k < |code| ==> code[k] == '>'
    ensures Run(code, false, i, m, fuel).status == Done
    ensures Run(code, false, i, m, fuel).machine.tape == m.tape + Zeros(|code| - i)
    ensures Run(code, false, i, m, fuel).machine.pos == m.pos + (|code| - i)
    decreases |code| - i
  {
    if i < |code| {
      var next := Step(m, i, '>');
      assert next.tape == m.tape + [0];
      RightsAppendZeros(code, i + 1, next, fuel);
      assert m.tape + [0] + Zeros(|code| - (i + 1)) == m.tape + Zeros(|code| - i);
    } else {
      assert m.tape + Zeros(0) == m.tape;
    }
  }

  /** Running `n` times `>` on a fresh interpreter leaves `n + 1` zero cells
      with the cursor on the last. */
  lemma RightsGrowFreshTape(n: nat, fuel: nat)
    ensures var r := Interpret(seq(n, _ => '>'), Fresh, fuel);
            r.status == Done && r.machine.tape == Zeros(n + 1) && r.machine.pos == n
  {
    RightsAppendZeros(seq(n, _ => '>'), 0, Fresh, fuel);
    assert [0] + Zeros(n) == Zeros(n + 1);
  }

  /** One `+` below the `i32` maximum adds one, with no wrap-around. */
  lemma IncrementInRange(m: Machine, i: nat)
    requires Valid(m) && IsI32(Current(m) + 1)
    ensures Step(m, i, '+') == m.(tape := m.tape[m.pos := Current(m) + 1], last := Some((i, '+')))
  {
  }

  /** The `+` symbols at offsets `i` to `j - 1` add `j - i` to the cell when
      no wrap-around occurs. */
  lemma IncrementsAdd(code: seq<char>, inBracket: bool, i: nat, j: nat, m: Machine, fuel: nat)
    requires Valid(m) && i < j <= |code|
    requires forall k :: i <= k < j ==> code[k] == '+'
    requires IsI32(Current(m) + (j - i))
    ensures Run(code, inBracket, i, m, fuel) ==
            Run(code, inBracket, j, m.(tape := m.tape[m.pos := Current(m) + (j - i)], last := Some((j - 1, '+'))), fuel)
  {
    PlusesFromAll(code, i, j);
    PlusesAdd(code, inBracket, i, j, m, fuel);
  }

  /** `code[i..j]` is a block of `+`, one symbol at a time. */
  predicate Pluses(code: seq<char>, i: nat, j: nat)
    requires i <= j <= |code|
    decreases j - i
  {
    i == j || (code[i] == '+' && Pluses(code, i + 1, j))
  }

  lemma {:induction false} PlusesFromAll(code: seq<char>, i: nat, j: nat)
    requires i <= j <= |code| && forall k :: i <= k < j ==> code[k] == '+'
    ensures Pluses(code, i, j)
    decreases j - i
  {
    if i < j {
      PlusesFromAll(code, i + 1, j);
    }
  }

  lemma {:induction false} PlusesAdd(code: seq<char>, inBracket: bool, i: nat, j: nat, m: Machine, fuel: nat)
    requires Valid(m) && i < j <= |code| && Pluses(code, i, j)
    requires IsI32(Current(m) + (j - i))
    ensures Run(code, inBracket, i, m, fuel) ==
            Run(code, inBracket, j, m.(tape := m.tape[m.pos := Current(m) + (j - i)], last := Some((j - 1, '+'))), fuel)
    decreases j - i
  {
    var a := Current(m);
    var next := m.(tape := m.tape[m.pos := a + 1], last := Some((i, '+')));
    IncrementRuns(code, inBracket, i, m, fuel);
    if i + 1 < j {
      PlusesAdd(code, inBracket, i + 1, j, next, fuel);
      IncrementsMerge(m, next, i, j);
    } else {
      assert j == i + 1;
      assert m.(tape := m.tape[m.pos := a + (j - i)], last := Some((j - 1, '+'))) == next;
    }
  }

  /** A `+` that does not wrap is taken and the scan moves on. */
  lemma IncrementRuns(code: seq<char>, inBracket: bool, i: nat, m: Machine, fuel: nat)
    requires Valid(m) && i < |code| && code[i] == '+' && IsI32(Current(m) + 1)
    ensures Valid(m.(tape := m.tape[m.pos := Current(m) + 1], last := Some((i, '+'))))
    ensures Run(code, inBracket, i, m, fuel) ==
            Run(code, inBracket, i + 1, m.(tape := m.tape[m.pos := Current(m) + 1], last := Some((i, '+'))), fuel)
  {
    IncrementInRange(m, i);
    RunAtSymbol(code, inBracket, i, m, fuel);
  }

  /** One `+` followed by the rest of a block is the whole block. */
  lemma IncrementsMerge(m: Machine, next: Machine, i: nat, j: nat)
    requires Valid(m) && i + 1 < j && IsI32(Current(m) + (j - i))
    requires next == m.(tape := m.tape[m.pos := Current(m) + 1], last := Some((i, '+')))
    ensures next.(tape := next.tape[next.pos := Current(next) + (j - (i + 1))], last := Some((j - 1, '+'))) ==
            m.(tape := m.tape[m.pos := Current(m) + (j - i)], last := Some((j - 1, '+')))
  {
    assert next.tape[next.pos := Current(next) + (j - (i + 1))] == m.tape[m.pos := Current(m) + (j - i)];
  }

  /** The body `-`, entered on a cell holding `a` with `1 <= a`, runs `a`
      times and leaves the cell at zero; this needs `a - 1` restarts. */
  lemma {:induction false} DecrementsClear(m: Machine, fuel: nat)
    requires Valid(m) && 1 <= Current(m) && Current(m) - 1 <= fuel
    ensures Run("-", true, 0, m, fuel) == Outcome(Done, m.(tape := m.tape[m.pos := 0], last := Some((0, '-'))))
    decreases Current(m)
  {
    var a := Current(m);
    var next := m.(tape := m.tape[m.pos := a - 1], last := Some((0, '-')));
    assert Step(m, 0, '-') == next;
    RunAtSymbol("-", true, 0, m, fuel);
    RunAtEnd("-", true, next, fuel);
    if a > 1 {
      DecrementsClear(next, fuel - 1);
      assert next.tape[m.pos := 0] == m.tape[m.pos := 0];
    }
  }

  /** The body `>+<-`, entered on a positive cell with a right neighbour,
      empties the cell into that neighbour, one restart per unit. */
  lemma {:induction false} Transfer(m: Machine, fuel: nat)
    requires Valid(m) && m.pos + 1 < |m.tape|
    requires 1 <= Current(m) && IsI32(Current(m) + m.tape[m.pos + 1]) && Current(m) - 1 <= fuel
    ensures Run(">+<-", true, 0, m, fuel) ==
            Outcome(Done, m.(tape := m.tape[m.pos := 0][m.pos + 1 := Current(m) + m.tape[m.pos + 1]],
                             last := Some((3, '-'))))
    decreases Current(m)
  {
    var code, p, a, b := ">+<-", m.pos, Current(m), m.tape[m.pos + 1];
    var m4 := m.(tape := m.tape[p + 1 := b + 1][p := a - 1], last := Some((3, '-')));
    TransferPass(m, fuel);
    RunAtEnd(code, true, m4, fuel);
    TransferMachines(m, m4);
    if a > 1 {
      Transfer(m4, fuel - 1);
    }
  }

  /** The machine after one pass, then the rest of the transfer, is the
      machine after the whole transfer. */
  lemma TransferMachines(m: Machine, m4: Machine)
    requires m.pos + 1 < |m.tape|
    requires m4 == m.(tape := m.tape[m.pos + 1 := m.tape[m.pos + 1] + 1][m.pos := m.tape[m.pos] - 1], last := Some((3, '-')))
    ensures m4.pos + 1 < |m4.tape| && Current(m4) == Current(m) - 1 && m4.tape[m4.pos + 1] == m.tape[m.pos + 1] + 1
    ensures m4.(tape := m4.tape[m4.pos := 0][m4.pos + 1 := Current(m4) + m4.tape[m4.pos + 1]], last := Some((3, '-'))) ==
            m.(tape := m.tape[m.pos := 0][m.pos + 1 := Current(m) + m.tape[m.pos + 1]], last := Some((3, '-')))
    ensures Current(m) == 1 ==>
            m4 == m.(tape := m.tape[m.pos := 0][m.pos + 1 := Current(m) + m.tape[m.pos + 1]], last := Some((3, '-')))
  {
    var t, p, a, b := m.tape, m.pos, m.tape[m.pos], m.tape[m.pos + 1];
    assert t[p + 1 := b + 1][p := a - 1][p := 0][p + 1 := (a - 1) + (b + 1)] == t[p := 0][p + 1 := a + b];
    if a == 1 {
      assert t[p + 1 := b + 1][p := a - 1] == t[p := 0][p + 1 := a + b];
    }
  }

  /** One pass of `>+<-` moves one unit to the right neighbour. */
  lemma TransferPass(m: Machine, fuel: nat)
    requires Valid(m) && m.pos + 1 < |m.tape|
    requires 1 <= Current(m) && IsI32(m.tape[m.pos + 1] + 1)
    ensures Valid(m.(tape := m.tape[m.pos + 1 := m.tape[m.pos + 1] + 1][m.pos := Current(m) - 1], last := Some((3, '-'))))
    ensures Run(">+<-", true, 0, m, fuel) ==
            Run(">+<-", true, 4, m.(tape := m.tape[m.pos + 1 := m.tape[m.pos + 1] + 1][m.pos := Current(m) - 1],
                                   last := Some((3, '-'))), fuel)
  {
    var code, p, a, b := ">+<-", m.pos, Current(m), m.tape[m.pos + 1];
    var m1 := m.(pos := p + 1, last := Some((0, '>')));
    var m2 := m1.(tape := m.tape[p + 1 := b + 1], last := Some((1, '+')));
    var m3 := m2.(pos := p, last := Some((2, '<')));
    var m4 := m3.(tape := m.tape[p + 1 := b + 1][p := a - 1], last := Some((3, '-')));
    assert Run(code, true, 0, m, fuel) == Run(code, true, 1, m1, fuel);
    assert Step(m1, 1, '+') == m2;
    assert Run(code, true, 1, m1, fuel) == Run(code, true, 2, m2, fuel);
    assert Run(code, true, 2, m2, fuel) == Run(code, true, 3, m3, fuel);
    assert Step(m3, 3, '-') == m4;
    assert Run(code, true, 3, m3, fuel) == Run(code, true, 4, m4, fuel);
  }

  /** On the last cell, `>+<-` behaves as if a zero cell were already there. */
  lemma TransferGrows(m: Machine, fuel: nat)
    requires Valid(m) && m.pos + 1 == |m.tape|
    ensures Run(">+<-", true, 0, m, fuel) == Run(">+<-", true, 0, m.(tape := m.tape + [0]), fuel)
  {
    assert Step(m, 0, '>') == Step(m.(tape := m.tape + [0]), 0, '>');
  }
}
