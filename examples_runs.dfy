/** Small programs run on a fresh interpreter. Offsets in the last-instruction
    marker count from the start of the slice that held the instruction. */
module ExampleRuns {
  import opened Wrappers
  import opened Cells
  import opened Brackets
  import opened Semantics
  import opened Properties

  function ClearProgram(n: nat): seq<char> {
    seq(n, _ => '+') + "[-]"
  }

  /** `n` times `+`, then `[-]`, clears the cell again; the body runs `n`
      times, so `n - 1` restarts are needed. */
  lemma ClearLoopClears(n: nat)
    requires 1 <= n <= I32Max
    ensures Interpret(ClearProgram(n), Fresh, n - 1) == Outcome(Done, Machine([0], 0, Some((0, '-')), ""))
  {
    var code := ClearProgram(n);
    var m := Machine([n], 0, Some((n - 1, '+')), "");
    var done := Machine([0], 0, Some((0, '-')), "");
    IncrementsAdd(code, false, 0, n, Fresh, n - 1);
    assert Fresh.tape[0 := n] == [n];
    assert code[n + 1] == '-' && code[n + 2] == ']';
    assert FindClose(code, n + 2, 0) == Some(n + 2);
    assert FindClose(code, n + 1, 0) == Some(n + 2);
    assert code[n + 1..n + 2] == "-";
    RunAtOpen(code, false, n, n + 2, m, n - 1);
    DecrementsClear(m, n - 1);
    assert m.tape[0 := 0] == [0];
    RunAtEnd(code, false, done, n - 1);
  }

  /** `+++[-]` clears the cell: the body runs three times (two restarts). */
  lemma ClearLoop()
    ensures Interpret("+++[-]", Fresh, 2) == Outcome(Done, Machine([0], 0, Some((0, '-')), ""))
  {
    ClearLoopClears(3);
    assert ClearProgram(3) == "+++[-]";
  }

  function MoveProgram(n: nat): seq<char> {
    seq(n, _ => '+') + "[>+<-]"
  }

  lemma MoveProgramMatch(n: nat)
    ensures MatchEnd(MoveProgram(n), n) == Some(n + 5)
    ensures MoveProgram(n)[n + 1..n + 5] == ">+<-"
  {
    var code := MoveProgram(n);
    assert code[n + 1] == '>' && code[n + 2] == '+' && code[n + 3] == '<';
    assert code[n + 4] == '-' && code[n + 5] == ']';
    assert FindClose(code, n + 5, 0) == Some(n + 5);
    assert FindClose(code, n + 3, 0) == FindClose(code, n + 4, 0) == Some(n + 5);
    assert FindClose(code, n + 1, 0) == FindClose(code, n + 2, 0) == Some(n + 5);
    assert code[n + 1..n + 5] == ">+<-";
  }

  /** `>+<-` entered on a lone positive cell empties it into a new cell. */
  lemma TransferFromLoneCell(m: Machine, fuel: nat)
    requires m.pos == 0 && |m.tape| == 1 && 1 <= Current(m) <= I32Max
    requires Current(m) - 1 <= fuel
    ensures Run(">+<-", true, 0, m, fuel) ==
            Outcome(Done, Machine([0, Current(m)], 0, Some((3, '-')), m.output))
  {
    var a := Current(m);
    var grown := m.(tape := [a, 0]);
    TransferGrows(m, fuel);
    assert m.(tape := m.tape + [0]) == grown;
    Transfer(grown, fuel);
    assert grown.tape[0 := 0][1 := a + 0] == [0, a];
  }

  /** `n` times `+`, then `[>+<-]`, leaves `n` in the second cell. The body
      runs `n` times, so `n - 1` restarts are needed. */
  lemma MoveLoop(n: nat)
    requires 1 <= n <= I32Max
    ensures Interpret(MoveProgram(n), Fresh, n - 1) ==
            Outcome(Done, Machine([0, n], 0, Some((3, '-')), ""))
  {
    var code := MoveProgram(n);
    var m := Machine([n], 0, Some((n - 1, '+')), "");
    IncrementsAdd(code, false, 0, n, Fresh, n - 1);
    assert Fresh.tape[0 := n] == [n];
    assert Run(code, false, 0, Fresh, n - 1) == Run(code, false, n, m, n - 1);
    MoveLoopFromBracket(n, m);
  }

  /** The loop of `MoveProgram(n)`, reached with `n` in the lone cell. */
  lemma MoveLoopFromBracket(n: nat, m: Machine)
    requires 1 <= n <= I32Max && m == Machine([n], 0, Some((n - 1, '+')), "")
    ensures Run(MoveProgram(n), false, n, m, n - 1) ==
            Outcome(Done, Machine([0, n], 0, Some((3, '-')), ""))
  {
    var code := MoveProgram(n);
    var done := Machine([0, n], 0, Some((3, '-')), "");
    MoveProgramMatch(n);
    RunAtOpen(code, false, n, n + 5, m, n - 1);
    TransferFromLoneCell(m, n - 1);
    assert Run(code, false, n, m, n - 1) == Run(code, false, n + 6, done, n - 1);
    RunAtEnd(code, false, done, n - 1);
  }

  /** `+++[>+<-]` moves three units into the next cell. */
  lemma MoveThree()
    ensures Interpret("+++[>+<-]", Fresh, 2) == Outcome(Done, Machine([0, 3], 0, Some((3, '-')), ""))
  {
    MoveLoop(3);
    assert MoveProgram(3) == "+++[>+<-]";
  }

  /** Brackets are matched through two levels of nesting. */
  lemma NestedMatch()
    ensures MatchEnd("++[>++[>+<-]<-]", 2) == Some(14)
    ensures MatchEnd(">++[>+<-]<-", 3) == Some(8)
  {
    assert FindClose("++[>++[>+<-]<-]", 3, 0) == Some(14);
    assert FindClose(">++[>+<-]<-", 4, 0) == Some(8);
  }

  /** `?` prints the cell in decimal, `-` included. */
  lemma DecimalOutput()
    ensures Interpret("+++?", Fresh, 0).machine.output == "3"
    ensures Interpret("-?", Fresh, 0).machine.output == "-1"
  {
  }

  /** `n` times `+`, then `.`, prints one character: the low eight bits of `n`. */
  lemma PrintsLowByte(n: nat)
    requires 1 <= n <= I32Max
    ensures Interpret(seq(n, _ => '+') + ".", Fresh, 0) ==
            Outcome(Done, Machine([n], 0, Some((n - 1, '+')), [ByteChar(n)]))
  {
    var code := seq(n, _ => '+') + ".";
    var m := Machine([n], 0, Some((n - 1, '+')), "");
    IncrementsAdd(code, false, 0, n, Fresh, 0);
    assert Fresh.tape[0 := n] == [n];
    assert code[n] == '.';
    RunAtSymbol(code, false, n, m, 0);
    RunAtEnd(code, false, m.(output := [ByteChar(n)]), 0);
  }

  /** `.` keeps only the low eight bits: 321 `+` print `A`. */
  lemma ByteOutput()
    ensures Interpret(seq(321, _ => '+') + ".", Fresh, 0).machine.output == "A"
  {
    PrintsLowByte(321);
    assert ByteChar(321) == 'A';
  }

  /** A cell holding -1 prints as the byte 255. */
  lemma NegativeByteOutput()
    ensures Interpret("-.", Fresh, 0).machine.output == [255 as char]
  {
    var low := Machine([-1], 0, Some((0, '-')), "");
    assert Step(Fresh, 0, '-') == low;
    RunAtSymbol("-.", false, 0, Fresh, 0);
    RunAtSymbol("-.", false, 1, low, 0);
    assert ByteChar(-1) == 255 as char;
  }

  /** Letters and spaces are skipped. */
  lemma CommentsSkipped()
    ensures Interpret("a+ b+c?", Fresh, 0) == Outcome(Done, Machine([2], 0, Some((4, '+')), "2"))
  {
  }

  /** A loop body runs once before the cell is tested: on a zero cell `[>]`
      still moves right, and `[?]` still prints. */
  lemma BodyRunsBeforeTest()
    ensures Interpret("[>]", Fresh, 0) == Outcome(Done, Machine([0, 0], 1, Some((0, '>')), ""))
    ensures Interpret("[?]", Fresh, 0).machine.output == "0"
  {
  }

  /** A `[` without its `]` is a fault once the scan runs off the text. */
  lemma UnmatchedOpenFaults()
    ensures Interpret("+[", Fresh, 0) == Outcome(Faulted(UnmatchedBracket), Machine([1], 0, Some((0, '+')), ""))
  {
  }

  /** `<` on cell 0 is a fault. */
  lemma LeftAtOriginFaults()
    ensures Interpret("<", Fresh, 0) == Outcome(Faulted(LeftOfOrigin), Fresh)
  {
  }

  /** A `]` met by the scan itself (not by bracket matching) does nothing. */
  lemma StrayCloseSkipped()
    ensures Interpret("]", Fresh, 0) == Outcome(Done, Fresh)
  {
  }

  /** `+[]` never finishes, whatever the fuel. */
  lemma EmptyLoopRunsForever(fuel: nat)
    ensures Interpret("+[]", Fresh, fuel).status == OutOfFuel
  {
    var code := "+[]";
    var m := Machine([1], 0, Some((0, '+')), "");
    assert [0][0 := 1] == [1];
    assert Step(Fresh, 0, '+') == m;
    assert Run(code, false, 0, Fresh, fuel) == Run(code, false, 1, m, fuel);
    assert FindClose(code, 2, 0) == Some(2);
    RunAtOpen(code, false, 1, 2, m, fuel);
    assert code[2..2] == [];
    EmptyBodyNeverEnds(m, fuel);
  }
}
