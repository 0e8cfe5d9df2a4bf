/** The interpreter's state as a value, and what running a slice of program
    text does to it. This is the specification the `BrainFuck` class is
    proved against. */
module Semantics {
  import opened Wrappers
  import opened Cells
  import opened Brackets

  /** Tape, cursor, last executed instruction (offset in its slice, symbol)
      and the output buffer. */
  datatype Machine = Machine(tape: seq<int>, pos: nat, last: Option<(nat, char)>, output: string)

  datatype Fault =
    | UnmatchedBracket  // `slice_bracket` runs off the end of the text
    | LeftOfOrigin      // `<` with the cursor on cell 0

  datatype Status = Done | Faulted(fault: Fault) | OutOfFuel

  datatype Outcome = Outcome(status: Status, machine: Machine)

  /** The cursor is on the tape and every cell is an `i32`. */
  predicate Valid(m: Machine) {
    m.pos < |m.tape| && forall k :: 0 <= k < |m.tape| ==> IsI32(m.tape[k])
  }

  /** The state `BrainFuck::new` builds. */
  const Fresh: Machine := Machine([0], 0, None, "")

  function Current(m: Machine): int
    requires m.pos < |m.tape|
  {
    m.tape[m.pos]
  }

  /** The symbols that update the last-instruction marker. */
  predicate IsMove(c: char) {
    c == '+' || c == '-' || c == '<' || c == '>'
  }

  predicate IsInstruction(c: char) {
    IsMove(c) || c == '.' || c == '?' || c == '['
  }

  /** `move_right`: append a zero cell when the cursor is on the last cell,
      then advance. */
  function Right(m: Machine): (r: Machine)
    requires Valid(m)
    ensures Valid(r)
    ensures r.pos == m.pos + 1
    ensures |r.tape| == if r.pos < |m.tape| then |m.tape| else r.pos + 1
    ensures r.tape[..|m.tape|] == m.tape
    ensures forall k :: |m.tape| <= k < |r.tape| ==> r.tape[k] == 0
    ensures r.last == m.last && r.output == m.output
  {
    var tape := if m.pos + 1 >= |m.tape| then m.tape + [0] else m.tape;
    m.(tape := tape, pos := m.pos + 1)
  }

  /** Adding `delta` to the current cell with `i32` wrap-around. */
  function Bump(m: Machine, delta: int): (r: Machine)
    requires Valid(m)
    ensures Valid(r)
    ensures |r.tape| == |m.tape| && r.pos == m.pos
    ensures forall k :: 0 <= k < |m.tape| && k != m.pos ==> r.tape[k] == m.tape[k]
    ensures (Current(r) - (Current(m) + delta)) % I32Span == 0
    ensures r.last == m.last && r.output == m.output
  {
    m.(tape := m.tape[m.pos := Wrap32(m.tape[m.pos] + delta)])
  }

  /** One instruction other than `[`, found at offset `i` of its slice. */
  function Step(m: Machine, i: nat, c: char): (r: Machine)
    requires Valid(m)
    requires c != '[' && (c == '<' ==> m.pos > 0)
    ensures Valid(r)
    ensures |m.tape| <= |r.tape| <= |m.tape| + 1
    ensures m.output <= r.output
    ensures IsMove(c) ==> r.last == Some((i, c)) && r.output == m.output
    ensures !IsMove(c) ==> r.last == m.last && r.tape == m.tape && r.pos == m.pos
    ensures !IsInstruction(c) ==> r == m
  {
    match c
    case '+' => Bump(m, 1).(last := Some((i, c)))
    case '-' => Bump(m, -1).(last := Some((i, c)))
    case '>' => Right(m).(last := Some((i, c)))
    case '<' => m.(pos := m.pos - 1, last := Some((i, c)))
    case '.' => m.(output := m.output + [ByteChar(Current(m))])
    case '?' => m.(output := m.output + Decimal(Current(m)))
    case _ => m
  }

  /** `_interpret(code, in_bracket)` resumed at offset `i` of `code`.
      A `[` runs its body at once, before any test of the cell; the outer
      scan then resumes just past the matching `]`. At the end of a loop
      body the scan restarts from offset 0 while the current cell is
      non-zero; each restart spends one unit of `fuel`, and a nested body
      is given what its caller has left. */
  function Run(code: seq<char>, inBracket: bool, i: nat, m: Machine, fuel: nat): (r: Outcome)
    requires Valid(m) && i <= |code|
    ensures Valid(r.machine)
    ensures inBracket && r.status == Done ==> Current(r.machine) == 0
    decreases |code|, fuel, |code| - i
  {
    if i == |code| then
      if inBracket && Current(m) != 0 then
        if fuel == 0 then Outcome(OutOfFuel, m)
        else Run(code, inBracket, 0, m, fuel - 1)
      else Outcome(Done, m)
    else if code[i] == '[' then
      match MatchEnd(code, i)
      case None => Outcome(Faulted(UnmatchedBracket), m)
      case Some(j) =>
        var body := Run(code[i + 1..j], true, 0, m, fuel);
        if body.status != Done then body
        else Run(code, inBracket, j + 1, body.machine, fuel)
    else if code[i] == '<' && m.pos == 0 then Outcome(Faulted(LeftOfOrigin), m)
    else Run(code, inBracket, i + 1, Step(m, i, code[i]), fuel)
  }

  /** The three ways a scan step unfolds, one lemma each. */
  lemma RunAtEnd(code: seq<char>, inBracket: bool, m: Machine, fuel: nat)
    requires Valid(m)
    ensures Run(code, inBracket, |code|, m, fuel) ==
              if inBracket && Current(m) != 0 then
                if fuel == 0 then Outcome(OutOfFuel, m) else Run(code, inBracket, 0, m, fuel - 1)
              else Outcome(Done, m)
  {
  }

  lemma RunAtSymbol(code: seq<char>, inBracket: bool, i: nat, m: Machine, fuel: nat)
    requires Valid(m) && i < |code| && code[i] != '['
    ensures Run(code, inBracket, i, m, fuel) ==
              if code[i] == '<' && m.pos == 0 then Outcome(Faulted(LeftOfOrigin), m)
              else Run(code, inBracket, i + 1, Step(m, i, code[i]), fuel)
  {
  }

  lemma RunAtOpen(code: seq<char>, inBracket: bool, i: nat, j: nat, m: Machine, fuel: nat)
    requires Valid(m) && i < |code| && code[i] == '[' && IsMatch(code, i, j)
    ensures Run(code[i + 1..j], true, 0, m, fuel).status != Done ==>
              Run(code, inBracket, i, m, fuel) == Run(code[i + 1..j], true, 0, m, fuel)
    ensures Run(code[i + 1..j], true, 0, m, fuel).status == Done ==>
              Run(code, inBracket, i, m, fuel) ==
              Run(code, inBracket, j + 1, Run(code[i + 1..j], true, 0, m, fuel).machine, fuel)
  {
    MatchEndIs(code, i, j);
  }

  /** `interpret(code)`: the whole text at top level. */
  function Interpret(code: seq<char>, m: Machine, fuel: nat): (r: Outcome)
    requires Valid(m)
    ensures Valid(r.machine)
  {
    Run(code, false, 0, m, fuel)
  }
}
