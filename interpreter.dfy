/** The interpreter object: its fields are updated in place by each
    instruction, and `InterpretSlice` recurses for loop bodies. */
module Interpreter {
  import opened Wrappers
  import opened Cells
  import opened Brackets
  import opened Semantics

  class BrainFuck {
    var tape: seq<int>
    var pos: nat
    var lastInstruct: Option<(nat, char)>
    var output: string

    /** The fields read as a `Machine` value. */
    function State(): Machine
      reads this
    {
      Machine(tape, pos, lastInstruct, output)
    }

    ghost predicate Valid()
      reads this
    {
      Semantics.Valid(State())
    }

    constructor ()
      ensures Valid() && State() == Fresh
    {
      tape := [0];
      pos := 0;
      lastInstruct := None;
      output := "";
    }

    function CurrentVal(): (v: int)
      reads this
      requires Valid()
      ensures IsI32(v) && v == Current(State())
    {
      tape[pos]
    }

    /** `*self.current_val_mut() += delta`, wrapping at the `i32` bounds. */
    method AddToCurrent(delta: int)
      requires Valid()
      modifies this
      ensures Valid()
      ensures tape == old(tape)[old(pos) := Wrap32(old(tape)[old(pos)] + delta)]
      ensures pos == old(pos) && lastInstruct == old(lastInstruct) && output == old(output)
    {
      tape := tape[pos := Wrap32(tape[pos] + delta)];
    }

    method MoveRight()
      requires Valid()
      modifies this
      ensures Valid()
      ensures State() == Right(old(State()))
      ensures pos == old(pos) + 1 && old(tape) <= tape && |tape| <= |old(tape)| + 1
    {
      if pos + 1 >= |tape| {
        tape := tape + [0];
      }
      pos := pos + 1;
    }

    method MoveLeft()
      requires Valid() && pos > 0
      modifies this
      ensures Valid()
      ensures pos == old(pos) - 1
      ensures tape == old(tape) && lastInstruct == old(lastInstruct) && output == old(output)
    {
      pos := pos - 1;
    }

    /** Finds the `]` matching the `[` at `startPos`, scanning from just past
        it. Returns the text strictly between the two brackets and the offset
        the scan stops at (just past the `]`); `None` where `unwrap` would
        panic on exhausted text. */
    static method SliceBracket(code: seq<char>, startPos: nat) returns (r: Option<(seq<char>, nat)>)
      requires startPos < |code|
      ensures r.None? <==> forall j: nat :: !IsMatch(code, startPos, j)
      ensures r.Some? ==> r.value.1 >= 1 && IsMatch(code, startPos, r.value.1 - 1)
      ensures r.Some? ==> r.value.0 == code[startPos + 1..r.value.1 - 1] && Balanced(r.value.0)
    {
      var bracketDepth: nat := 0;
      var k := startPos + 1;
      while k < |code|
        invariant startPos + 1 <= k <= |code|
        invariant FindClose(code, k, bracketDepth) == MatchEnd(code, startPos)
      {
        var c := code[k];
        if c == '[' {
          bracketDepth := bracketDepth + 1;
        } else if c == ']' {
          if bracketDepth == 0 {
            return Some((code[startPos + 1..k], k + 1));
          }
          bracketDepth := bracketDepth - 1;
        }
        k := k + 1;
      }
      return None;
    }

    /** One symbol other than `[` at offset `i` of the slice being scanned. */
    method Execute(i: nat, x: char)
      requires Valid()
      requires x != '[' && (x == '<' ==> pos > 0)
      modifies this
      ensures Valid()
      ensures State() == Step(old(State()), i, x)
    {
      if x == '+' {
        AddToCurrent(1);
        lastInstruct := Some((i, x));
      } else if x == '-' {
        AddToCurrent(-1);
        lastInstruct := Some((i, x));
      } else if x == '>' {
        MoveRight();
        lastInstruct := Some((i, x));
      } else if x == '<' {
        MoveLeft();
        lastInstruct := Some((i, x));
      } else if x == '.' {
        output := output + [ByteChar(CurrentVal())];
      } else if x == '?' {
        output := output + Decimal(CurrentVal());
      }
    }

    /** The `bracket_scan` branch of `_interpret`: slice out the body of the
        `[` at `start` and run it as a loop body. `next` is where the outer
        scan resumes. */
    method RunLoopBody(code: seq<char>, inBracket: bool, start: nat, fuel: nat) returns (status: Status, next: nat)
      requires Valid() && start < |code| && code[start] == '['
      modifies this
      ensures Valid()
      ensures next <= |code| && (status == Done ==> start + 1 < next)
      ensures status == Done ==> MatchEnd(code, start) == Some(next - 1)
      ensures status == Done ==>
                Run(code[start + 1..next - 1], true, 0, old(State()), fuel) == Outcome(Done, State())
      ensures status == Done ==>
                Run(code, inBracket, start, old(State()), fuel) == Run(code, inBracket, next, State(), fuel)
      ensures status != Done ==>
                Run(code, inBracket, start, old(State()), fuel) == Outcome(status, State())
      decreases |code|, 0
    {
      ghost var m := State();
      var sliced := SliceBracket(code, start);
      if sliced.None? {
        return Faulted(UnmatchedBracket), |code|;
      }
      var body;
      body, next := sliced.value.0, sliced.value.1;
      RunAtOpen(code, inBracket, start, next - 1, m, fuel);
      MatchUnique(code, start, next - 1, MatchEnd(code, start).value);
      status := InterpretSlice(body, true, fuel);
    }

    /** `_interpret`: scan `code`; for a loop body (`inBracket`) rescan it
        while the current cell is non-zero at its end, at most `fuel` times. */
    method InterpretSlice(code: seq<char>, inBracket: bool, fuel: nat) returns (status: Status)
      requires Valid()
      modifies this
      ensures Valid()
      ensures Run(code, inBracket, 0, old(State()), fuel) == Outcome(status, State())
      decreases |code|, 1
    {
      ghost var goal := Run(code, inBracket, 0, State(), fuel);
      var chars: nat := 0;
      var bracketScan: Option<nat> := None;
      var left := fuel;
      while true
        invariant Valid()
        invariant chars <= |code|
        invariant bracketScan.Some? ==>
                    var start := bracketScan.value;
                    start < |code| && code[start] == '[' && chars == start + 1
                    && goal == Run(code, inBracket, start, State(), left)
        invariant bracketScan.None? ==> goal == Run(code, inBracket, chars, State(), left)
        decreases left, 2 * (|code| - chars) + (if bracketScan.None? then 1 else 0)
      {
        ghost var m := State();
        if bracketScan.Some? {
          var start := bracketScan.value;
          bracketScan := None;
          var st, next := RunLoopBody(code, inBracket, start, left);
          if st != Done {
            return st;
          }
          chars := next;
        } else if chars < |code| {
          var i, x := chars, code[chars];
          chars := chars + 1;
          if x == '[' {
            bracketScan := Some(i);
          } else {
            RunAtSymbol(code, inBracket, i, m, left);
            if x == '<' && pos == 0 {
              return Faulted(LeftOfOrigin);
            }
            Execute(i, x);
            assert goal == Run(code, inBracket, i + 1, State(), left);
          }
        } else if inBracket && CurrentVal() != 0 {
          RunAtEnd(code, inBracket, m, left);
          if left == 0 {
            return OutOfFuel;
          }
          left := left - 1;
          chars := 0;
        } else {
          RunAtEnd(code, inBracket, m, left);
          return Done;
        }
      }
    }

    /** `interpret`: run the whole text at top level and hand back the output. */
    method Interpret(code: seq<char>, fuel: nat) returns (status: Status, out: string)
      requires Valid()
      modifies this
      ensures Valid()
      ensures Semantics.Interpret(code, old(State()), fuel) == Outcome(status, State())
      ensures out == output
    {
      status := InterpretSlice(code, false, fuel);
      out := output;
    }
  }
}
