/**
 The `index` cursor of the parser and the two loops of `write` that drive it,
 as imperative methods checked against the folds of the Passes module.

 The cursor starts at -1. `hasMoreLines()` tests `index < length`, so the
 last iteration of a loop advances the cursor to `length` and then reads
 `instructions[length]`, which throws `ArrayIndexOutOfBoundsException`. The
 throw happens at the end of pass 1 on every input, the empty one included,
 and pass 2 never runs. `Write` is the same code with the test corrected to
 `index + 1 < length`.
 */
module Cursor {
  import opened SymbolTable
  import opened Instructions
  import opened Passes
  import opened Strings

  /** How `write` ends: both passes complete, or `instructions[index]` throws. */
  datatype Outcome = Completed(table: Table, addresses: seq<int>) | ArrayIndexOutOfBounds(index: int, table: Table)

  /** What `currentInstruction()` yields: a line ("" before the first advance), or the throw. */
  datatype Read = Line(text: string) | OutOfBounds(index: int)

  /** `hasMoreLines()` as written. */
  predicate HasMoreLines(index: int, length: nat) {
    index < length
  }

  /** `hasMoreLines()` as evidently intended: there is a line after the current one. */
  predicate HasNextLine(index: int, length: nat) {
    index + 1 < length
  }

  /** `currentInstruction()`: "" while the cursor is before the first line, the line under the
      cursor, or the throw once the cursor is past the last line. */
  function CurrentInstruction(instructions: seq<string>, index: int): (r: Read)
    ensures r.OutOfBounds? <==> index >= |instructions|
    ensures 0 <= index < |instructions| ==> r == Line(instructions[index])
  {
    if index < 0 then Line("")
    else if index < |instructions| then Line(instructions[index])
    else OutOfBounds(index)
  }

  /** The first loop of `write` as written, up to the throw: every line is visited and classified
      (labels bound at `lineNumber + 1`), then the cursor reaches `length` and the read throws.
      Whatever the input, `write` ends there with the table pass 1 built. */
  method WriteAsWritten(instructions: seq<string>, predefined: Table) returns (r: Outcome)
    ensures r == ArrayIndexOutOfBounds(|instructions|, FirstPass(instructions, predefined, 0, 1).table)
  {
    var table := predefined;
    var lineNumber := 0;
    var index := -1;
    while HasMoreLines(index, |instructions|)
      invariant -1 <= index <= |instructions|
      invariant index < |instructions| ==>
        FirstPass(instructions[index + 1..], table, lineNumber, 1) == FirstPass(instructions, predefined, 0, 1)
      invariant index == |instructions| ==> table == FirstPass(instructions, predefined, 0, 1).table
      decreases |instructions| - index
    {
      index := index + 1;
      match CurrentInstruction(instructions, index)
      case OutOfBounds(_) =>
        break;
      case Line(line) =>
        assert instructions[index..][0] == line && instructions[index..][1..] == instructions[index + 1..];
        if IsLabel(line) {
          table := AddEntry(table, Symbol(line), lineNumber + 1);
        } else {
          lineNumber := lineNumber + 1;
        }
    }
    r := ArrayIndexOutOfBounds(index, table);
  }

  /** Both loops of `write` with the corrected cursor test: the reads stay in bounds, pass 1
      binds the labels with the given bias, and pass 2 binds the variables and yields one address
      per A line, exactly as the folds do. */
  method Write(instructions: seq<string>, predefined: Table, bias: int) returns (r: Outcome)
    ensures var one := FirstPass(instructions, predefined, 0, bias);
      var two := SecondPass(instructions, one.table, 0);
      r == Completed(two.table, two.addresses)
  {
    var labels, _ := LabelLoop(instructions, predefined, bias);
    var table, _, addresses := VariableLoop(instructions, labels);
    r := Completed(table, addresses);
  }

  /** The first loop with the corrected test: the table and line counter it ends with are those
      of pass 1. */
  method LabelLoop(instructions: seq<string>, predefined: Table, bias: int) returns (table: Table, lineNumber: int)
    ensures PassOne(table, lineNumber) == FirstPass(instructions, predefined, 0, bias)
  {
    table := predefined;
    lineNumber := 0;
    var index := -1;
    while HasNextLine(index, |instructions|)
      invariant -1 <= index < |instructions|
      invariant FirstPass(instructions[index + 1..], table, lineNumber, bias) == FirstPass(instructions, predefined, 0, bias)
      decreases |instructions| - index
    {
      index := index + 1;
      var line := instructions[index];
      assert instructions[index..][0] == line && instructions[index..][1..] == instructions[index + 1..];
      if IsLabel(line) {
        table := AddEntry(table, Symbol(line), lineNumber + bias);
      } else {
        lineNumber := lineNumber + 1;
      }
    }
    assert instructions[index + 1..] == [];
  }

  /** The second loop with the corrected test, from the variable counter at 0: the table, the
      counter and the addresses it ends with are those of pass 2. */
  method VariableLoop(instructions: seq<string>, labels: Table) returns (table: Table, variables: int, addresses: seq<int>)
    ensures PassTwo(table, variables, addresses) == SecondPass(instructions, labels, 0)
  {
    table := labels;
    variables := 0;
    addresses := [];
    var index := -1;
    while HasNextLine(index, |instructions|)
      invariant -1 <= index < |instructions|
      invariant Continues(instructions, index, labels, table, variables, addresses)
      decreases |instructions| - index
    {
      index := index + 1;
      var line := instructions[index];
      ghost var before := PassTwo(table, variables, addresses);
      if IsAddress(line) {
        var sym := Symbol(line);
        if !Contains(table, sym) {
          table := AddEntry(table, sym, VariableStart + variables);
          variables := variables + 1;
        }
        addresses := addresses + [GetAddress(table, sym)];
      }
      VariableStep(instructions, index, labels, before, PassTwo(table, variables, addresses));
    }
    assert instructions[index + 1..] == [];
  }

  /** After the line at `index`, finishing pass 2 from the loop's state gives pass 2 of the whole
      program. */
  predicate Continues(instructions: seq<string>, index: int, labels: Table, table: Table, variables: int, addresses: seq<int>)
    requires -1 <= index < |instructions|
  {
    var rest := SecondPass(instructions[index + 1..], table, variables);
    SecondPass(instructions, labels, 0) == PassTwo(rest.table, rest.variables, addresses + rest.addresses)
  }

  /** One iteration of the second loop keeps `Continues`. */
  lemma VariableStep(instructions: seq<string>, index: int, labels: Table, before: PassTwo, after: PassTwo)
    requires 0 <= index < |instructions|
    requires Continues(instructions, index - 1, labels, before.table, before.variables, before.addresses)
    requires var line := instructions[index];
      var isNew := IsAddress(line) && Symbol(line) !in before.table;
      && after.table == (if isNew then AddEntry(before.table, Symbol(line), VariableStart + before.variables) else before.table)
      && after.variables == (if isNew then before.variables + 1 else before.variables)
      && after.addresses == before.addresses + (if IsAddress(line) then [after.table[Symbol(line)]] else [])
    ensures Continues(instructions, index, labels, after.table, after.variables, after.addresses)
  {
    var line := instructions[index];
    assert instructions[index..][0] == line && instructions[index..][1..] == instructions[index + 1..];
    SecondPassUnfold(instructions[index..], before.table, before.variables);
    ConcatAssociative(before.addresses, after.addresses[|before.addresses|..], SecondPass(instructions[index + 1..], after.table, after.variables).addresses);
  }
}
