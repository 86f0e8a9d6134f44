/**
 The two passes of `Parser.write` over the normalised program, as folds over
 the sequence of lines with their counters as accumulators.

 Pass 1 walks the lines with a ROM line counter: an A or C line advances it,
 an L line binds its symbol to the counter plus a bias. The code adds 1
 (`lineNumber + 1`); the Hack definition binds a label to the address of the
 next instruction, that is bias 0. Pass 2 walks the lines again with a
 variable counter: an A line whose symbol is not yet in the table binds it to
 16 plus the counter and advances the counter; numerals such as `@5` are not
 special, they are symbols like any other. Each A line yields the address its
 symbol then has, the number the code writes after "@".
 */
module Passes {
  import opened SymbolTable
  import opened Instructions
  import opened Source
  import opened Strings

  /** `VARIABLE_START`: the first RAM address handed to a variable. */
  const VariableStart: int := 16

  predicate IsLabel(line: string) {
    TypeOf(line) == LInstruction
  }

  predicate IsAddress(line: string) {
    TypeOf(line) == AInstruction
  }

  /** The number of A and C lines: the instructions that occupy a ROM word. */
  function CountReal(prog: seq<string>): (n: nat)
    ensures n <= |prog|
  {
    if |prog| == 0 then 0 else (if IsLabel(prog[0]) then 0 else 1) + CountReal(prog[1..])
  }

  /** The symbols of the lines of the given kind. */
  function Symbols(prog: seq<string>, kind: InstructionType): set<string> {
    if |prog| == 0 then {}
    else (if TypeOf(prog[0]) == kind then {Symbol(prog[0])} else {}) + Symbols(prog[1..], kind)
  }

  /** The symbols the L lines define. */
  function LabelSymbols(prog: seq<string>): set<string> {
    Symbols(prog, LInstruction)
  }

  /** The symbols the A lines use. */
  function AddressSymbols(prog: seq<string>): set<string> {
    Symbols(prog, AInstruction)
  }

  /** A symbol belongs to the set exactly when some line of that kind carries it. */
  lemma {:induction false} SymbolsMeaning(prog: seq<string>, kind: InstructionType, s: string)
    ensures s in Symbols(prog, kind) <==> exists i :: 0 <= i < |prog| && TypeOf(prog[i]) == kind && Symbol(prog[i]) == s
  {
    if |prog| > 0 {
      SymbolsMeaning(prog[1..], kind, s);
      if exists i :: 0 <= i < |prog| && TypeOf(prog[i]) == kind && Symbol(prog[i]) == s {
        var i :| 0 <= i < |prog| && TypeOf(prog[i]) == kind && Symbol(prog[i]) == s;
        if i > 0 {
          assert prog[1..][i - 1] == prog[i];
        }
      }
      if s in Symbols(prog[1..], kind) {
        var i :| 0 <= i < |prog| - 1 && TypeOf(prog[1..][i]) == kind && Symbol(prog[1..][i]) == s;
        assert prog[i + 1] == prog[1..][i];
      }
    }
  }

  /** The symbols of the A lines, one per A line, in program order. */
  function AddressOperands(prog: seq<string>): (ops: seq<string>)
    ensures forall k :: 0 <= k < |ops| ==> ops[k] in AddressSymbols(prog)
    ensures forall s :: s in AddressSymbols(prog) ==> s in ops
  {
    if |prog| == 0 then []
    else if IsAddress(prog[0]) then [Symbol(prog[0])] + AddressOperands(prog[1..])
    else AddressOperands(prog[1..])
  }

  /** The operands of a program are those of its parts, in order. */
  lemma {:induction false} AddressOperandsAppend(a: seq<string>, b: seq<string>)
    ensures AddressOperands(a + b) == AddressOperands(a) + AddressOperands(b)
  {
    if |a| == 0 {
      assert a + b == b;
    } else {
      assert (a + b)[0] == a[0] && (a + b)[1..] == a[1..] + b;
      AddressOperandsAppend(a[1..], b);
      var head := if IsAddress(a[0]) then [Symbol(a[0])] else [];
      ConcatAssociative(head, AddressOperands(a[1..]), AddressOperands(b));
    }
  }

  /** A single line contributes its symbol when it is an A line, and nothing otherwise. */
  lemma AddressOperandsOfLine(line: string)
    ensures AddressOperands([line]) == if IsAddress(line) then [Symbol(line)] else []
  {
    assert [line][1..] == [];
  }

  // ---------------------------------------------------------------------------
  // Pass 1: labels

  datatype PassOne = PassOne(table: Table, lineNumber: int)

  /** The first loop of `write`: A and C lines advance the line counter, an L line binds its
      symbol to the counter plus `bias` (1 in the code). Only label symbols are added, and
      every other binding of the table survives. */
  function FirstPass(prog: seq<string>, table: Table, lineNumber: int, bias: int): (r: PassOne)
    ensures r.lineNumber == lineNumber + CountReal(prog)
    ensures r.table.Keys == table.Keys + LabelSymbols(prog)
    ensures forall s :: s in table && s !in LabelSymbols(prog) ==> r.table[s] == table[s]
  {
    if |prog| == 0 then PassOne(table, lineNumber)
    else
      var line := prog[0];
      if IsLabel(line) then FirstPass(prog[1..], AddEntry(table, Symbol(line), lineNumber + bias), lineNumber, bias)
      else FirstPass(prog[1..], table, lineNumber + 1, bias)
  }

  /** The line counter is additive over concatenation; in particular an L line appended to a
      program leaves the count unchanged and an A or C line adds one. */
  lemma {:induction false} CountRealAppend(a: seq<string>, b: seq<string>)
    ensures CountReal(a + b) == CountReal(a) + CountReal(b)
  {
    if |a| == 0 {
      assert a + b == b;
    } else {
      assert (a + b)[0] == a[0] && (a + b)[1..] == a[1..] + b;
      CountRealAppend(a[1..], b);
    }
  }

  /** An L line does not advance the counter; an A or C line advances it by exactly one. */
  lemma CountRealStep(prog: seq<string>, j: nat)
    requires j < |prog|
    ensures CountReal(prog[..j + 1]) == CountReal(prog[..j]) + (if IsLabel(prog[j]) then 0 else 1)
  {
    assert prog[..j + 1] == prog[..j] + [prog[j]];
    CountRealAppend(prog[..j], [prog[j]]);
  }

  /** Each L line binds its symbol to the counter's start plus the number of A and C lines
      before it plus `bias`, unless a later L line defines the same symbol again. */
  lemma {:induction false} FirstPassBindsLabel(prog: seq<string>, table: Table, lineNumber: int, bias: int, j: nat)
    requires j < |prog| && IsLabel(prog[j])
    requires forall k :: j < k < |prog| && IsLabel(prog[k]) ==> Symbol(prog[k]) != Symbol(prog[j])
    ensures Symbol(prog[j]) in FirstPass(prog, table, lineNumber, bias).table
    ensures FirstPass(prog, table, lineNumber, bias).table[Symbol(prog[j])] == lineNumber + CountReal(prog[..j]) + bias
  {
    var line := prog[0];
    var sym := Symbol(prog[j]);
    var next := if IsLabel(line) then lineNumber else lineNumber + 1;
    var t := if IsLabel(line) then AddEntry(table, Symbol(line), lineNumber + bias) else table;
    FirstPassStep(prog, table, lineNumber, bias);
    if j == 0 {
      NoLaterLabel(prog, sym);
      assert prog[..0] == [];
    } else {
      assert prog[1..][j - 1] == prog[j];
      FirstPassBindsLabel(prog[1..], t, next, bias, j - 1);
      CountRealPrefix(prog, j);
    }
  }

  /** One step of pass 1: the first line's effect on the table and the counter. */
  lemma FirstPassStep(prog: seq<string>, table: Table, lineNumber: int, bias: int)
    requires |prog| > 0
    ensures var line := prog[0];
      var next := if IsLabel(line) then lineNumber else lineNumber + 1;
      var t := if IsLabel(line) then AddEntry(table, Symbol(line), lineNumber + bias) else table;
      FirstPass(prog, table, lineNumber, bias) == FirstPass(prog[1..], t, next, bias)
  {
  }

  /** The count of a nonempty prefix is the first line's share plus the count of the rest. */
  lemma CountRealPrefix(prog: seq<string>, j: nat)
    requires 0 < j <= |prog|
    ensures CountReal(prog[..j]) == (if IsLabel(prog[0]) then 0 else 1) + CountReal(prog[1..][..j - 1])
  {
    assert prog[..j] == [prog[0]] + prog[1..][..j - 1];
    CountRealAppend([prog[0]], prog[1..][..j - 1]);
  }

  /** A symbol that no L line after the first defines is not among the labels of the rest. */
  lemma NoLaterLabel(prog: seq<string>, sym: string)
    requires |prog| > 0
    requires forall k :: 0 < k < |prog| && IsLabel(prog[k]) ==> Symbol(prog[k]) != sym
    ensures sym !in LabelSymbols(prog[1..])
  {
    SymbolsMeaning(prog[1..], LInstruction, sym);
    forall k | 0 <= k < |prog| - 1 ensures !(IsLabel(prog[1..][k]) && Symbol(prog[1..][k]) == sym) {
      assert prog[1..][k] == prog[k + 1];
    }
  }

  // ---------------------------------------------------------------------------
  // Pass 2: variables

  /** The A-line symbols that are new, relative to `known`, in order of first appearance:
      each distinct one once. */
  function Fresh(prog: seq<string>, known: set<string>): (f: seq<string>)
    ensures forall i, j :: 0 <= i < j < |f| ==> f[i] != f[j]
    ensures forall i :: 0 <= i < |f| ==> f[i] !in known && f[i] in AddressSymbols(prog)
    ensures forall s :: s in AddressSymbols(prog) && s !in known ==> s in f
  {
    if |prog| == 0 then []
    else
      if IsAddress(prog[0]) && Symbol(prog[0]) !in known then
        [Symbol(prog[0])] + Fresh(prog[1..], known + {Symbol(prog[0])})
      else Fresh(prog[1..], known)
  }

  /** `Fresh` keeps the order of first appearance: the new symbols of `a + b` are those of `a`,
      followed by those of `b` that neither `known` nor `a` holds. */
  lemma {:induction false} FreshAppend(a: seq<string>, b: seq<string>, known: set<string>)
    ensures Fresh(a + b, known) == Fresh(a, known) + Fresh(b, known + AddressSymbols(a))
  {
    if |a| == 0 {
      assert a + b == b;
      assert known + AddressSymbols(a) == known;
    } else {
      assert (a + b)[0] == a[0] && (a + b)[1..] == a[1..] + b;
      var isNew := IsAddress(a[0]) && Symbol(a[0]) !in known;
      var k := if isNew then known + {Symbol(a[0])} else known;
      var head := if isNew then [Symbol(a[0])] else [];
      assert Fresh(a + b, known) == head + Fresh(a[1..] + b, k);
      assert Fresh(a, known) == head + Fresh(a[1..], k);
      FreshAppend(a[1..], b, k);
      KnownAfterHead(a, known);
      ConcatAssociative(head, Fresh(a[1..], k), Fresh(b, k + AddressSymbols(a[1..])));
    }
  }

  /** The symbols known after the first line of `a`, together with those of the rest of `a`,
      are the symbols known before `a` together with those of `a`. */
  lemma KnownAfterHead(a: seq<string>, known: set<string>)
    requires |a| > 0
    ensures var k := if IsAddress(a[0]) && Symbol(a[0]) !in known then known + {Symbol(a[0])} else known;
      k + AddressSymbols(a[1..]) == known + AddressSymbols(a)
  {
  }

  /** A single line contributes its symbol when it is an A line whose symbol is not known, and
      nothing otherwise. */
  lemma FreshOfLine(line: string, known: set<string>)
    ensures Fresh([line], known) == if IsAddress(line) && Symbol(line) !in known then [Symbol(line)] else []
  {
    assert [line][1..] == [];
  }

  datatype PassTwo = PassTwo(table: Table, variables: int, addresses: seq<int>)

  /** The second loop of `write`: an A line whose symbol is not in the table binds it to
      `VariableStart + variables` and advances the variable counter; every A line then yields
      the address of its symbol. L and C lines change nothing. */
  function SecondPass(prog: seq<string>, table: Table, variables: int): (r: PassTwo)
  {
    if |prog| == 0 then PassTwo(table, variables, [])
    else
      var line := prog[0];
      if IsAddress(line) then
        var sym := Symbol(line);
        var t := if !Contains(table, sym) then AddEntry(table, sym, VariableStart + variables) else table;
        var v := if !Contains(table, sym) then variables + 1 else variables;
        var rest := SecondPass(prog[1..], t, v);
        PassTwo(rest.table, rest.variables, [GetAddress(t, sym)] + rest.addresses)
      else
        SecondPass(prog[1..], table, variables)
  }

  /** What pass 2 guarantees: no binding already in the table changes; afterwards every A-line
      symbol is bound and nothing else is added; the variable counter has grown by one per new
      symbol; and each A line yields the address its symbol has in the final table. */
  lemma SecondPassProperties(prog: seq<string>, table: Table, variables: int)
    ensures var r := SecondPass(prog, table, variables);
      && Extends(r.table, table)
      && r.table.Keys == table.Keys + AddressSymbols(prog)
      && r.variables == variables + |Fresh(prog, table.Keys)|
      && |r.addresses| == |AddressOperands(prog)|
      && forall k :: 0 <= k < |r.addresses| ==> r.addresses[k] == r.table[AddressOperands(prog)[k]]
  {
    SecondPassTable(prog, table, variables);
    SecondPassVariables(prog, table, variables);
    SecondPassAddresses(prog, table, variables);
  }

  /** The bindings of the table survive pass 2, which adds exactly the A-line symbols. */
  lemma {:induction false} SecondPassTable(prog: seq<string>, table: Table, variables: int)
    ensures var r := SecondPass(prog, table, variables);
      Extends(r.table, table) && r.table.Keys == table.Keys + AddressSymbols(prog)
  {
    if |prog| > 0 {
      var line := prog[0];
      if IsAddress(line) {
        var sym := Symbol(line);
        var isNew := !Contains(table, sym);
        var t := if isNew then AddEntry(table, sym, VariableStart + variables) else table;
        assert t.Keys == table.Keys + {sym} && Extends(t, table);
        SecondPassTable(prog[1..], t, if isNew then variables + 1 else variables);
      } else {
        SecondPassTable(prog[1..], table, variables);
      }
    }
  }

  /** The variable counter grows by one for each distinct A-line symbol not already bound. */
  lemma {:induction false} SecondPassVariables(prog: seq<string>, table: Table, variables: int)
    ensures SecondPass(prog, table, variables).variables == variables + |Fresh(prog, table.Keys)|
  {
    if |prog| > 0 {
      var line := prog[0];
      if IsAddress(line) {
        var sym := Symbol(line);
        var isNew := !Contains(table, sym);
        var t := if isNew then AddEntry(table, sym, VariableStart + variables) else table;
        assert Fresh(prog, table.Keys) == if isNew then [sym] + Fresh(prog[1..], t.Keys) else Fresh(prog[1..], t.Keys);
        SecondPassVariables(prog[1..], t, if isNew then variables + 1 else variables);
      } else {
        SecondPassVariables(prog[1..], table, variables);
      }
    }
  }

  /** One address per A line: the one its symbol has in the final table. */
  lemma {:induction false} SecondPassAddresses(prog: seq<string>, table: Table, variables: int)
    ensures var r := SecondPass(prog, table, variables);
      && |r.addresses| == |AddressOperands(prog)|
      && forall k :: 0 <= k < |r.addresses| ==> AddressOperands(prog)[k] in r.table && r.addresses[k] == r.table[AddressOperands(prog)[k]]
  {
    if |prog| > 0 {
      var line := prog[0];
      if IsAddress(line) {
        var sym := Symbol(line);
        var isNew := !Contains(table, sym);
        var t := if isNew then AddEntry(table, sym, VariableStart + variables) else table;
        var v := if isNew then variables + 1 else variables;
        var rest := SecondPass(prog[1..], t, v);
        assert SecondPass(prog, table, variables) == PassTwo(rest.table, rest.variables, [t[sym]] + rest.addresses);
        assert AddressOperands(prog) == [sym] + AddressOperands(prog[1..]);
        SecondPassAddresses(prog[1..], t, v);
        SecondPassTable(prog[1..], t, v);
        AddressesCons(sym, t[sym], AddressOperands(prog[1..]), rest.table, rest.addresses);
      } else {
        SecondPassAddresses(prog[1..], table, variables);
      }
    }
  }

  /** Prepending an operand and its address keeps "each operand yields its address in the
      table". */
  lemma AddressesCons(sym: string, address: int, ops: seq<string>, table: Table, addresses: seq<int>)
    requires sym in table && table[sym] == address
    requires |addresses| == |ops|
    requires forall k :: 0 <= k < |ops| ==> ops[k] in table && addresses[k] == table[ops[k]]
    ensures var o, a := [sym] + ops, [address] + addresses;
      forall k :: 0 <= k < |o| ==> o[k] in table && a[k] == table[o[k]]
  {
    var o, a := [sym] + ops, [address] + addresses;
    forall k | 0 <= k < |o| ensures o[k] in table && a[k] == table[o[k]] {
      if k > 0 {
        assert o[k] == ops[k - 1] && a[k] == addresses[k - 1];
      }
    }
  }

  /** Each new A-line symbol gets `VariableStart + variables + k` at its first appearance, where
      k is the number of distinct new symbols that appeared before it. */
  lemma {:induction false} SecondPassAllocates(prog: seq<string>, table: Table, variables: int, j: nat)
    requires j < |prog| && IsAddress(prog[j])
    requires Symbol(prog[j]) !in table && Symbol(prog[j]) !in AddressSymbols(prog[..j])
    ensures Symbol(prog[j]) in SecondPass(prog, table, variables).table
    ensures SecondPass(prog, table, variables).table[Symbol(prog[j])]
      == VariableStart + variables + |Fresh(prog[..j], table.Keys)|
  {
    var line := prog[0];
    var sym := Symbol(prog[j]);
    if j == 0 {
      var t := AddEntry(table, sym, VariableStart + variables);
      assert SecondPass(prog, table, variables).table == SecondPass(prog[1..], t, variables + 1).table;
      SecondPassTable(prog[1..], t, variables + 1);
      assert prog[..0] == [];
    } else {
      var isNew := IsAddress(line) && Symbol(line) !in table;
      var t := if isNew then AddEntry(table, Symbol(line), VariableStart + variables) else table;
      var v := if isNew then variables + 1 else variables;
      assert SecondPass(prog, table, variables).table == SecondPass(prog[1..], t, v).table;
      var before := prog[..j];
      assert before[0] == line && before[1..] == prog[1..][..j - 1];
      assert AddressSymbols(before) == (if IsAddress(line) then {Symbol(line)} else {}) + AddressSymbols(before[1..]);
      assert Fresh(before, table.Keys) == if isNew then [Symbol(line)] + Fresh(before[1..], t.Keys) else Fresh(before[1..], t.Keys);
      assert prog[1..][j - 1] == prog[j];
      SecondPassAllocates(prog[1..], t, v, j - 1);
    }
  }

  /** Pass 1 is a fold: running it over `a + b` is running it over `a` and then over `b`,
      starting from the table and counter `a` left behind. */
  lemma {:induction false} FirstPassAppend(a: seq<string>, b: seq<string>, table: Table, lineNumber: int, bias: int)
    ensures var r := FirstPass(a, table, lineNumber, bias);
      FirstPass(a + b, table, lineNumber, bias) == FirstPass(b, r.table, r.lineNumber, bias)
  {
    if |a| == 0 {
      assert a + b == b;
    } else {
      assert (a + b)[0] == a[0] && (a + b)[1..] == a[1..] + b;
      var line := a[0];
      var t := if IsLabel(line) then AddEntry(table, Symbol(line), lineNumber + bias) else table;
      var n := if IsLabel(line) then lineNumber else lineNumber + 1;
      FirstPassStep(a + b, table, lineNumber, bias);
      FirstPassStep(a, table, lineNumber, bias);
      FirstPassAppend(a[1..], b, t, n, bias);
    }
  }

  /** One step of pass 2: the first line's effect on the table, the counter and the output. */
  lemma SecondPassUnfold(prog: seq<string>, table: Table, variables: int)
    requires |prog| > 0
    ensures var line := prog[0];
      var isNew := IsAddress(line) && Symbol(line) !in table;
      var t := if isNew then AddEntry(table, Symbol(line), VariableStart + variables) else table;
      var tail := SecondPass(prog[1..], t, if isNew then variables + 1 else variables);
      SecondPass(prog, table, variables)
        == PassTwo(tail.table, tail.variables, (if IsAddress(line) then [t[Symbol(line)]] else []) + tail.addresses)
  {
  }

  /** A program without A and L lines uses and defines no symbol. */
  lemma {:induction false} CommandsOnly(prog: seq<string>)
    requires forall i :: 0 <= i < |prog| ==> TypeOf(prog[i]) == CInstruction
    ensures LabelSymbols(prog) == {} && AddressSymbols(prog) == {} && AddressOperands(prog) == []
  {
    if |prog| > 0 {
      assert forall i :: 0 <= i < |prog| - 1 ==> prog[1..][i] == prog[i + 1];
      CommandsOnly(prog[1..]);
    }
  }

  // ---------------------------------------------------------------------------
  // Numeric operands

  predicate IsDigit(c: char) {
    '0' <= c <= '9'
  }

  /** A decimal constant such as `5` or `32767`: one or more digits. */
  predicate IsNumeral(s: string) {
    |s| > 0 && forall i :: 0 <= i < |s| ==> IsDigit(s[i])
  }

  /** The value of a string of decimal digits, most significant first. */
  function NumeralValue(s: string): (n: nat)
    requires forall i :: 0 <= i < |s| ==> IsDigit(s[i])
  {
    if |s| == 0 then 0
    else
      assert IsDigit(s[|s| - 1]);
      10 * NumeralValue(s[..|s| - 1]) + (s[|s| - 1] as int - '0' as int)
  }

  /** The decimal spelling of a natural number. */
  function Decimal(n: nat): (s: string)
    ensures IsNumeral(s)
  {
    if n < 10 then [('0' as int + n) as char] else Decimal(n / 10) + [('0' as int + n % 10) as char]
  }

  /** Reading back the decimal spelling of a number gives the number. */
  lemma {:induction false} NumeralValueOfDecimal(n: nat)
    ensures NumeralValue(Decimal(n)) == n
  {
    var s := Decimal(n);
    if n >= 10 {
      NumeralValueOfDecimal(n / 10);
      assert s[..|s| - 1] == Decimal(n / 10);
    }
  }

  /** The program with every A line whose operand is a numeral removed. */
  function WithoutNumerals(prog: seq<string>): (r: seq<string>)
    ensures |r| <= |prog|
    ensures forall i :: 0 <= i < |r| ==> !(IsAddress(r[i]) && IsNumeral(Symbol(r[i])))
  {
    if |prog| == 0 then []
    else if IsAddress(prog[0]) && IsNumeral(Symbol(prog[0])) then WithoutNumerals(prog[1..])
    else [prog[0]] + WithoutNumerals(prog[1..])
  }

  /** The A-line symbols of `WithoutNumerals(prog)` are those of `prog` that are not numerals. */
  lemma {:induction false} WithoutNumeralsSymbols(prog: seq<string>)
    ensures AddressSymbols(WithoutNumerals(prog)) == set s | s in AddressSymbols(prog) && !IsNumeral(s)
  {
    if |prog| > 0 {
      WithoutNumeralsSymbols(prog[1..]);
      if !(IsAddress(prog[0]) && IsNumeral(Symbol(prog[0]))) {
        assert WithoutNumerals(prog)[0] == prog[0] && WithoutNumerals(prog)[1..] == WithoutNumerals(prog[1..]);
      }
    }
  }

  /** A program none of whose A lines has a numeral operand is its own `WithoutNumerals`. */
  lemma {:induction false} WithoutNumeralsIdentity(prog: seq<string>)
    requires forall i :: 0 <= i < |prog| ==> !(IsAddress(prog[i]) && IsNumeral(Symbol(prog[i])))
    ensures WithoutNumerals(prog) == prog
  {
    if |prog| > 0 {
      assert forall i :: 0 <= i < |prog| - 1 ==> prog[1..][i] == prog[i + 1];
      WithoutNumeralsIdentity(prog[1..]);
    }
  }

  /** The address an A operand denotes once the table is complete: a numeral is its own value,
      anything else is looked up. */
  function Resolve(ops: seq<string>, table: Table): (r: seq<int>)
    requires forall k :: 0 <= k < |ops| && !IsNumeral(ops[k]) ==> ops[k] in table
    ensures |r| == |ops|
    ensures forall k :: 0 <= k < |ops| ==> r[k] == if IsNumeral(ops[k]) then NumeralValue(ops[k]) else table[ops[k]]
  {
    if |ops| == 0 then []
    else [if IsNumeral(ops[0]) then NumeralValue(ops[0]) else table[ops[0]]] + Resolve(ops[1..], table)
  }

  /** The evidently intended pass 2: a numeral operand denotes its own value and takes no
      variable slot; every other symbol is bound as in `SecondPass`. */
  function SecondPassIntended(prog: seq<string>, table: Table, variables: int): (r: PassTwo)
    ensures Extends(r.table, table)
    ensures r.table.Keys == table.Keys + set s | s in AddressSymbols(prog) && !IsNumeral(s)
    ensures r.variables == variables + |Fresh(WithoutNumerals(prog), table.Keys)|
    ensures |r.addresses| == |AddressOperands(prog)|
    ensures forall k :: 0 <= k < |r.addresses| ==>
      var op := AddressOperands(prog)[k];
      r.addresses[k] == if IsNumeral(op) then NumeralValue(op) else r.table[op]
  {
    var symbolic := SecondPass(WithoutNumerals(prog), table, variables);
    SecondPassProperties(WithoutNumerals(prog), table, variables);
    WithoutNumeralsSymbols(prog);
    var ops := AddressOperands(prog);
    assert forall k :: 0 <= k < |ops| && !IsNumeral(ops[k]) ==> ops[k] in symbolic.table by {
      forall k | 0 <= k < |ops| && !IsNumeral(ops[k]) ensures ops[k] in symbolic.table {
        assert ops[k] in AddressSymbols(prog);
      }
    }
    PassTwo(symbolic.table, symbolic.variables, Resolve(ops, symbolic.table))
  }

  /** As intended, the counter grows by one per distinct new A-line symbol that is not a
      numeral: a numeral takes no variable slot. */
  lemma SecondPassIntendedVariables(prog: seq<string>, table: Table, variables: int)
    ensures var f := Fresh(WithoutNumerals(prog), table.Keys);
      && SecondPassIntended(prog, table, variables).variables == variables + |f|
      && (forall i :: 0 <= i < |f| ==> f[i] in AddressSymbols(prog) && !IsNumeral(f[i]) && f[i] !in table)
      && (forall s :: s in AddressSymbols(prog) && !IsNumeral(s) && s !in table ==> s in f)
  {
    WithoutNumeralsSymbols(prog);
  }

  /** As intended, a new symbol that is not a numeral is bound as in the code, but counting only
      the new non-numeral symbols before it: `VariableStart + variables + k`. */
  lemma SecondPassIntendedAllocates(prog: seq<string>, table: Table, variables: int, j: nat)
    requires j < |WithoutNumerals(prog)| && IsAddress(WithoutNumerals(prog)[j])
    requires Symbol(WithoutNumerals(prog)[j]) !in table
    requires Symbol(WithoutNumerals(prog)[j]) !in AddressSymbols(WithoutNumerals(prog)[..j])
    ensures var sym, r := Symbol(WithoutNumerals(prog)[j]), SecondPassIntended(prog, table, variables);
      && sym in r.table
      && r.table[sym] == VariableStart + variables + |Fresh(WithoutNumerals(prog)[..j], table.Keys)|
  {
    SecondPassAllocates(WithoutNumerals(prog), table, variables, j);
  }

  /** On a program without numeral operands the intended pass 2 and the code's agree. */
  lemma SecondPassAgreesWithoutNumerals(prog: seq<string>, table: Table, variables: int)
    requires forall i :: 0 <= i < |prog| ==> !(IsAddress(prog[i]) && IsNumeral(Symbol(prog[i])))
    ensures SecondPassIntended(prog, table, variables) == SecondPass(prog, table, variables)
  {
    WithoutNumeralsIdentity(prog);
    SecondPassAddresses(prog, table, variables);
    var r := SecondPass(prog, table, variables);
    var ops := AddressOperands(prog);
    forall k | 0 <= k < |ops| ensures !IsNumeral(ops[k]) {
      SymbolsMeaning(prog, AInstruction, ops[k]);
    }
  }

  /** `@n` for a numeral `n` as the code treats it: when `n` is not yet in the table it becomes
      a variable and the line loads `16 + variables`; the intended pass loads the value n. */
  lemma NumeralBecomesVariable(table: Table, variables: int, n: nat)
    requires Decimal(n) !in table
    ensures SecondPass(["@" + Decimal(n)], table, variables).addresses == [VariableStart + variables]
    ensures SecondPassIntended(["@" + Decimal(n)], table, variables).addresses == [n]
  {
    var d := Decimal(n);
    var prog := ["@" + d];
    assert prog[0][1..] == d;
    assert IsAddress(prog[0]) && Symbol(prog[0]) == d;
    assert SecondPass(prog, table, variables).addresses
      == [VariableStart + variables] + SecondPass(prog[1..], table[d := VariableStart + variables], variables + 1).addresses;
    NumeralValueOfDecimal(n);
    AddressOperandsOfLine(prog[0]);
  }

  /** `@5` followed by `@x`, neither of them bound: the code gives `x` the slot after the one it
      gave `5`, while the intended pass gives `x` the first slot. */
  lemma NumeralShiftsVariables(table: Table, variables: int)
    requires "5" !in table && "x" !in table
    ensures var prog, x := ["@5", "@x"], "x";
      && x in SecondPass(prog, table, variables).table
      && SecondPass(prog, table, variables).table[x] == VariableStart + variables + 1
      && x in SecondPassIntended(prog, table, variables).table
      && SecondPassIntended(prog, table, variables).table[x] == VariableStart + variables
  {
    var prog := ["@5", "@x"];
    assert prog[0][1..] == "5" && prog[1][1..] == "x";
    assert IsAddress(prog[0]) && Symbol(prog[0]) == "5";
    assert IsAddress(prog[1]) && Symbol(prog[1]) == "x";
    assert IsNumeral("5") && !IsDigit("x"[0]);
    assert prog[..1] == [prog[0]];
    AddressOperandsOfLine(prog[0]);
    assert AddressSymbols(prog[..1]) == {"5"};
    FreshOfLine(prog[0], table.Keys);
    SecondPassAllocates(prog, table, variables, 1);
    assert WithoutNumerals(prog) == WithoutNumerals(prog[1..]);
    assert prog[1..][1..] == [];
    assert WithoutNumerals(prog) == [prog[1]];
    assert WithoutNumerals(prog)[..0] == [];
    SecondPassIntendedAllocates(prog, table, variables, 0);
  }

  // ---------------------------------------------------------------------------
  // The whole translation

  datatype Assembly = Assembly(program: seq<string>, table: Table, addresses: seq<int>)

  /** The parser's constructor and `write` with the corrected `hasMoreLines`, so that both loops
      run to the end; otherwise as written: normalise with the inverted filter, bind labels from
      the predefined table with the counter at 0 and bias 1, then bind variables with the
      variable counter at 0. */
  function Assemble(lines: seq<string>, predefined: Table): (r: Assembly)
    ensures r.program == Normalise(lines, SourceKeep)
    ensures forall i :: 0 <= i < |r.program| ==> SourceKeep(r.program[i])
    ensures r.table.Keys == predefined.Keys + LabelSymbols(r.program) + AddressSymbols(r.program)
    ensures forall s :: s in predefined && s !in LabelSymbols(r.program) ==> r.table[s] == predefined[s]
    ensures |r.addresses| == |AddressOperands(r.program)|
    ensures forall k :: 0 <= k < |r.addresses| ==> r.addresses[k] == r.table[AddressOperands(r.program)[k]]
  {
    var prog := Normalise(lines, SourceKeep);
    var one := FirstPass(prog, predefined, 0, 1);
    var two := SecondPass(prog, one.table, 0);
    SecondPassProperties(prog, one.table, 0);
    Assembly(prog, two.table, two.addresses)
  }

  /** The evidently intended translation: drop comments and blank lines, bind each label to the
      ROM address of the next instruction, and let numerals denote themselves. */
  function AssembleIntended(lines: seq<string>, predefined: Table): (r: Assembly)
    ensures r.program == Normalise(lines, InstructionKeep)
    ensures forall i :: 0 <= i < |r.program| ==> InstructionKeep(r.program[i])
    ensures r.table.Keys == predefined.Keys + LabelSymbols(r.program) + set s | s in AddressSymbols(r.program) && !IsNumeral(s)
    ensures forall s :: s in predefined && s !in LabelSymbols(r.program) ==> r.table[s] == predefined[s]
    ensures |r.addresses| == |AddressOperands(r.program)|
    ensures forall k :: 0 <= k < |r.addresses| ==>
      var op := AddressOperands(r.program)[k];
      r.addresses[k] == if IsNumeral(op) then NumeralValue(op) else r.table[op]
  {
    var prog := Normalise(lines, InstructionKeep);
    var one := FirstPass(prog, predefined, 0, 0);
    var two := SecondPassIntended(prog, one.table, 0);
    Assembly(prog, two.table, two.addresses)
  }

  /** The intended translation of `@x` followed by `D=A`, with `x` unbound: both lines are kept,
      `x` becomes the first variable, and the A line loads its address. */
  lemma AssembleIntendedExample(predefined: Table)
    requires "x" !in predefined
    ensures var r := AssembleIntended(["@x", "D=A"], predefined);
      && r.program == ["@x", "D=A"]
      && "x" in r.table && r.table["x"] == VariableStart
      && r.addresses == [VariableStart]
  {
    var lines := ["@x", "D=A"];
    ExampleKept(lines);
    ExampleNoLabels(lines, predefined);
    ExampleVariables(lines, FirstPass(lines, predefined, 0, 0).table);
  }

  /** Both lines of the example are instruction lines that `trim` leaves alone. */
  lemma ExampleKept(lines: seq<string>)
    requires lines == ["@x", "D=A"]
    ensures Normalise(lines, InstructionKeep) == lines
  {
    forall i | 0 <= i < |lines|
      ensures |lines[i]| > 0 && IsTrimmed(lines[i]) && lines[i][0] != '/' && !IsWhitespace(lines[i][0])
    {
      assert i == 0 || i == 1;
    }
    InstructionFilterKeepsProgram(lines);
  }

  /** The example defines no label, so pass 1 keeps the table's keys. */
  lemma ExampleNoLabels(lines: seq<string>, predefined: Table)
    requires lines == ["@x", "D=A"]
    ensures FirstPass(lines, predefined, 0, 0).table.Keys == predefined.Keys
  {
    assert !IsLabel(lines[0]) && !IsLabel(lines[1]);
    assert LabelSymbols(lines) == {} by {
      forall s ensures s !in LabelSymbols(lines) {
        SymbolsMeaning(lines, LInstruction, s);
      }
    }
  }

  /** In the intended pass 2 of the example, `x` takes the first variable slot and the A line
      loads it. */
  lemma ExampleVariables(lines: seq<string>, table: Table)
    requires lines == ["@x", "D=A"] && "x" !in table
    ensures var r := SecondPassIntended(lines, table, 0);
      && "x" in r.table && r.table["x"] == VariableStart
      && r.addresses == [VariableStart]
  {
    assert lines[0][1..] == "x";
    assert IsAddress(lines[0]) && Symbol(lines[0]) == "x" && !IsDigit("x"[0]);
    assert !IsAddress(lines[1]);
    assert WithoutNumerals(lines) == lines by {
      WithoutNumeralsIdentity(lines);
    }
    assert lines[..0] == [];
    SecondPassIntendedAllocates(lines, table, 0, 0);
    AddressOperandsAppend([lines[0]], [lines[1]]);
    AddressOperandsOfLine(lines[0]);
    AddressOperandsOfLine(lines[1]);
    assert lines == [lines[0]] + [lines[1]];
  }

  /** A line the inverted filter keeps is a comment or blank, so it is a C line. */
  lemma KeptLineIsCommand(line: string)
    requires SourceKeep(line)
    ensures TypeOf(line) == CInstruction
  {
    if |line| > 0 {
      assert IsComment(line) ==> line[0] == '/';
      assert IsBlank(line) ==> IsWhitespace(line[0]);
    }
  }

  /** As written, the program that reaches the passes holds only comments and blank lines, so
      nothing is resolved: the table is the predefined one and no address is produced, whatever
      the input. */
  lemma AsWrittenResolvesNothing(lines: seq<string>, predefined: Table)
    ensures Assemble(lines, predefined).table == predefined
    ensures Assemble(lines, predefined).addresses == []
  {
    var prog := Normalise(lines, SourceKeep);
    forall i | 0 <= i < |prog| ensures TypeOf(prog[i]) == CInstruction {
      KeptLineIsCommand(prog[i]);
    }
    CommandsOnly(prog);
    SecondPassTable(prog, FirstPass(prog, predefined, 0, 1).table, 0);
  }

  /** As written a label is bound one past the ROM address of the instruction that follows it;
      with bias 0 it is bound to that address, the number of A and C lines before it. */
  lemma LabelOffByOne(prog: seq<string>, table: Table, j: nat)
    requires j < |prog| && IsLabel(prog[j])
    requires forall k :: j < k < |prog| && IsLabel(prog[k]) ==> Symbol(prog[k]) != Symbol(prog[j])
    ensures Symbol(prog[j]) in FirstPass(prog, table, 0, 1).table && Symbol(prog[j]) in FirstPass(prog, table, 0, 0).table
    ensures FirstPass(prog, table, 0, 1).table[Symbol(prog[j])] == CountReal(prog[..j]) + 1
    ensures FirstPass(prog, table, 0, 0).table[Symbol(prog[j])] == CountReal(prog[..j])
  {
    FirstPassBindsLabel(prog, table, 0, 1, j);
    FirstPassBindsLabel(prog, table, 0, 0, j);
  }

  /** In the intended translation a label that is not defined again later holds the ROM address
      of the next instruction, also after pass 2. */
  lemma IntendedLabelAddress(lines: seq<string>, predefined: Table, j: nat)
    requires var prog := Normalise(lines, InstructionKeep);
      && j < |prog| && IsLabel(prog[j])
      && forall k :: j < k < |prog| && IsLabel(prog[k]) ==> Symbol(prog[k]) != Symbol(prog[j])
    ensures var prog := Normalise(lines, InstructionKeep);
      var table := AssembleIntended(lines, predefined).table;
      Symbol(prog[j]) in table && table[Symbol(prog[j])] == CountReal(prog[..j])
  {
    var prog := Normalise(lines, InstructionKeep);
    var one := FirstPass(prog, predefined, 0, 0);
    FirstPassBindsLabel(prog, predefined, 0, 0, j);
    var two := SecondPassIntended(prog, one.table, 0);
    assert AssembleIntended(lines, predefined).table == two.table;
    assert Extends(two.table, one.table);
  }
}
