/**
 Classification of one normalised line and extraction of its fields. As in
 the parser, every function looks at the raw text of the line: `Symbol` and
 `Comp` consult the classification, `Dest` and `Jump` do not. `Parse` gives
 the line's tagged form `A(symbol) | L(symbol) | C(text)`.
 */
module Instructions {
  import opened Strings

  datatype InstructionType = AInstruction | LInstruction | CInstruction

  /** `instructionType()`: `@` first, then `(`...`)`, and everything else is a C instruction.
      In terms of characters: an A line starts with `@`; an L line starts with `(`, ends with
      `)` and so has at least two characters; `(` without a closing `)`, the empty line and
      everything else are C lines. */
  function TypeOf(line: string): (r: InstructionType)
    ensures r == AInstruction <==> |line| > 0 && line[0] == '@'
    ensures r == LInstruction <==> |line| >= 2 && line[0] == '(' && line[|line| - 1] == ')'
    ensures r == CInstruction <==>
      |line| == 0 || (line[0] != '@' && (line[0] != '(' || line[|line| - 1] != ')' || |line| == 1))
  {
    assert StartsWith(line, "@") <==> |line| > 0 && line[0] == '@';
    assert StartsWith(line, "(") <==> |line| > 0 && line[0] == '(';
    assert EndsWith(line, ")") <==> |line| > 0 && line[|line| - 1] == ')';
    if StartsWith(line, "@") then AInstruction
    else if StartsWith(line, "(") && EndsWith(line, ")") then LInstruction
    else CInstruction
  }

  datatype Instruction = A(symbol: string) | L(symbol: string) | C(text: string)

  /** The source text of a tagged instruction. */
  function Unparse(i: Instruction): string {
    match i
    case A(s) => "@" + s
    case L(s) => "(" + s + ")"
    case C(t) => t
  }

  /** `symbol()`: the text between the parentheses of an L line, the text after the `@` of an
      A line, and "" for a C line. */
  function Symbol(line: string): (r: string)
    ensures TypeOf(line) == AInstruction ==> line == "@" + r
    ensures TypeOf(line) == LInstruction ==> line == "(" + r + ")"
    ensures TypeOf(line) == CInstruction ==> r == ""
  {
    match TypeOf(line)
    case LInstruction => line[1..|line| - 1]
    case AInstruction => line[1..]
    case CInstruction => ""
  }

  /** The tagged form of a line, built from its classification and symbol. */
  function Parse(line: string): (i: Instruction)
    ensures Unparse(i) == line
    ensures i.A? <==> TypeOf(line) == AInstruction
    ensures i.L? <==> TypeOf(line) == LInstruction
    ensures !i.C? ==> i.symbol == Symbol(line)
  {
    match TypeOf(line)
    case AInstruction => A(Symbol(line))
    case LInstruction => L(Symbol(line))
    case CInstruction => C(line)
  }

  /** A tagged instruction whose text would be read back as the same variant. */
  predicate WellFormed(i: Instruction) {
    i.C? ==> TypeOf(i.text) == CInstruction
  }

  /** Parsing the text of a well-formed instruction gives it back. */
  lemma ParseUnparse(i: Instruction)
    requires WellFormed(i)
    ensures Parse(Unparse(i)) == i
  {
    match i
    case A(s) =>
      assert Unparse(i)[1..] == s;
    case L(s) =>
      var t := Unparse(i);
      assert t[0] == '(' && t[|t| - 1] == ')' && t[1..|t| - 1] == s;
    case C(t) =>
  }

  /** Worked cases: an unclosed `(` and the empty line are C lines, `()` is a label with an
      empty symbol, and `@5` is an A line whose symbol is the numeral. */
  lemma ClassificationExamples()
    ensures TypeOf("(LOOP") == CInstruction && TypeOf("(") == CInstruction && TypeOf("") == CInstruction
    ensures TypeOf("()") == LInstruction && Symbol("()") == ""
    ensures TypeOf("@5") == AInstruction && Symbol("@5") == "5"
  {
    assert "(LOOP"[4] == 'P';
    assert "@5" == "@" + "5";
  }

  // ---------------------------------------------------------------------------
  // Fields of a C instruction

  /** `dest()`: the text before the first `=`, or "" when there is none. */
  function Dest(line: string): (r: string)
    ensures '=' !in line ==> r == ""
    ensures '=' in line ==> |r| < |line| && line[..|r|] == r && line[|r|] == '=' && '=' !in r
  {
    var eq := IndexOf(line, '=');
    if eq == -1 then "" else line[..eq]
  }

  /** `jump()`: the text after the first `;`, or "" when there is none. */
  function Jump(line: string): (r: string)
    ensures ';' !in line ==> r == ""
    ensures ';' in line ==>
      |r| < |line| && line[|line| - |r|..] == r && line[|line| - |r| - 1] == ';' && ';' !in line[..|line| - |r| - 1]
  {
    var semi := IndexOf(line, ';');
    if semi == -1 then "" else line[semi + 1..]
  }

  /** Java's `StringIndexOutOfBoundsException` from `substring(begin, end)`. */
  datatype Error = StringIndexOutOfBounds(begin: int, end: int)

  datatype Result = Ok(value: string) | Err(error: Error)

  /** `comp()`: for a C line the text from just after the first `=` (or from the start) up
      to the first `;` (or the end); "" for other lines. When the first `;` comes before the
      first `=` the substring bounds cross and the call throws. */
  function Comp(line: string): (r: Result)
    ensures TypeOf(line) != CInstruction ==> r == Ok("")
    ensures r.Err? <==>
      TypeOf(line) == CInstruction && '=' in line && ';' in line && IndexOf(line, ';') < IndexOf(line, '=')
    ensures r.Ok? ==> ';' !in r.value
  {
    var eq := IndexOf(line, '=');
    var semi := IndexOf(line, ';');
    var begin := if eq == -1 then 0 else eq + 1;
    var end := if semi == -1 then |line| else semi;
    if TypeOf(line) != CInstruction then Ok("")
    else if begin <= end then Ok(line[begin..end])
    else Err(StringIndexOutOfBounds(begin, end))
  }

  /** The text `[dest=]comp[;jump]` of a C instruction's fields, each separator present or not. */
  function Join(dest: string, comp: string, jump: string, hasDest: bool, hasJump: bool): string {
    (if hasDest then dest + "=" else "") + comp + (if hasJump then ";" + jump else "")
  }

  /** Whenever `comp()` succeeds on a C line, its fields put back together with the separators
      the line has give the line: `dest + "=" + comp + ";" + jump == line` when both are present,
      and the analogous identities when either is absent. */
  lemma FieldsReassemble(line: string)
    requires TypeOf(line) == CInstruction && Comp(line).Ok?
    ensures Join(Dest(line), Comp(line).value, Jump(line), '=' in line, ';' in line) == line
  {
    if '=' in line && ';' in line {
      ReassembleBoth(line);
    } else if '=' in line {
      ReassembleDestOnly(line);
    } else if ';' in line {
      ReassembleJumpOnly(line);
    } else {
      ReassembleNeither(line);
    }
  }

  lemma ReassembleBoth(line: string)
    requires TypeOf(line) == CInstruction && Comp(line).Ok? && '=' in line && ';' in line
    ensures Join(Dest(line), Comp(line).value, Jump(line), true, true) == line
  {
    var eq := IndexOf(line, '=');
    var semi := IndexOf(line, ';');
    assert Dest(line) == line[..eq];
    assert Comp(line).value == line[eq + 1..semi];
    assert Jump(line) == line[semi + 1..];
    JoinCut(line, eq, semi);
  }

  /** A line with `=` at i and `;` at j > i is the join of the three pieces around them. */
  lemma JoinCut(line: string, i: int, j: int)
    requires 0 <= i < j < |line| && line[i] == '=' && line[j] == ';'
    ensures Join(line[..i], line[i + 1..j], line[j + 1..], true, true) == line
  {
    assert line == line[..i] + [line[i]] + line[i + 1..j] + [line[j]] + line[j + 1..];
  }

  lemma ReassembleDestOnly(line: string)
    requires TypeOf(line) == CInstruction && '=' in line && ';' !in line
    ensures Comp(line).Ok? && Join(Dest(line), Comp(line).value, Jump(line), true, false) == line
  {
    var eq := IndexOf(line, '=');
    assert Dest(line) == line[..eq];
    CompDestOnly(line);
    assert Jump(line) == "";
    JoinCutDest(line, eq);
  }

  /** With `=` and no `;`, `comp()` is everything after the first `=`. */
  lemma CompDestOnly(line: string)
    requires TypeOf(line) == CInstruction && '=' in line && ';' !in line
    ensures Comp(line) == Ok(line[IndexOf(line, '=') + 1..])
  {
    var eq := IndexOf(line, '=');
    assert IndexOf(line, ';') == -1;
    assert line[eq + 1..|line|] == line[eq + 1..];
  }

  /** A line with `=` at i is the join of the two pieces around it. */
  lemma JoinCutDest(line: string, i: int)
    requires 0 <= i < |line| && line[i] == '='
    ensures Join(line[..i], line[i + 1..], "", true, false) == line
  {
    assert line == line[..i] + [line[i]] + line[i + 1..];
  }

  lemma ReassembleJumpOnly(line: string)
    requires TypeOf(line) == CInstruction && '=' !in line && ';' in line
    ensures Comp(line).Ok? && Join(Dest(line), Comp(line).value, Jump(line), false, true) == line
  {
    var semi := IndexOf(line, ';');
    assert Dest(line) == "";
    assert Comp(line) == Ok(line[..semi]);
    assert Jump(line) == line[semi + 1..];
    JoinCutJump(line, semi);
  }

  /** A line with `;` at j is the join of the two pieces around it. */
  lemma JoinCutJump(line: string, j: int)
    requires 0 <= j < |line| && line[j] == ';'
    ensures Join("", line[..j], line[j + 1..], false, true) == line
  {
    assert line == line[..j] + [line[j]] + line[j + 1..];
  }

  lemma ReassembleNeither(line: string)
    requires TypeOf(line) == CInstruction && '=' !in line && ';' !in line
    ensures Comp(line).Ok? && Join(Dest(line), Comp(line).value, Jump(line), false, false) == line
  {
    assert line[0..|line|] == line;
  }

  /** Splitting well-formed fields back out: a C line built from a destination and a computation
      that contain no separators, and a jump that holds no `=` unless a destination precedes it,
      yields exactly those fields. */
  lemma FieldsRoundTrip(dest: string, comp: string, jump: string, hasDest: bool, hasJump: bool)
    requires '=' !in dest && ';' !in dest && '=' !in comp && ';' !in comp
    requires !hasDest ==> dest == "" && '=' !in jump
    requires !hasJump ==> jump == ""
    requires TypeOf(Join(dest, comp, jump, hasDest, hasJump)) == CInstruction
    ensures var line := Join(dest, comp, jump, hasDest, hasJump);
      Dest(line) == dest && Comp(line) == Ok(comp) && Jump(line) == jump
  {
    if hasDest && hasJump {
      SplitBoth(dest, comp, jump);
    } else if hasDest {
      SplitDestOnly(dest, comp);
    } else if hasJump {
      SplitJumpOnly(comp, jump);
    } else {
      SplitNeither(comp);
    }
  }

  lemma SplitBoth(dest: string, comp: string, jump: string)
    requires '=' !in dest && ';' !in dest && '=' !in comp && ';' !in comp
    requires TypeOf(Join(dest, comp, jump, true, true)) == CInstruction
    ensures var line := Join(dest, comp, jump, true, true);
      Dest(line) == dest && Comp(line) == Ok(comp) && Jump(line) == jump
  {
    var line := Join(dest, comp, jump, true, true);
    SeparatorsOfBoth(dest, comp, jump);
    PiecesOfBoth(dest, comp, jump);
    assert Dest(line) == line[..|dest|];
    assert Comp(line) == Ok(line[|dest| + 1..|dest| + 1 + |comp|]);
  }

  /** Where the first `=` and the first `;` of `dest=comp;jump` fall. */
  lemma SeparatorsOfBoth(dest: string, comp: string, jump: string)
    requires '=' !in dest && ';' !in dest && '=' !in comp && ';' !in comp
    ensures var line := Join(dest, comp, jump, true, true);
      IndexOf(line, '=') == |dest| && IndexOf(line, ';') == |dest| + 1 + |comp|
  {
    var line := Join(dest, comp, jump, true, true);
    var head := dest + "=" + comp;
    assert line == dest + ['='] + (comp + ";" + jump);
    IndexOfAfter(dest, '=', comp + ";" + jump);
    assert line == head + [';'] + jump;
    assert ';' !in head by {
      assert head == dest + ['='] + comp;
    }
    IndexOfAfter(head, ';', jump);
  }

  /** The three pieces of `dest=comp;jump` by position. */
  lemma PiecesOfBoth(dest: string, comp: string, jump: string)
    ensures var line := Join(dest, comp, jump, true, true);
      && line[..|dest|] == dest
      && line[|dest| + 1..|dest| + 1 + |comp|] == comp
      && line[|dest| + 2 + |comp|..] == jump
  {
  }

  lemma SplitDestOnly(dest: string, comp: string)
    requires '=' !in dest && ';' !in dest && '=' !in comp && ';' !in comp
    requires TypeOf(Join(dest, comp, "", true, false)) == CInstruction
    ensures var line := Join(dest, comp, "", true, false);
      Dest(line) == dest && Comp(line) == Ok(comp) && Jump(line) == ""
  {
    var line := Join(dest, comp, "", true, false);
    assert line == dest + ['='] + comp;
    IndexOfAfter(dest, '=', comp);
    assert line[..|dest|] == dest;
    assert line[|dest| + 1..|line|] == comp;
  }

  lemma SplitJumpOnly(comp: string, jump: string)
    requires '=' !in comp && ';' !in comp && '=' !in jump
    requires TypeOf(Join("", comp, jump, false, true)) == CInstruction
    ensures var line := Join("", comp, jump, false, true);
      Dest(line) == "" && Comp(line) == Ok(comp) && Jump(line) == jump
  {
    var line := Join("", comp, jump, false, true);
    assert line == comp + [';'] + jump;
    IndexOfAfter(comp, ';', jump);
    assert '=' !in line;
    assert line[0..|comp|] == comp;
    assert line[|comp| + 1..] == jump;
    assert Comp(line) == Ok(line[0..|comp|]);
  }

  lemma SplitNeither(comp: string)
    requires '=' !in comp && ';' !in comp
    requires TypeOf(Join("", comp, "", false, false)) == CInstruction
    ensures var line := Join("", comp, "", false, false);
      Dest(line) == "" && Comp(line) == Ok(comp) && Jump(line) == ""
  {
    var line := Join("", comp, "", false, false);
    assert line == comp;
    assert line[0..|line|] == comp;
  }

  /** Worked case: "AM=M-1;JNE" splits into AM, M-1 and JNE. */
  lemma FieldExampleFull()
    ensures Dest("AM=M-1;JNE") == "AM" && Comp("AM=M-1;JNE") == Ok("M-1") && Jump("AM=M-1;JNE") == "JNE"
  {
    assert Join("AM", "M-1", "JNE", true, true) == "AM=M-1;JNE";
    FieldsRoundTrip("AM", "M-1", "JNE", true, true);
  }

  /** Worked case: "0;JMP" has no destination. */
  lemma FieldExampleNoDest()
    ensures Dest("0;JMP") == "" && Comp("0;JMP") == Ok("0") && Jump("0;JMP") == "JMP"
  {
    assert Join("", "0", "JMP", false, true) == "0;JMP";
    FieldsRoundTrip("", "0", "JMP", false, true);
  }

  /** Worked case: in "D;JGT=M" the `;` comes first, so `comp()` throws. */
  lemma FieldExampleCrossed()
    ensures Comp("D;JGT=M").Err?
  {
    var bad := "D;JGT=M";
    assert bad == "D" + [';'] + "JGT=M";
    assert bad == "D;JGT" + ['='] + "M";
    IndexOfAfter("D", ';', "JGT=M");
    IndexOfAfter("D;JGT", '=', "M");
  }
}
