# Hack assembler core, modelled in Dafny

This project models the core of a Java assembler for the Hack computer (the
nand2tetris project 6 assembler from *The Elements of Computing Systems* by
Nisan and Schocken) and proves properties of the model. Two classes make up
that core:

- `Parser`. It normalises the source lines, classifies each line as an A,
  L or C instruction, and extracts the `symbol`, `dest`, `comp` and `jump`
  fields. Its `write` method then runs the two passes: pass 1 binds labels
  to ROM line numbers and pass 2 binds variables from address 16. `write`
  also computes the output file name.
- `Code`. It holds the three mnemonic tables for the computation,
  destination and jump fields of a C instruction, and the lookups into them.

The model is functional:

- A line is a `string`, and a program is a `seq<string>`.
- The tagged form of a line is the datatype `A(symbol) | L(symbol) | C(text)`.
- The symbol table is a `map<string, int>`.
- Each pass is a recursive fold over the program, with its counter as an
  accumulator.
- The cursor loops of `write` are also modelled as imperative methods, and
  proved against the folds.

The modules are:

| module | file | what it holds |
|---|---|---|
| `Strings` | strings.dfy | `indexOf`, `lastIndexOf`, `trim`, `isBlank`, `startsWith`/`endsWith`, character `replace` |
| `Bits` | bits.dfy | fixed-width binary strings and their values |
| `Code` | code.dfy | the three tables, the `comp`/`dest`/`jump` lookups, and a decoder for the computation field |
| `SymbolTable` | symbol_table.dfy | `contains`, `getAddress` and `addEntry` over a map |
| `Source` | source.dfy | the trim-and-filter pipeline of the constructor, with the filter as a parameter |
| `Instructions` | instructions.dfy | `instructionType`, `symbol`, `dest`, `comp`, `jump` |
| `Passes` | passes.dfy | pass 1, pass 2, the intended variants, and the whole translation |
| `Cursor` | cursor.dfy | the `index` cursor and the two `while` loops of `write` |
| `OutputFile` | output_file.dfy | the output file name |

Several operations are modelled twice: once as the code is written, and once
as evidently intended. Each pair is named under "## Findings" below. The
passes take the label bias as a parameter: 1 as written, 0 as intended. The
normaliser takes the filter as a parameter.

The Hack assembly language is published in chapter 6 of *The Elements of
Computing Systems*. Where the code departs from that definition, the model
follows the code:

- In the Hack language, a comment runs from `//` to the end of any line. The
  code's `isComment` only recognises a line that starts with `//`, and drops
  no comment that follows an instruction (`Source.IsComment`).
- In the Hack language, `@value` with a non-negative decimal `value` loads
  that constant. The code looks every operand up as a symbol
  (`NumeralBecomesVariable`, `NumeralShiftsVariables`).
- In the Hack language, a label denotes the ROM address of the instruction
  that follows it. The code adds 1 (`LabelOffByOne`).
- In the Hack language, a C instruction is the word `111a cccc ccdd djjj`,
  whose computation field has seven bits: the selector `a` and six function
  bits. The code's computation table has only the six function bits. `write`
  prints `"@"` followed by the resolved address for A lines and nothing for
  C lines.
- In the Hack language, `Prog.asm` is translated into `Prog.hack`. The code
  writes `Prog` (`OutputNameDropsExtension`).

The Hack language also says nothing about two further cases. One is the
code's own behaviour; the other is a choice of this model:

- A line that starts with `(` but does not end with `)` is classified as a
  C instruction (`Instructions.TypeOf`, `ClassificationExamples`).
- `addEntry` belongs to `SymbolTable.java`, which is not part of this model.
  It is modelled as plain map insertion, in which a later entry for the same
  symbol replaces an earlier one (`AddEntryLastWins`). That is an assumption
  about the unseen class, not an observed behaviour.

## Model

| member | source | states |
|---|---|---|
| Strings.IndexOf | src/Parser.java:78 | `indexOf` gives -1 exactly when the character is absent; otherwise it gives the position of its first occurrence |
| Strings.IndexOfAfter | src/Parser.java:91-92 | in `a + [c] + b` with no `c` in `a`, the first `c` is at `\|a\|` |
| Strings.LastIndexOf | src/Parser.java:116 | `lastIndexOf` gives -1 exactly when the character is absent; otherwise it gives the position of its last occurrence |
| Strings.TrimIsInfix | src/Parser.java:22 | `trim` yields the infix of the line left once every character at or below U+0020 is removed from both ends: everything before and after the result is trimmable, and the result has no trimmable character at either end |
| Strings.TrimFixesTrimmed | src/Parser.java:22 | `trim(s) == s` exactly when neither end of `s` is trimmable |
| Strings.TrimIdempotent | src/Parser.java:22 | trimming twice is trimming once |
| Source.IsComment | src/Parser.java:10-12 | `isComment` holds exactly when the line has at least two characters and starts with `//`, so a `//` later in the line does not count |
| Source.IsEmptyLine | src/Parser.java:14-16 | `isEmptyLine` holds exactly when every character is whitespace in the sense of `Character.isWhitespace`; the `isEmpty` half adds nothing |
| Source.TrimAll | src/Parser.java:22 | `map(String::trim)` keeps the length and trims each line in place |
| Source.Normalise | src/Parser.java:22-24 | for any filter, every surviving line is accepted by the filter and trimmed, and the output is a subsequence of the trimmed input |
| Source.NormalisedLinesAreTrimmed | src/Parser.java:22-24 | every surviving line is a fixpoint of `trim` |
| Source.NormaliseKeepsAccepted | src/Parser.java:22-24 | every trimmed line the filter accepts occurs in the output |
| Source.NormaliseAppend | src/Parser.java:22-24 | normalising `a + b` gives the normal form of `a` followed by that of `b`, so relative order is kept |
| Source.NormaliseRejectingAll | src/Parser.java:22-24 | a filter that rejects every trimmed line leaves the empty program |
| Source.SourceFilterDropsInstructions | src/Parser.java:23 | with the filter as written, every surviving line is a comment or blank |
| Source.SourceFilterDropsLine | src/Parser.java:10-23 | a trimmed line starting with neither `/` nor whitespace is neither a comment nor blank, so the filter as written drops it |
| Source.SourceFilterDropsProgram | src/Parser.java:22-24 | a program made only of such instruction lines normalises to nothing under the filter as written |
| Source.NormaliseAcceptingAll | src/Parser.java:22-24 | a filter that accepts every line, on lines `trim` leaves alone, keeps the program as it is |
| Source.InstructionFilterKeepsProgram | src/Parser.java:22-24 | a program of trimmed instruction lines (none starting with `/` or whitespace) passes the intended filter unchanged |
| Source.InstructionFilterKeepsInstructions | src/Parser.java:22-24 | with the intended filter, the output holds exactly the non-comment, non-blank trimmed lines |
| Instructions.Symbol | src/Parser.java:64-74 | an A line is `"@" + symbol`, an L line is `"(" + symbol + ")"`, and a C line has symbol `""` |
| Instructions.Parse | src/Parser.java:53-74 | the tag agrees with `instructionType`, the payload is `symbol()`, and printing the tagged form gives the line back |
| Instructions.ParseUnparse | src/Parser.java:53-74 | parsing the text of a well-formed tagged instruction gives that instruction back |
| Instructions.TypeOf | src/Parser.java:53-62 | A means the line starts with `@`; L means it starts with `(`, ends with `)` and has at least two characters; everything else is C, including an unclosed `(` and the empty line |
| Instructions.ClassificationExamples | src/Parser.java:53-74 | `(LOOP`, `(` and `""` are C lines; `()` is a label with symbol `""`; `@5` is an A line with symbol `5` |
| Instructions.Dest | src/Parser.java:76-85 | `dest()` is `""` when there is no `=`, and otherwise the prefix before the first `=` |
| Instructions.Jump | src/Parser.java:104-113 | `jump()` is `""` when there is no `;`, and otherwise the suffix after the first `;` |
| Instructions.Comp | src/Parser.java:87-102 | `comp()` is `""` off C lines and holds no `;`; it throws exactly when a C line has its first `;` before its first `=` |
| Instructions.FieldsReassemble | src/Parser.java:76-113 | when `comp()` succeeds, `dest + "=" + comp + ";" + jump` is the line, with each separator present exactly when the line has it |
| Instructions.FieldsRoundTrip | src/Parser.java:76-113 | splitting the joined text of separator-free fields gives those fields back |
| Instructions.FieldExampleFull | src/Parser.java:76-113 | `AM=M-1;JNE` splits into `AM`, `M-1` and `JNE` |
| Instructions.FieldExampleNoDest | src/Parser.java:76-113 | `0;JMP` splits into `""`, `0` and `JMP` |
| Instructions.FieldExampleCrossed | src/Parser.java:91-98 | `comp()` on `D;JGT=M` throws |
| SymbolTable.AddEntryLastWins | src/Parser.java:132 | two `addEntry` calls for the same symbol leave the later address, so a label defined twice keeps its second address |
| SymbolTable.AddEntryCommutes | src/Parser.java:132 | entries for two different symbols can be added in either order with the same result |
| SymbolTable.AddEntryExisting | src/Parser.java:130-132 | adding a binding the table already has changes nothing, so a label repeated with no instruction in between leaves the table as it was |
| Passes.SymbolsMeaning | src/Parser.java:126-149 | a symbol belongs to the symbols of a kind exactly when some line of that kind carries it |
| Passes.AddressOperands | src/Parser.java:144-150 | the A-line operands: each is an A-line symbol, and every A-line symbol occurs |
| Passes.AddressOperandsAppend | src/Parser.java:141-156 | the operands of `a + b` are those of `a` followed by those of `b`, so there is one entry per A line, in program order |
| Passes.AddressOperandsOfLine | src/Parser.java:144-150 | a single line contributes its symbol when it is an A line, and nothing otherwise |
| Passes.CommandsOnly | src/Parser.java:126-156 | a program of C lines has no labels, no A-line symbols and no operands |
| Passes.FirstPass | src/Parser.java:123-135 | the line counter ends at its start plus the number of A and C lines; the table gains exactly the label symbols; other bindings survive |
| Passes.CountRealAppend | src/Parser.java:129 | the line count of `a + b` is the count of `a` plus the count of `b` |
| Passes.CountRealStep | src/Parser.java:128-133 | an L line leaves the counter unchanged, and an A or C line advances it by one |
| Passes.FirstPassBindsLabel | src/Parser.java:126-135 | a label not defined again later is bound to the start count, plus the A and C lines before it, plus the bias |
| Passes.FirstPassAppend | src/Parser.java:126-135 | pass 1 over `a + b` is pass 1 over `b`, starting from the state `a` leaves behind |
| Passes.Fresh | src/Parser.java:146 | the new A-line symbols: each once, none already known, all of them present |
| Passes.FreshAppend | src/Parser.java:141-149 | the new symbols of `a + b` are those of `a`, followed by those of `b` that neither the table nor `a` holds, so `Fresh` lists them in order of first appearance |
| Passes.FreshOfLine | src/Parser.java:144-149 | a single line is new exactly when it is an A line whose symbol is not known |
| Passes.SecondPassProperties | src/Parser.java:141-156 | for the second loop (the fold `SecondPass`): no binding is replaced; afterwards every A-line symbol is bound and nothing else is added; the counter grows by the number of new symbols; each A line yields its symbol's final address |
| Passes.SecondPassTable | src/Parser.java:141-151 | the table after pass 2 extends the one before it, with exactly the A-line symbols added |
| Passes.SecondPassVariables | src/Parser.java:146-149 | the variable counter grows by one per distinct new A-line symbol |
| Passes.SecondPassAddresses | src/Parser.java:144-151 | pass 2 yields one address per A line, the one its symbol has in the final table |
| Passes.SecondPassAllocates | src/Parser.java:146-148 | a new symbol at its first appearance gets `16 + variables + k`, where k counts the distinct new symbols before it |
| Passes.SecondPassIntended | src/Parser.java:141-151 | as intended: no binding is replaced; exactly the non-numeral A-line symbols are added; a numeral operand yields its own value and every other operand its symbol's final address; the counter grows by the number of new symbols once numeral lines are set aside |
| Passes.SecondPassIntendedVariables | src/Parser.java:145-149 | as intended, the counter grows by one per distinct new A-line symbol that is not a numeral, so a numeral takes no variable slot |
| Passes.SecondPassIntendedAllocates | src/Parser.java:146-148 | as intended, a new non-numeral symbol at its first appearance gets `16 + variables + k`, where k counts only the new non-numeral symbols before it |
| Passes.SecondPassAgreesWithoutNumerals | src/Parser.java:141-151 | on a program without numeral operands, the intended pass 2 and the code's pass 2 agree exactly |
| Passes.NumeralBecomesVariable | src/Parser.java:145-150 | for every number n whose decimal spelling is unbound, `@n` loads `16 + variables` in the code's pass 2 and n in the intended one |
| Passes.NumeralShiftsVariables | src/Parser.java:145-148 | in `@5` followed by `@x`, with neither bound, the code gives `x` the address `17 + variables` and the intended pass gives it `16 + variables` |
| Passes.Assemble | src/Parser.java:115-156 | the constructor and both passes with the inverted filter, bias 1 and numerals as symbols, but with the corrected `hasMoreLines`, so that pass 2 runs: the program is the input normalised with the inverted filter, so the kept lines satisfy it; the table holds the predefined, label and A-line symbols; each A line yields its symbol's address |
| Passes.AssembleIntended | src/Parser.java:115-156 | the translation as intended: the program is the input normalised with the intended filter, so it holds exactly the instruction lines, in order; numerals denote themselves; every other A line yields its symbol's address |
| Passes.AssembleIntendedExample | src/Parser.java:115-156 | as intended, `@x` followed by `D=A`, with `x` unbound, keeps both lines, binds `x` to 16 and yields the addresses `[16]` |
| Passes.KeptLineIsCommand | src/Parser.java:23 | a line the inverted filter keeps is classified as a C line |
| Passes.AsWrittenResolvesNothing | src/Parser.java:22-24 | as written, the table stays the predefined one and no address is produced, whatever the input |
| Passes.LabelOffByOne | src/Parser.java:132 | as written, a label is bound to the number of A and C lines before it plus 1; with bias 0 it is bound to that number |
| Passes.IntendedLabelAddress | src/Parser.java:132 | in the intended translation, a label not defined again later holds the ROM address of the next instruction, also after pass 2 |
| Cursor.WriteAsWritten | src/Parser.java:126-135 | on every input, the first loop ends by reading `instructions[length]`, with the table that pass 1 built |
| Cursor.Write | src/Parser.java:126-156 | with the corrected `hasMoreLines`, both loops complete with the table and addresses of the folds |
| Cursor.LabelLoop | src/Parser.java:126-135 | the first loop ends with the table and line counter of pass 1 |
| Cursor.VariableLoop | src/Parser.java:141-156 | the second loop ends with the table, counter and addresses of pass 2 |
| OutputFile.OutputName | src/Parser.java:116-117 | with no `.`, the name plus ".hack"; otherwise the text before the last `.` |
| OutputFile.OutputNameIntended | src/Parser.java:116-117 | the intended name always ends in ".hack", and is the code's name plus ".hack" whenever the name has a `.` |
| OutputFile.OutputNameOfStem | src/Parser.java:116-117 | for `stem.ext` with no `.` in `ext`, the code yields `stem` and the intended version yields `stem.hack` |
| OutputFile.OutputNameDropsExtension | src/Parser.java:116-117 | `Prog.asm` is written to `Prog`, without ".hack"; the intended version gives `Prog.hack` |
| Code.OfEntries | src/Code.java:5-34 | `Map.ofEntries` on distinct keys holds every entry with its value, and no other key |
| Code.OfEntriesSize | src/Code.java:5-34 | such a map has one key per entry |
| Code.DestTable | src/Code.java:36-45 | `Map.ofEntries` keeps one key per listed destination entry (8), so no entry is lost |
| Code.JumpTable | src/Code.java:47-56 | `Map.ofEntries` keeps one key per listed jump entry (8), so no entry is lost |
| Code.CompTable | src/Code.java:5-34 | `Map.ofEntries` keeps one key per listed computation entry (28), so no entry is lost |
| Code.Dest | src/Code.java:58-60 | `dest` gives the listed bits of a listed mnemonic, absence for any other, and always three bits |
| Code.Comp | src/Code.java:62-64 | `comp` gives the listed bits of a listed mnemonic, absence for any other, and always six bits |
| Code.Jump | src/Code.java:66-68 | `jump` gives the listed bits of a listed mnemonic, absence for any other, and always three bits |
| Code.DestTableShape | src/Code.java:36-45 | the destination table has 8 keys, each mapped to a 3-character string over {0,1} |
| Code.DestInCodeOrder | src/Code.java:37-44 | destination entry i carries the 3-bit code of i |
| Code.DestTableBijective | src/Code.java:36-45 | the destination table is a bijection onto all eight 3-bit strings, and `""` maps to `000` |
| Code.DestBitsAreStoreFlags | src/Code.java:37-44 | the three destination bits say whether the mnemonic names A, D and M, in that order |
| Code.DestSpellingsAbsent | src/Code.java:36-60 | `MD` and `AMD` are absent, since the table spells them `DM` and `ADM` |
| Code.JumpTableShape | src/Code.java:47-56 | the jump table has 8 keys, each mapped to a 3-character string over {0,1} |
| Code.JumpInCodeOrder | src/Code.java:48-55 | jump entry i carries the 3-bit code of i, so `JGT` to `JMP` ascend |
| Code.JumpTableBijective | src/Code.java:47-56 | the jump table is a bijection onto all eight 3-bit strings; `""` maps to `000` and `JMP` to `111` |
| Code.CompKeysDistinct | src/Code.java:5-34 | no computation mnemonic is listed twice, so `Map.ofEntries` accepts the list |
| Code.CompTableShape | src/Code.java:5-34 | the computation table has 28 keys, each mapped to a 6-character string over {0,1} |
| Code.CompEntriesTwinned | src/Code.java:10-33 | each entry naming A is followed directly by its M twin with the same bits, and each entry naming M follows its A twin |
| Code.CompSymmetricInAM | src/Code.java:10-33 | replacing A with M in a key gives a key with identical bits (for example `A+1` and `M+1` both give `110111`), and the same holds from M to A |
| Code.CompOfCode | src/Code.java:5-34 | a decoded mnemonic names M exactly when the selector bit is set |
| Code.CompRoundTrip | src/Code.java:5-34 | decoding a mnemonic's function bits, with the selector set when it names M, gives the mnemonic back |
| Code.CompInjectiveWithoutM | src/Code.java:5-34 | on the keys that do not name M, the computation table is injective |
| Code.CompDecodable | src/Code.java:5-34 | two distinct mnemonics differ either in naming M or in their function bits |
| Code.CompHasNoDefault | src/Code.java:62-64 | `comp` is absent for `""` and for `D+D`, and present for `D+1` |

## Left out

- File and console I/O are not modelled. This covers the `FileReader` and
  `BufferedReader` of the constructor, `PrintWriter` and `FileWriter`, and
  the two `catch` blocks (src/Parser.java:19-28, 119-121, 158-160). The
  input is given as a `seq<string>`.
- Output emission is not modelled beyond the addresses:
  - `writer.write("@" + address)` (src/Parser.java:150) is modelled as the
    sequence of resolved addresses. The decimal text, the missing line
    separators, and the writer that is never flushed or closed are left out.
  - The C branch writes nothing (src/Parser.java:152-154). No 16-bit word and
    no selector bit is assembled anywhere, so none is modelled as if it were.
- `VARIABLE_CURRENT` is an instance field (src/Parser.java:8) that would carry
  over into a second call of `write`. Here it is the accumulator of pass 2,
  starting at 0, as in the first call.
- Passes.Assemble: composes the folds, which run both loops to the end, as
  `Cursor.Write` does with the corrected `hasMoreLines`. As written, `write`
  throws at the end of pass 1 (`Cursor.WriteAsWritten`). `Assemble` keeps
  the other behaviours as written, so that they can be stated about a
  completed run.
- Passes.SecondPass: the fold carries no `ensures` of its own. Its properties
  are stated by `Passes.SecondPassProperties` and the lemmas after it.
- The internals of `SymbolTable` and its predefined symbols are not modelled:
  `SymbolTable.java` is not part of this model. The initial table is a
  parameter, and `addEntry` is map insertion, which overwrites.
- `resetRead` and `advance` (src/Parser.java:44-52) are folded into the loops
  of `Cursor`. Inside a loop, `advance`'s own `hasMoreLines` guard always
  holds, so it does not change the outcome.
- Java's 32-bit `int` is not modelled. Counters and addresses are unbounded,
  and overflow would need more than 2^31 lines. The 15-bit range of Hack
  addresses is not checked either: the code does not check it.
- Java strings are sequences of UTF-16 code units, and here a string is a
  sequence of `char`. `isBlank` decides whitespace per code point, through
  `Character.isWhitespace`. Supplementary-plane characters are not modelled
  separately, because none of them is whitespace.

## Findings

| source | as written | input that shows it | evidently intended | confidence | as-written member | corrected member |
|---|---|---|---|---|---|---|
| src/Parser.java:23 | the filter keeps the lines that are comments or blank | any program of instruction lines, such as `@2`, `D=A`: it normalises to nothing, and nothing is resolved | keep the lines that are neither comments nor blank | high; not executed | Passes.AsWrittenResolvesNothing | Source.InstructionFilterKeepsInstructions |
| src/Parser.java:132 | a label is bound to `lineNumber + 1` | `(LOOP)` as the first line binds LOOP to 1, but the next instruction is at ROM address 0 | bind to `lineNumber` | high; not executed | Passes.LabelOffByOne | Passes.IntendedLabelAddress |
| src/Parser.java:145-148 | a numeric operand is looked up as a symbol, and gets a variable slot | `@5` with `5` unbound loads 16, and a following `@x` gets 17 instead of 16, provided the predefined table binds neither (`SymbolTable.java` is not part of this model) | a numeral denotes its own value and takes no variable slot | medium; not executed | Passes.NumeralShiftsVariables | Passes.SecondPassIntendedAllocates |
| src/Parser.java:40-42 | `hasMoreLines()` tests `index < instructions.length` | every input, the empty one included: the last iteration advances to `length` and reads `instructions[length]`, so pass 2 never runs | test `index + 1 < instructions.length` | high; not executed | Cursor.WriteAsWritten | Cursor.Write |
| src/Parser.java:116-117 | a name with a `.` loses its extension, and ".hack" is appended only when there is no `.` | `Prog.asm` is written to `Prog` | replace the extension with ".hack" | medium; not executed | OutputFile.OutputNameDropsExtension | OutputFile.OutputNameIntended |
