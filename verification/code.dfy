/**
 The three mnemonic tables of the Hack C-instruction (section 4.2 of The
 Elements of Computing Systems): computation mnemonic to its six ALU
 function bits (the a/selector bit is not part of the table), destination
 mnemonic to three bits, jump mnemonic to three bits. The lookups return
 `Absent` where the Java maps return null: no mnemonic has a default.

 Each table is the map of a list of entries in source order. Facts about a
 table are proved about its entries, block by block for the computation
 table, and carried over to the map.
 */
module Code {
  import opened Bits
  import opened Strings

  datatype Option<T> = Absent | Present(value: T)

  type Entries = seq<(string, string)>

  /** The computation entries in source order: each mnemonic naming `A` is immediately
      followed by its `M` twin. */
  const CompEntries: Entries := CompConstants + CompUnary + CompIncrements + CompBinary

  /** The constants and the single registers. */
  const CompConstants: Entries := [
    ("0", "101010"), ("1", "111111"), ("-1", "111010"), ("D", "001100"),
    ("A", "110000"), ("M", "110000")
  ]

  /** Negation, bitwise and arithmetic. */
  const CompUnary: Entries := [
    ("!D", "001101"), ("!A", "110001"), ("!M", "110001"),
    ("-D", "001111"), ("-A", "110011"), ("-M", "110011")
  ]

  /** Increment and decrement. */
  const CompIncrements: Entries := [
    ("D+1", "011111"), ("A+1", "110111"), ("M+1", "110111"),
    ("D-1", "001110"), ("A-1", "110010"), ("M-1", "110010")
  ]

  /** The two-operand computations. */
  const CompBinary: Entries := [
    ("D+A", "000010"), ("D+M", "000010"),
    ("D-A", "010011"), ("D-M", "010011"),
    ("A-D", "000111"), ("M-D", "000111"),
    ("D&A", "000000"), ("D&M", "000000"),
    ("D|A", "010101"), ("D|M", "010101")
  ]

  /** The destination entries; entry i carries the 3-bit code of i. */
  const DestEntries: Entries := [
    ("", "000"), ("M", "001"), ("D", "010"), ("DM", "011"),
    ("A", "100"), ("AM", "101"), ("AD", "110"), ("ADM", "111")
  ]

  /** The jump entries; entry i carries the 3-bit code of i. */
  const JumpEntries: Entries := [
    ("", "000"), ("JGT", "001"), ("JEQ", "010"), ("JGE", "011"),
    ("JLT", "100"), ("JNE", "101"), ("JLE", "110"), ("JMP", "111")
  ]

  // ---------------------------------------------------------------------------
  // Entry lists and their maps

  predicate KeysDistinct(entries: Entries) {
    forall i, j :: 0 <= i < j < |entries| ==> entries[i].0 != entries[j].0
  }

  predicate KeysDisjoint(a: Entries, b: Entries) {
    forall i, j :: 0 <= i < |a| && 0 <= j < |b| ==> a[i].0 != b[j].0
  }

  /** Two lists with distinct keys and no key in common concatenate to a list with distinct keys. */
  lemma DistinctAppend(a: Entries, b: Entries)
    requires KeysDistinct(a) && KeysDistinct(b) && KeysDisjoint(a, b)
    ensures KeysDistinct(a + b)
  {
    var ab := a + b;
    forall i, j | 0 <= i < j < |ab| ensures ab[i].0 != ab[j].0 {
      if j < |a| {
        assert ab[i] == a[i] && ab[j] == a[j];
      } else if i < |a| {
        assert ab[i] == a[i] && ab[j] == b[j - |a|];
      } else {
        assert ab[i] == b[i - |a|] && ab[j] == b[j - |a|];
      }
    }
  }

  /** Java `Map.ofEntries`, which rejects a repeated key: the map holding exactly the entries. */
  function OfEntries(entries: Entries): (m: map<string, string>)
    requires KeysDistinct(entries)
    ensures forall k :: k in m ==> exists i :: 0 <= i < |entries| && entries[i].0 == k
    ensures forall i :: 0 <= i < |entries| ==> entries[i].0 in m && m[entries[i].0] == entries[i].1
  {
    if |entries| == 0 then map[]
    else
      var n := |entries| - 1;
      var m := OfEntries(entries[..n]);
      assert forall i :: 0 <= i < n ==> entries[..n][i] == entries[i];
      assert KeysDistinct(entries[..n]);
      m[entries[n].0 := entries[n].1]
  }

  /** A map built from distinct keys has one key per entry. */
  lemma {:induction false} OfEntriesSize(entries: Entries)
    requires KeysDistinct(entries)
    ensures |OfEntries(entries)| == |entries|
  {
    if |entries| > 0 {
      var n := |entries| - 1;
      assert KeysDistinct(entries[..n]);
      OfEntriesSize(entries[..n]);
      assert entries[n].0 !in OfEntries(entries[..n]);
    }
  }

  /** Every value of a list is a `width`-bit string. */
  predicate ValuesWidth(entries: Entries, width: nat) {
    forall i :: 0 <= i < |entries| ==> IsBits(entries[i].1, width)
  }

  /** A property of every value of the list is a property of every value of its map. */
  lemma ValuesWidthOfMap(entries: Entries, width: nat)
    requires KeysDistinct(entries) && ValuesWidth(entries, width)
    ensures forall k :: k in OfEntries(entries) ==> IsBits(OfEntries(entries)[k], width)
  {
    forall k | k in OfEntries(entries) ensures IsBits(OfEntries(entries)[k], width) {
      var i :| 0 <= i < |entries| && entries[i].0 == k;
    }
  }

  /** Entry i carries the `width`-bit code of i. */
  predicate InCodeOrder(entries: Entries, width: nat) {
    forall i :: 0 <= i < |entries| ==> entries[i].1 == ToBits(i, width)
  }

  /** A list of 2^width entries in code order, as a map, is a bijection from its keys onto all
      `width`-bit strings. */
  lemma CodeOrderBijective(entries: Entries, width: nat)
    requires KeysDistinct(entries) && InCodeOrder(entries, width) && |entries| == Pow2(width)
    ensures forall b :: IsBits(b, width) ==> b in OfEntries(entries).Values
    ensures forall k1, k2 :: k1 in OfEntries(entries) && k2 in OfEntries(entries) && k1 != k2 ==>
      OfEntries(entries)[k1] != OfEntries(entries)[k2]
  {
    var m := OfEntries(entries);
    forall b | IsBits(b, width) ensures b in m.Values {
      BitsOfValue(b);
      assert m[entries[Value(b)].0] == b;
    }
    forall k1, k2 | k1 in m && k2 in m && k1 != k2 ensures m[k1] != m[k2] {
      var i :| 0 <= i < |entries| && entries[i].0 == k1;
      var j :| 0 <= j < |entries| && entries[j].0 == k2;
      BitsInjective(i, j, width);
    }
  }

  // ---------------------------------------------------------------------------
  // The tables and the lookups

  /** `destMnemonic`: `Map.ofEntries` over the listed entries, one key per entry. */
  function DestTable(): (m: map<string, string>)
    ensures |m| == |DestEntries|
  {
    DestKeysDistinct();
    OfEntriesSize(DestEntries);
    OfEntries(DestEntries)
  }

  /** `jumpMnemonic`: `Map.ofEntries` over the listed entries, one key per entry. */
  function JumpTable(): (m: map<string, string>)
    ensures |m| == |JumpEntries|
  {
    JumpKeysDistinct();
    OfEntriesSize(JumpEntries);
    OfEntries(JumpEntries)
  }

  /** `compMnemonic`: `Map.ofEntries` over the listed entries, one key per entry. */
  function CompTable(): (m: map<string, string>)
    ensures |m| == |CompEntries|
  {
    CompKeysDistinct();
    OfEntriesSize(CompEntries);
    OfEntries(CompEntries)
  }

  /** Java `Map.get`: the entry for `key`, or `Absent` (null). */
  function Get(table: map<string, string>, key: string): (r: Option<string>)
    ensures r.Present? <==> key in table
    ensures r.Present? ==> r.value == table[key]
  {
    if key in table then Present(table[key]) else Absent
  }

  /** `Code.dest`: the three destination bits, or absence for an unlisted mnemonic. */
  function Dest(mnemonic: string): (r: Option<string>)
    ensures r.Present? <==> exists i :: 0 <= i < |DestEntries| && DestEntries[i].0 == mnemonic
    ensures forall i :: 0 <= i < |DestEntries| && DestEntries[i].0 == mnemonic ==> r == Present(DestEntries[i].1)
    ensures r.Present? ==> IsBits(r.value, 3)
  {
    DestTableShape();
    Get(DestTable(), mnemonic)
  }

  /** `Code.comp`: the six ALU function bits, or absence for an unlisted mnemonic. */
  function Comp(mnemonic: string): (r: Option<string>)
    ensures r.Present? <==> exists i :: 0 <= i < |CompEntries| && CompEntries[i].0 == mnemonic
    ensures forall i :: 0 <= i < |CompEntries| && CompEntries[i].0 == mnemonic ==> r == Present(CompEntries[i].1)
    ensures r.Present? ==> IsBits(r.value, 6)
  {
    CompTableShape();
    Get(CompTable(), mnemonic)
  }

  /** `Code.jump`: the three jump bits, or absence for an unlisted mnemonic. */
  function Jump(mnemonic: string): (r: Option<string>)
    ensures r.Present? <==> exists i :: 0 <= i < |JumpEntries| && JumpEntries[i].0 == mnemonic
    ensures forall i :: 0 <= i < |JumpEntries| && JumpEntries[i].0 == mnemonic ==> r == Present(JumpEntries[i].1)
    ensures r.Present? ==> IsBits(r.value, 3)
  {
    JumpTableShape();
    Get(JumpTable(), mnemonic)
  }

  // ---------------------------------------------------------------------------
  // Destination table

  /** The eight 3-bit codes, in ascending order. */
  lemma ThreeBitCodes()
    ensures ToBits(0, 3) == "000" && ToBits(1, 3) == "001" && ToBits(2, 3) == "010" && ToBits(3, 3) == "011"
    ensures ToBits(4, 3) == "100" && ToBits(5, 3) == "101" && ToBits(6, 3) == "110" && ToBits(7, 3) == "111"
  {
  }

  lemma DestKeysDistinct()
    ensures KeysDistinct(DestEntries)
  {
  }

  /** The destination table has eight keys, each mapped to three bits. */
  lemma DestTableShape()
    ensures |DestTable()| == 8
    ensures forall k :: k in DestTable() ==> IsBits(DestTable()[k], 3)
  {
    DestKeysDistinct();
    OfEntriesSize(DestEntries);
    DestInCodeOrder();
    ValuesWidthOfMap(DestEntries, 3);
  }

  /** Entry i of the destination list carries the bits of i. */
  lemma DestInCodeOrder()
    ensures InCodeOrder(DestEntries, 3) && ValuesWidth(DestEntries, 3)
  {
    ThreeBitCodes();
    forall i | 0 <= i < |DestEntries| ensures DestEntries[i].1 == ToBits(i, 3) {
      assert i == 0 || i == 1 || i == 2 || i == 3 || i == 4 || i == 5 || i == 6 || i == 7;
    }
  }

  /** The destination table is a bijection from its eight keys onto all eight 3-bit strings, in
      ascending code order, and "" stores nowhere. */
  lemma DestTableBijective()
    ensures forall i :: 0 <= i < |DestEntries| ==> DestTable()[DestEntries[i].0] == ToBits(i, 3)
    ensures forall b :: IsBits(b, 3) ==> b in DestTable().Values
    ensures forall k1, k2 :: k1 in DestTable() && k2 in DestTable() && k1 != k2 ==> DestTable()[k1] != DestTable()[k2]
    ensures "" in DestTable() && DestTable()[""] == "000"
  {
    DestKeysDistinct();
    DestInCodeOrder();
    CodeOrderBijective(DestEntries, 3);
    assert DestEntries[0] == ("", "000");
  }

  /** '1' when the register letter is named, '0' when it is not. */
  function Flag(named: bool): char {
    if named then '1' else '0'
  }

  /** The three destination bits are the A, D and M store flags: a bit is set exactly when
      the mnemonic names that register. */
  lemma DestBitsAreStoreFlags()
    ensures forall k :: k in DestTable() ==> DestTable()[k] == [Flag('A' in k), Flag('D' in k), Flag('M' in k)]
  {
    DestKeysDistinct();
    forall i | 0 <= i < |DestEntries|
      ensures DestEntries[i].1 == [Flag('A' in DestEntries[i].0), Flag('D' in DestEntries[i].0), Flag('M' in DestEntries[i].0)]
    {
      assert i == 0 || i == 1 || i == 2 || i == 3 || i == 4 || i == 5 || i == 6 || i == 7;
    }
    forall k | k in DestTable() ensures DestTable()[k] == [Flag('A' in k), Flag('D' in k), Flag('M' in k)] {
      var i :| 0 <= i < |DestEntries| && DestEntries[i].0 == k;
    }
  }

  /** The table spells the two-register destinations DM and ADM, so the spellings MD and AMD
      have no entry. */
  lemma DestSpellingsAbsent()
    ensures Dest("MD") == Absent && Dest("AMD") == Absent
    ensures Dest("DM") == Present("011") && Dest("ADM") == Present("111")
  {
    assert DestEntries[3] == ("DM", "011") && DestEntries[7] == ("ADM", "111");
    forall i | 0 <= i < |DestEntries| ensures DestEntries[i].0 != "MD" && DestEntries[i].0 != "AMD" {
      assert i == 0 || i == 1 || i == 2 || i == 3 || i == 4 || i == 5 || i == 6 || i == 7;
    }
  }

  // ---------------------------------------------------------------------------
  // Jump table

  lemma JumpKeysDistinct()
    ensures KeysDistinct(JumpEntries)
  {
  }

  /** The jump table has eight keys, each mapped to three bits. */
  lemma JumpTableShape()
    ensures |JumpTable()| == 8
    ensures forall k :: k in JumpTable() ==> IsBits(JumpTable()[k], 3)
  {
    JumpKeysDistinct();
    OfEntriesSize(JumpEntries);
    JumpInCodeOrder();
    ValuesWidthOfMap(JumpEntries, 3);
  }

  /** Entry i of the jump list carries the bits of i. */
  lemma JumpInCodeOrder()
    ensures InCodeOrder(JumpEntries, 3) && ValuesWidth(JumpEntries, 3)
  {
    ThreeBitCodes();
    forall i | 0 <= i < |JumpEntries| ensures JumpEntries[i].1 == ToBits(i, 3) {
      assert i == 0 || i == 1 || i == 2 || i == 3 || i == 4 || i == 5 || i == 6 || i == 7;
    }
  }

  /** The jump table is a bijection from its eight keys onto all eight 3-bit strings, with JGT to
      JMP in ascending code order; "" never jumps and JMP always does. */
  lemma JumpTableBijective()
    ensures forall i :: 0 <= i < |JumpEntries| ==> JumpTable()[JumpEntries[i].0] == ToBits(i, 3)
    ensures forall b :: IsBits(b, 3) ==> b in JumpTable().Values
    ensures forall k1, k2 :: k1 in JumpTable() && k2 in JumpTable() && k1 != k2 ==> JumpTable()[k1] != JumpTable()[k2]
    ensures "" in JumpTable() && JumpTable()[""] == "000"
    ensures "JMP" in JumpTable() && JumpTable()["JMP"] == "111"
  {
    JumpKeysDistinct();
    JumpInCodeOrder();
    CodeOrderBijective(JumpEntries, 3);
    assert JumpEntries[0] == ("", "000") && JumpEntries[7] == ("JMP", "111");
  }

  // ---------------------------------------------------------------------------
  // Computation table: facts about the blocks

  /** No computation mnemonic is listed twice. */
  lemma CompKeysDistinct()
    ensures KeysDistinct(CompEntries)
  {
    ConstantsDistinct();
    UnaryDistinct();
    IncrementsDistinct();
    BinaryDistinct();
    BlocksDisjoint();
    DistinctAppend(CompConstants, CompUnary);
    DistinctAppend(CompConstants + CompUnary, CompIncrements);
    DistinctAppend(CompConstants + CompUnary + CompIncrements, CompBinary);
  }

  lemma ConstantsDistinct()
    ensures KeysDistinct(CompConstants)
  {
  }

  lemma UnaryDistinct()
    ensures KeysDistinct(CompUnary)
  {
  }

  lemma IncrementsDistinct()
    ensures KeysDistinct(CompIncrements)
  {
  }

  lemma BinaryDistinct()
    ensures KeysDistinct(CompBinary)
  {
  }

  /** The blocks share no mnemonic: they differ in length, or in the last character. */
  lemma BlocksDisjoint()
    ensures KeysDisjoint(CompConstants, CompUnary)
    ensures KeysDisjoint(CompConstants + CompUnary, CompIncrements)
    ensures KeysDisjoint(CompConstants + CompUnary + CompIncrements, CompBinary)
  {
    assert forall i :: 0 <= i < |CompConstants| ==> |CompConstants[i].0| <= 2;
    assert forall i :: 0 <= i < |CompUnary| ==> |CompUnary[i].0| == 2;
    assert forall i :: 0 <= i < |CompIncrements| ==> |CompIncrements[i].0| == 3 && CompIncrements[i].0[2] == '1';
    assert forall i :: 0 <= i < |CompBinary| ==> |CompBinary[i].0| == 3 && CompBinary[i].0[2] != '1';
    assert forall i :: 0 <= i < |CompConstants| && |CompConstants[i].0| == 2 ==> CompConstants[i].0 == "-1";
    assert forall i :: 0 <= i < |CompUnary| ==> CompUnary[i].0[1] != '1';
  }

  /** Every value of every block is six bits wide. */
  lemma BlocksWidth()
    ensures ValuesWidth(CompEntries, 6)
  {
    assert ValuesWidth(CompConstants, 6);
    assert ValuesWidth(CompUnary, 6);
    assert ValuesWidth(CompIncrements, 6);
    assert ValuesWidth(CompBinary, 6);
    ValuesWidthAppend(CompConstants, CompUnary, 6);
    ValuesWidthAppend(CompConstants + CompUnary, CompIncrements, 6);
    ValuesWidthAppend(CompConstants + CompUnary + CompIncrements, CompBinary, 6);
  }

  lemma ValuesWidthAppend(a: Entries, b: Entries, width: nat)
    requires ValuesWidth(a, width) && ValuesWidth(b, width)
    ensures ValuesWidth(a + b, width)
  {
    forall i | 0 <= i < |a + b| ensures IsBits((a + b)[i].1, width) {
      if i >= |a| {
        assert (a + b)[i] == b[i - |a|];
      }
    }
  }

  /** Entry i naming `A` is immediately followed by its `M` twin, and entry i naming `M`
      immediately follows its `A` twin, with the same bits. */
  predicate TwinStep(entries: Entries, i: int)
    requires 0 <= i < |entries|
  {
    && ('A' in entries[i].0 ==>
      i + 1 < |entries| && entries[i + 1].0 == Replace(entries[i].0, 'A', 'M') && entries[i + 1].1 == entries[i].1)
    && ('M' in entries[i].0 ==>
      0 < i && entries[i - 1].0 == Replace(entries[i].0, 'M', 'A') && entries[i - 1].1 == entries[i].1)
  }

  predicate Twinned(entries: Entries) {
    forall i :: 0 <= i < |entries| ==> TwinStep(entries, i)
  }

  lemma TwinnedAppend(a: Entries, b: Entries)
    requires Twinned(a) && Twinned(b)
    ensures Twinned(a + b)
  {
    var ab := a + b;
    forall i | 0 <= i < |ab| ensures TwinStep(ab, i) {
      if i < |a| {
        assert TwinStep(a, i);
        assert ab[i] == a[i];
        if i + 1 < |a| { assert ab[i + 1] == a[i + 1]; }
        if 0 < i { assert ab[i - 1] == a[i - 1]; }
      } else {
        assert TwinStep(b, i - |a|);
        assert ab[i] == b[i - |a|];
        if i + 1 < |ab| { assert ab[i + 1] == b[i + 1 - |a|]; }
        if |a| < i { assert ab[i - 1] == b[i - 1 - |a|]; }
      }
    }
  }

  /** `Replace` on a literal: the result is `t` when the two agree everywhere except that `t`
      has `to` where `k` has `from`. */
  lemma ReplaceGives(k: string, from: char, to: char, t: string)
    requires |k| == |t|
    requires forall i :: 0 <= i < |k| ==> t[i] == (if k[i] == from then to else k[i])
    ensures Replace(k, from, to) == t
  {
  }

  /** Entries i and i + 1 are the twins `a` and `m`. */
  lemma Twins(entries: Entries, i: int, a: string, m: string)
    requires 0 <= i && i + 1 < |entries|
    requires entries[i].0 == a && entries[i + 1].0 == m && entries[i].1 == entries[i + 1].1
    requires |a| == |m| && 'A' in a && 'M' !in a && 'M' in m && 'A' !in m
    requires forall j :: 0 <= j < |a| ==> m[j] == (if a[j] == 'A' then 'M' else a[j])
    requires forall j :: 0 <= j < |a| ==> a[j] == (if m[j] == 'M' then 'A' else m[j])
    ensures TwinStep(entries, i) && TwinStep(entries, i + 1)
  {
    ReplaceGives(a, 'A', 'M', m);
    ReplaceGives(m, 'M', 'A', a);
  }

  lemma ConstantsTwinned()
    ensures Twinned(CompConstants)
  {
    Twins(CompConstants, 4, "A", "M");
    forall i | 0 <= i < |CompConstants| ensures TwinStep(CompConstants, i) {
      assert i == 0 || i == 1 || i == 2 || i == 3 || i == 4 || i == 5;
    }
  }

  lemma UnaryTwinned()
    ensures Twinned(CompUnary)
  {
    Twins(CompUnary, 1, "!A", "!M");
    Twins(CompUnary, 4, "-A", "-M");
    forall i | 0 <= i < |CompUnary| ensures TwinStep(CompUnary, i) {
      assert i == 0 || i == 1 || i == 2 || i == 3 || i == 4 || i == 5;
    }
  }

  lemma IncrementsTwinned()
    ensures Twinned(CompIncrements)
  {
    Twins(CompIncrements, 1, "A+1", "M+1");
    Twins(CompIncrements, 4, "A-1", "M-1");
    forall i | 0 <= i < |CompIncrements| ensures TwinStep(CompIncrements, i) {
      assert i == 0 || i == 1 || i == 2 || i == 3 || i == 4 || i == 5;
    }
  }

  lemma BinaryTwinned()
    ensures Twinned(CompBinary)
  {
    BinaryPairs();
    forall i | 0 <= i < |CompBinary| ensures TwinStep(CompBinary, i) {
      assert i == 0 || i == 1 || i == 2 || i == 3 || i == 4 || i == 5 || i == 6 || i == 7 || i == 8 || i == 9;
    }
  }

  lemma BinaryPairs()
    ensures TwinStep(CompBinary, 0) && TwinStep(CompBinary, 1) && TwinStep(CompBinary, 2) && TwinStep(CompBinary, 3)
    ensures TwinStep(CompBinary, 4) && TwinStep(CompBinary, 5) && TwinStep(CompBinary, 6) && TwinStep(CompBinary, 7)
    ensures TwinStep(CompBinary, 8) && TwinStep(CompBinary, 9)
  {
    Twins(CompBinary, 0, "D+A", "D+M");
    Twins(CompBinary, 2, "D-A", "D-M");
    Twins(CompBinary, 4, "A-D", "M-D");
    Twins(CompBinary, 6, "D&A", "D&M");
    Twins(CompBinary, 8, "D|A", "D|M");
  }

  /** In the source listing every `A` entry is immediately followed by its `M` twin and every
      `M` entry immediately follows its `A` twin. */
  lemma CompEntriesTwinned()
    ensures Twinned(CompEntries)
  {
    ConstantsTwinned();
    UnaryTwinned();
    IncrementsTwinned();
    BinaryTwinned();
    TwinnedAppend(CompConstants, CompUnary);
    TwinnedAppend(CompConstants + CompUnary, CompIncrements);
    TwinnedAppend(CompConstants + CompUnary + CompIncrements, CompBinary);
  }

  // ---------------------------------------------------------------------------
  // Decoding the computation field

  /** The mnemonic not naming `M` whose function bits these are: one of the eighteen distinct
      codes, or absence. */
  function RegisterComp(bits: string): (r: Option<string>)
    ensures r.Present? ==> 'M' !in r.value
  {
    match bits
    case "101010" => Present("0")
    case "111111" => Present("1")
    case "111010" => Present("-1")
    case "001100" => Present("D")
    case "110000" => Present("A")
    case "001101" => Present("!D")
    case "110001" => Present("!A")
    case "001111" => Present("-D")
    case "110011" => Present("-A")
    case "011111" => Present("D+1")
    case "110111" => Present("A+1")
    case "001110" => Present("D-1")
    case "110010" => Present("A-1")
    case "000010" => Present("D+A")
    case "010011" => Present("D-A")
    case "000111" => Present("A-D")
    case "000000" => Present("D&A")
    case "010101" => Present("D|A")
    case _ => Absent
  }

  /** The computation mnemonic that the six function bits and the selector bit denote: the
      register form, with `A` read as `M` when the selector names memory. A computation that
      does not involve `A` has no memory form. */
  function CompOfCode(bits: string, memory: bool): (r: Option<string>)
    ensures r.Present? ==> ('M' in r.value <==> memory)
  {
    match RegisterComp(bits)
    case Absent => Absent
    case Present(k) =>
      if !memory then Present(k)
      else if 'A' in k then
        var m := Replace(k, 'A', 'M');
        assert m[IndexOf(k, 'A')] == 'M';
        Present(m)
      else Absent
  }

  /** Decoding the bits of entry i with the selector set when its mnemonic names `M` gives back
      the mnemonic. */
  predicate Decodes(entries: Entries, i: int)
    requires 0 <= i < |entries|
  {
    CompOfCode(entries[i].1, 'M' in entries[i].0) == Present(entries[i].0)
  }

  predicate AllDecode(entries: Entries) {
    forall i :: 0 <= i < |entries| ==> Decodes(entries, i)
  }

  lemma AllDecodeAppend(a: Entries, b: Entries)
    requires AllDecode(a) && AllDecode(b)
    ensures AllDecode(a + b)
  {
    var ab := a + b;
    forall i | 0 <= i < |ab| ensures Decodes(ab, i) {
      if i < |a| {
        assert ab[i] == a[i] && Decodes(a, i);
      } else {
        assert ab[i] == b[i - |a|] && Decodes(b, i - |a|);
      }
    }
  }

  lemma ConstantsDecode()
    ensures AllDecode(CompConstants)
  {
    ReplaceGives("A", 'A', 'M', "M");
    forall i | 0 <= i < |CompConstants| ensures Decodes(CompConstants, i) {
      assert i == 0 || i == 1 || i == 2 || i == 3 || i == 4 || i == 5;
    }
  }

  lemma UnaryDecode()
    ensures AllDecode(CompUnary)
  {
    ReplaceGives("!A", 'A', 'M', "!M");
    ReplaceGives("-A", 'A', 'M', "-M");
    forall i | 0 <= i < |CompUnary| ensures Decodes(CompUnary, i) {
      assert i == 0 || i == 1 || i == 2 || i == 3 || i == 4 || i == 5;
    }
  }

  lemma IncrementsDecode()
    ensures AllDecode(CompIncrements)
  {
    ReplaceGives("A+1", 'A', 'M', "M+1");
    ReplaceGives("A-1", 'A', 'M', "M-1");
    forall i | 0 <= i < |CompIncrements| ensures Decodes(CompIncrements, i) {
      assert i == 0 || i == 1 || i == 2 || i == 3 || i == 4 || i == 5;
    }
  }

  lemma BinaryDecode()
    ensures AllDecode(CompBinary)
  {
    ReplaceGives("D+A", 'A', 'M', "D+M");
    ReplaceGives("D-A", 'A', 'M', "D-M");
    ReplaceGives("A-D", 'A', 'M', "M-D");
    ReplaceGives("D&A", 'A', 'M', "D&M");
    ReplaceGives("D|A", 'A', 'M', "D|M");
    forall i | 0 <= i < |CompBinary| ensures Decodes(CompBinary, i) {
      assert i == 0 || i == 1 || i == 2 || i == 3 || i == 4 || i == 5 || i == 6 || i == 7 || i == 8 || i == 9;
    }
  }

  // ---------------------------------------------------------------------------
  // Computation table: facts about the map

  /** The computation table has 28 keys, each mapped to six function bits. */
  lemma CompTableShape()
    ensures |CompTable()| == 28
    ensures forall k :: k in CompTable() ==> IsBits(CompTable()[k], 6)
  {
    CompKeysDistinct();
    OfEntriesSize(CompEntries);
    BlocksWidth();
    ValuesWidthOfMap(CompEntries, 6);
  }

  /** Every `A` mnemonic has an `M` twin with identical function bits (A+1 and M+1 both
      give 110111), and every `M` mnemonic has an `A` twin. */
  lemma CompSymmetricInAM()
    ensures forall k :: k in CompTable() && 'A' in k ==>
      Replace(k, 'A', 'M') in CompTable() && CompTable()[Replace(k, 'A', 'M')] == CompTable()[k]
    ensures forall k :: k in CompTable() && 'M' in k ==>
      Replace(k, 'M', 'A') in CompTable() && CompTable()[Replace(k, 'M', 'A')] == CompTable()[k]
  {
    CompKeysDistinct();
    CompEntriesTwinned();
    var m := CompTable();
    forall k | k in m && 'A' in k
      ensures Replace(k, 'A', 'M') in m && m[Replace(k, 'A', 'M')] == m[k]
    {
      var i :| 0 <= i < |CompEntries| && CompEntries[i].0 == k;
      assert TwinStep(CompEntries, i);
    }
    forall k | k in m && 'M' in k
      ensures Replace(k, 'M', 'A') in m && m[Replace(k, 'M', 'A')] == m[k]
    {
      var i :| 0 <= i < |CompEntries| && CompEntries[i].0 == k;
      assert TwinStep(CompEntries, i);
    }
  }

  /** The function bits and a selector bit telling whether the mnemonic names `M` decode back
      to the mnemonic, for every entry of the table. */
  lemma CompRoundTrip()
    ensures forall k :: k in CompTable() ==> CompOfCode(CompTable()[k], 'M' in k) == Present(k)
  {
    CompKeysDistinct();
    ConstantsDecode();
    UnaryDecode();
    IncrementsDecode();
    BinaryDecode();
    AllDecodeAppend(CompConstants, CompUnary);
    AllDecodeAppend(CompConstants + CompUnary, CompIncrements);
    AllDecodeAppend(CompConstants + CompUnary + CompIncrements, CompBinary);
    forall k | k in CompTable() ensures CompOfCode(CompTable()[k], 'M' in k) == Present(k) {
      var i :| 0 <= i < |CompEntries| && CompEntries[i].0 == k;
      assert Decodes(CompEntries, i);
    }
  }

  /** Restricted to the mnemonics that do not name `M`, the computation table is injective: no
      two of them share their function bits. */
  lemma CompInjectiveWithoutM()
    ensures forall k1, k2 :: k1 in CompTable() && k2 in CompTable() && 'M' !in k1 && 'M' !in k2 && k1 != k2 ==>
      CompTable()[k1] != CompTable()[k2]
  {
    CompRoundTrip();
  }

  /** The function bits together with the selector bit identify the mnemonic: two distinct
      mnemonics differ in whether they name `M` or in their function bits. */
  lemma CompDecodable()
    ensures forall k1, k2 :: k1 in CompTable() && k2 in CompTable() && k1 != k2 ==>
      ('M' in k1) != ('M' in k2) || CompTable()[k1] != CompTable()[k2]
  {
    CompRoundTrip();
  }

  /** There is no default computation: the empty mnemonic and an unlisted one such as D+D are
      absent, while a listed one such as D+1 is present. */
  lemma CompHasNoDefault()
    ensures Comp("") == Absent && Comp("D+D") == Absent
    ensures Comp("D+1") == Present("011111")
  {
    EmptyIsNotComp();
    SumOfDIsNotComp();
    CompPresent(12);
  }

  lemma EmptyIsNotComp()
    ensures Comp("") == Absent
  {
    CompAbsent("");
  }

  lemma SumOfDIsNotComp()
    ensures Comp("D+D") == Absent
  {
    CompAbsent("D+D");
  }

  /** A key that no block lists is not a computation mnemonic. */
  lemma CompAbsent(key: string)
    requires !HasKey(CompConstants, key) && !HasKey(CompUnary, key)
    requires !HasKey(CompIncrements, key) && !HasKey(CompBinary, key)
    ensures Comp(key) == Absent
  {
    HasKeyAppend(CompConstants, CompUnary, key);
    HasKeyAppend(CompConstants + CompUnary, CompIncrements, key);
    HasKeyAppend(CompConstants + CompUnary + CompIncrements, CompBinary, key);
    assert !HasKey(CompEntries, key);
  }

  /** The mnemonic of entry i is bound to its listed bits. */
  lemma CompPresent(i: nat)
    requires i < |CompEntries|
    ensures Comp(CompEntries[i].0) == Present(CompEntries[i].1)
  {
  }

  /** Some entry of the list has the key. */
  predicate HasKey(entries: Entries, key: string) {
    exists i :: 0 <= i < |entries| && entries[i].0 == key
  }

  lemma HasKeyAppend(a: Entries, b: Entries, key: string)
    ensures HasKey(a + b, key) <==> HasKey(a, key) || HasKey(b, key)
  {
    if HasKey(a + b, key) {
      var i :| 0 <= i < |a + b| && (a + b)[i].0 == key;
      if i < |a| {
        assert a[i] == (a + b)[i];
      } else {
        assert b[i - |a|] == (a + b)[i];
      }
    }
    if HasKey(a, key) {
      var i :| 0 <= i < |a| && a[i].0 == key;
      assert (a + b)[i] == a[i];
    }
    if HasKey(b, key) {
      var i :| 0 <= i < |b| && b[i].0 == key;
      assert (a + b)[|a| + i] == b[i];
    }
  }
}
