/**
 The assembler's symbol table as an abstract finite map from symbol name to
 address: `contains` is key membership, `getAddress` is lookup and
 `addEntry` is insertion. The predefined symbols the table starts with are a
 parameter of the passes, not part of this module.
 */
module SymbolTable {

  type Table = map<string, int>

  /** `table.contains(symbol)`. */
  predicate Contains(table: Table, symbol: string) {
    symbol in table
  }

  /** `table.getAddress(symbol)`. */
  function GetAddress(table: Table, symbol: string): int
    requires Contains(table, symbol)
  {
    table[symbol]
  }

  /** `table.addEntry(symbol, address)`: binds `symbol` to `address`, every other binding unchanged. */
  function AddEntry(table: Table, symbol: string, address: int): (t: Table)
    ensures t.Keys == table.Keys + {symbol}
    ensures GetAddress(t, symbol) == address
    ensures forall s :: s in table && s != symbol ==> t[s] == table[s]
  {
    table[symbol := address]
  }

  /** Insertion overwrites: of two entries for the same symbol the later one holds, so a label
      defined twice keeps its second address. */
  lemma AddEntryLastWins(table: Table, symbol: string, first: int, second: int)
    ensures AddEntry(AddEntry(table, symbol, first), symbol, second) == AddEntry(table, symbol, second)
    ensures GetAddress(AddEntry(AddEntry(table, symbol, first), symbol, second), symbol) == second
  {
  }

  /** Entries for two different symbols can be added in either order. */
  lemma AddEntryCommutes(table: Table, s1: string, a1: int, s2: string, a2: int)
    requires s1 != s2
    ensures AddEntry(AddEntry(table, s1, a1), s2, a2) == AddEntry(AddEntry(table, s2, a2), s1, a1)
  {
  }

  /** Adding a binding the table already has changes nothing. */
  lemma AddEntryExisting(table: Table, symbol: string)
    requires Contains(table, symbol)
    ensures AddEntry(table, symbol, GetAddress(table, symbol)) == table
  {
  }

  /** `small` binds every one of its symbols to the same address in `large`. */
  predicate Extends(large: Table, small: Table) {
    forall s :: s in small ==> s in large && large[s] == small[s]
  }
}
