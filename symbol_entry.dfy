/**
  One record of a symbol table: the index of its name in the string table
  (fixed at construction), the symbol's value and the resolved name, both of
  which the parser may set later.
*/
module Symbols {
  import opened Common

  class SymbolEntry {
    /** Index into the string table; there is no setter. */
    const index: UInt32
    var value: UInt64
    /** The string-table entry the index resolves to. */
    var str: string

    /** An entry with the given index and value; the string is empty unless given. */
    constructor (index: UInt32, value: UInt64, str: string := "")
      ensures this.index == index && this.value == value && this.str == str
    {
      this.index := index;
      this.value := value;
      this.str := str;
    }

    function Index(): UInt32
    {
      index
    }

    method SetValue(v: UInt64)
      modifies this`value
      ensures value == v
    {
      value := v;
    }

    function Value(): UInt64
      reads this
    {
      value
    }

    method SetString(s: string)
      modifies this`str
      ensures str == s
    {
      str := s;
    }

    function String(): string
      reads this
    {
      str
    }

    /** `operator==`: the index, the value and the string all match. */
    predicate Equals(other: SymbolEntry)
      reads this, other
    {
      index == other.index && value == other.value && str == other.str
    }

    /** `operator!=`. */
    predicate NotEquals(other: SymbolEntry)
      reads this, other
    {
      !Equals(other)
    }

    /** `qHash(entry, seed)`, with the seed 0 by default. */
    function Hash(seed: UInt32 := 0): UInt32
      reads this
    {
      HashFields(index, value, str, seed)
    }
  }

  /**
    The hash of an entry's fields. The formula is an arbitrary stand-in, not
    Qt's mixing: all the model relies on is that it is a function of the
    three compared fields and the seed, nothing else.
  */
  function HashFields(index: UInt32, value: UInt64, str: string, seed: UInt32): UInt32
  {
    (seed + index + value + StringHash(str)) % 0x1_0000_0000
  }

  /** An arbitrary stand-in for the hash of a string. */
  function StringHash(s: string): UInt32
  {
    if s == [] then 0 else (StringHash(s[..|s| - 1]) * 31 + s[|s| - 1] as int) % 0x1_0000_0000
  }

  /** `==` is an equivalence relation. */
  lemma EqualsIsEquivalence(a: SymbolEntry, b: SymbolEntry, c: SymbolEntry)
    ensures a.Equals(a)
    ensures a.Equals(b) ==> b.Equals(a)
    ensures a.Equals(b) && b.Equals(c) ==> a.Equals(c)
  {
  }

  /** Entries equal under `==` hash alike for every seed. */
  lemma EqualEntriesHashAlike(a: SymbolEntry, b: SymbolEntry, seed: UInt32)
    requires a.Equals(b)
    ensures a.Hash(seed) == b.Hash(seed)
  {
  }

  /**
    Two entries built from the same fields are equal and hash alike; setting
    a different value on one of them makes them unequal, and setting it back
    makes them equal again.
  */
  method EqualityFollowsFields(index: UInt32, value: UInt64, s: string, other: UInt64, seed: UInt32)
    returns (emptyByDefault: bool, equalBefore: bool, sameHash: bool, differentAfter: bool, equalAgain: bool)
    requires other != value
    ensures emptyByDefault && equalBefore && sameHash && differentAfter && equalAgain
  {
    var a := new SymbolEntry(index, value, s);
    var b := new SymbolEntry(index, value);
    emptyByDefault := b.String() == "";
    b.SetString(s);
    equalBefore := a.Equals(b);
    sameHash := a.Hash(seed) == b.Hash(seed);
    b.SetValue(other);
    differentAfter := a.NotEquals(b);
    b.SetValue(value);
    equalAgain := a.Equals(b) && b.Index() == index;
  }
}
