// The compressor's hash tables: a small one that is always there and a large
// one allocated when first needed.

module HashTables {
  import opened Machine
  import opened MatchFinder

  const kMaxHashTableBits: nat := 14
  const kMaxHashTableSize: nat := 0x4000
  const kSmallTableSize: nat := 0x400

  // log2 of the table size: 256 entries, doubled while the input is longer,
  // up to 16384.
  function TableBitsFrom(bits: nat, inputSize: nat): (b: nat)
    requires bits <= kMaxHashTableBits
    ensures bits <= b <= kMaxHashTableBits
    decreases kMaxHashTableBits - bits
  {
    if bits < kMaxHashTableBits && Pow2(bits) < inputSize then TableBitsFrom(bits + 1, inputSize) else bits
  }

  function TableBits(inputSize: nat): (b: nat)
    ensures 8 <= b <= kMaxHashTableBits
  {
    TableBitsFrom(8, inputSize)
  }

  lemma {:induction false} TableBitsFromFits(bits: nat, inputSize: nat)
    requires bits <= kMaxHashTableBits
    ensures var b := TableBitsFrom(bits, inputSize);
            && bits <= b <= kMaxHashTableBits
            && (b == kMaxHashTableBits || inputSize <= Pow2(b))
            && (b == bits || Pow2(b - 1) < inputSize)
    decreases kMaxHashTableBits - bits
  {
    if bits < kMaxHashTableBits && Pow2(bits) < inputSize {
      TableBitsFromFits(bits + 1, inputSize);
    }
  }

  // The smallest power of two that covers the input, within 256..16384.
  lemma TableBitsFits(inputSize: nat)
    ensures 8 <= TableBits(inputSize) <= kMaxHashTableBits
    ensures 0x100 <= Pow2(TableBits(inputSize)) <= 0x4000
    ensures inputSize <= Pow2(TableBits(inputSize)) || Pow2(TableBits(inputSize)) == 0x4000
    ensures Pow2(TableBits(inputSize)) > 0x100 ==> Pow2(TableBits(inputSize)) < 2 * inputSize
  {
    hide Pow2;
    var b := TableBits(inputSize);
    TableBitsFromFits(8, inputSize);
    TableSizes();
    Pow2Monotone(8, b);
    Pow2Monotone(b, kMaxHashTableBits);
    Pow2Add(1, b - 1);
  }

  lemma TableSizes()
    ensures Pow2(1) == 2 && Pow2(8) == 0x100 && Pow2(10) == kSmallTableSize && Pow2(14) == kMaxHashTableSize
  {
    Pow2Values();
    Pow2Add(8, 2);
    Pow2Add(10, 4);
  }

  class WorkingMemory {
    const smallTable: array<uint16>
    var largeTable: array?<uint16>

    ghost predicate Valid()
      reads this
    {
      && smallTable.Length == kSmallTableSize
      && (largeTable != null ==> largeTable.Length == kMaxHashTableSize && largeTable != smallTable)
    }

    ghost function Tables(): set<object>
      reads this
    {
      {smallTable} + if largeTable == null then {} else {largeTable}
    }

    constructor ()
      ensures Valid() && fresh(Tables())
    {
      smallTable := new uint16[kSmallTableSize];
      largeTable := null;
    }

    // A cleared table for an input of the given size.  Only the entries that
    // will be used are cleared.
    method GetHashTable(inputSize: nat) returns (table: array<uint16>, tableSize: uint32)
      requires Valid()
      modifies this, Tables()
      ensures Valid() && fresh(Tables() - old(Tables())) && table in Tables()
      ensures tableSize == Pow2(TableBits(inputSize)) <= table.Length
      ensures table[..tableSize] == Zeros(tableSize)
      ensures forall i :: 0 <= i < tableSize ==> table[i] == 0
    {
      hide Pow2;
      TableBitsFits(inputSize);
      TableSizes();
      var htsize := 0x100;
      ghost var bits := 8;
      while htsize < kMaxHashTableSize && htsize < inputSize
        invariant 8 <= bits <= kMaxHashTableBits && htsize == Pow2(bits)
        invariant TableBitsFrom(bits, inputSize) == TableBits(inputSize)
        decreases kMaxHashTableBits - bits
        modifies {}
      {
        BelowMaximum(bits);
        Pow2Add(1, bits);
        htsize := htsize * 2;
        bits := bits + 1;
      }
      if htsize <= kSmallTableSize {
        table := smallTable;
      } else {
        if largeTable == null {
          largeTable := new uint16[kMaxHashTableSize];
        }
        table := largeTable;
      }
      BelowMaximum(bits);
      tableSize := htsize;
      forall i | 0 <= i < htsize {
        table[i] := 0;
      }
    }
  }

  lemma BelowMaximum(bits: nat)
    requires bits <= kMaxHashTableBits
    ensures Pow2(bits) <= kMaxHashTableSize
    ensures Pow2(bits) < kMaxHashTableSize <==> bits < kMaxHashTableBits
  {
    hide Pow2;
    TableSizes();
    Pow2Monotone(bits, kMaxHashTableBits);
    if bits < kMaxHashTableBits {
      Pow2Monotone(bits + 1, kMaxHashTableBits);
      Pow2Add(1, bits);
    }
  }
}
