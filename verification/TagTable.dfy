// The 256-entry tag table of the decompressor, with the meaning every entry
// must have according to sections 2.1 and 2.2 of the Snappy compressed format
// description.

module TagTable {
  import opened Machine

  // char_table: bits 0..7 hold a length, bits 8..10 the high bits of a copy
  // offset, bits 11..13 the number of bytes that follow the tag.
  function CharTable(c: byte): uint16
  {
    if c < 128 then
      if c < 64 then (if c < 32 then Chars0(c) else Chars1(c - 32))
      else (if c < 96 then Chars2(c - 64) else Chars3(c - 96))
    else
      if c < 192 then (if c < 160 then Chars4(c - 128) else Chars5(c - 160))
      else (if c < 224 then Chars6(c - 192) else Chars7(c - 224))
  }

  function Chars0(i: nat): uint16
    requires i < 32
  {
    match i
    case 0 => 0x0001 case 1 => 0x0804 case 2 => 0x1001 case 3 => 0x2001
    case 4 => 0x0002 case 5 => 0x0805 case 6 => 0x1002 case 7 => 0x2002
    case 8 => 0x0003 case 9 => 0x0806 case 10 => 0x1003 case 11 => 0x2003
    case 12 => 0x0004 case 13 => 0x0807 case 14 => 0x1004 case 15 => 0x2004
    case 16 => 0x0005 case 17 => 0x0808 case 18 => 0x1005 case 19 => 0x2005
    case 20 => 0x0006 case 21 => 0x0809 case 22 => 0x1006 case 23 => 0x2006
    case 24 => 0x0007 case 25 => 0x080a case 26 => 0x1007 case 27 => 0x2007
    case 28 => 0x0008 case 29 => 0x080b case 30 => 0x1008 case _ => 0x2008
  }

  function Chars1(i: nat): uint16
    requires i < 32
  {
    match i
    case 0 => 0x0009 case 1 => 0x0904 case 2 => 0x1009 case 3 => 0x2009
    case 4 => 0x000a case 5 => 0x0905 case 6 => 0x100a case 7 => 0x200a
    case 8 => 0x000b case 9 => 0x0906 case 10 => 0x100b case 11 => 0x200b
    case 12 => 0x000c case 13 => 0x0907 case 14 => 0x100c case 15 => 0x200c
    case 16 => 0x000d case 17 => 0x0908 case 18 => 0x100d case 19 => 0x200d
    case 20 => 0x000e case 21 => 0x0909 case 22 => 0x100e case 23 => 0x200e
    case 24 => 0x000f case 25 => 0x090a case 26 => 0x100f case 27 => 0x200f
    case 28 => 0x0010 case 29 => 0x090b case 30 => 0x1010 case _ => 0x2010
  }

  function Chars2(i: nat): uint16
    requires i < 32
  {
    match i
    case 0 => 0x0011 case 1 => 0x0a04 case 2 => 0x1011 case 3 => 0x2011
    case 4 => 0x0012 case 5 => 0x0a05 case 6 => 0x1012 case 7 => 0x2012
    case 8 => 0x0013 case 9 => 0x0a06 case 10 => 0x1013 case 11 => 0x2013
    case 12 => 0x0014 case 13 => 0x0a07 case 14 => 0x1014 case 15 => 0x2014
    case 16 => 0x0015 case 17 => 0x0a08 case 18 => 0x1015 case 19 => 0x2015
    case 20 => 0x0016 case 21 => 0x0a09 case 22 => 0x1016 case 23 => 0x2016
    case 24 => 0x0017 case 25 => 0x0a0a case 26 => 0x1017 case 27 => 0x2017
    case 28 => 0x0018 case 29 => 0x0a0b case 30 => 0x1018 case _ => 0x2018
  }

  function Chars3(i: nat): uint16
    requires i < 32
  {
    match i
    case 0 => 0x0019 case 1 => 0x0b04 case 2 => 0x1019 case 3 => 0x2019
    case 4 => 0x001a case 5 => 0x0b05 case 6 => 0x101a case 7 => 0x201a
    case 8 => 0x001b case 9 => 0x0b06 case 10 => 0x101b case 11 => 0x201b
    case 12 => 0x001c case 13 => 0x0b07 case 14 => 0x101c case 15 => 0x201c
    case 16 => 0x001d case 17 => 0x0b08 case 18 => 0x101d case 19 => 0x201d
    case 20 => 0x001e case 21 => 0x0b09 case 22 => 0x101e case 23 => 0x201e
    case 24 => 0x001f case 25 => 0x0b0a case 26 => 0x101f case 27 => 0x201f
    case 28 => 0x0020 case 29 => 0x0b0b case 30 => 0x1020 case _ => 0x2020
  }

  function Chars4(i: nat): uint16
    requires i < 32
  {
    match i
    case 0 => 0x0021 case 1 => 0x0c04 case 2 => 0x1021 case 3 => 0x2021
    case 4 => 0x0022 case 5 => 0x0c05 case 6 => 0x1022 case 7 => 0x2022
    case 8 => 0x0023 case 9 => 0x0c06 case 10 => 0x1023 case 11 => 0x2023
    case 12 => 0x0024 case 13 => 0x0c07 case 14 => 0x1024 case 15 => 0x2024
    case 16 => 0x0025 case 17 => 0x0c08 case 18 => 0x1025 case 19 => 0x2025
    case 20 => 0x0026 case 21 => 0x0c09 case 22 => 0x1026 case 23 => 0x2026
    case 24 => 0x0027 case 25 => 0x0c0a case 26 => 0x1027 case 27 => 0x2027
    case 28 => 0x0028 case 29 => 0x0c0b case 30 => 0x1028 case _ => 0x2028
  }

  function Chars5(i: nat): uint16
    requires i < 32
  {
    match i
    case 0 => 0x0029 case 1 => 0x0d04 case 2 => 0x1029 case 3 => 0x2029
    case 4 => 0x002a case 5 => 0x0d05 case 6 => 0x102a case 7 => 0x202a
    case 8 => 0x002b case 9 => 0x0d06 case 10 => 0x102b case 11 => 0x202b
    case 12 => 0x002c case 13 => 0x0d07 case 14 => 0x102c case 15 => 0x202c
    case 16 => 0x002d case 17 => 0x0d08 case 18 => 0x102d case 19 => 0x202d
    case 20 => 0x002e case 21 => 0x0d09 case 22 => 0x102e case 23 => 0x202e
    case 24 => 0x002f case 25 => 0x0d0a case 26 => 0x102f case 27 => 0x202f
    case 28 => 0x0030 case 29 => 0x0d0b case 30 => 0x1030 case _ => 0x2030
  }

  function Chars6(i: nat): uint16
    requires i < 32
  {
    match i
    case 0 => 0x0031 case 1 => 0x0e04 case 2 => 0x1031 case 3 => 0x2031
    case 4 => 0x0032 case 5 => 0x0e05 case 6 => 0x1032 case 7 => 0x2032
    case 8 => 0x0033 case 9 => 0x0e06 case 10 => 0x1033 case 11 => 0x2033
    case 12 => 0x0034 case 13 => 0x0e07 case 14 => 0x1034 case 15 => 0x2034
    case 16 => 0x0035 case 17 => 0x0e08 case 18 => 0x1035 case 19 => 0x2035
    case 20 => 0x0036 case 21 => 0x0e09 case 22 => 0x1036 case 23 => 0x2036
    case 24 => 0x0037 case 25 => 0x0e0a case 26 => 0x1037 case 27 => 0x2037
    case 28 => 0x0038 case 29 => 0x0e0b case 30 => 0x1038 case _ => 0x2038
  }

  function Chars7(i: nat): uint16
    requires i < 32
  {
    match i
    case 0 => 0x0039 case 1 => 0x0f04 case 2 => 0x1039 case 3 => 0x2039
    case 4 => 0x003a case 5 => 0x0f05 case 6 => 0x103a case 7 => 0x203a
    case 8 => 0x003b case 9 => 0x0f06 case 10 => 0x103b case 11 => 0x203b
    case 12 => 0x003c case 13 => 0x0f07 case 14 => 0x103c case 15 => 0x203c
    case 16 => 0x0801 case 17 => 0x0f08 case 18 => 0x103d case 19 => 0x203d
    case 20 => 0x1001 case 21 => 0x0f09 case 22 => 0x103e case 23 => 0x203e
    case 24 => 0x1801 case 25 => 0x0f0a case 26 => 0x103f case 27 => 0x203f
    case 28 => 0x2001 case 29 => 0x0f0b case 30 => 0x1040 case _ => 0x2040
  }

  // MakeEntry: the three fields packed into one word.
  function MakeEntry(extra: nat, len: nat, copyOffset: nat): nat {
    len + 0x100 * copyOffset + 0x800 * extra
  }

  // A tag byte in the format: how many bytes follow it (the length of a long
  // literal or the offset of a copy), the length it holds itself, and the
  // high bits of the offset it holds (sections 2.1 and 2.2.1 to 2.2.3).
  function ExtraOf(c: byte): nat {
    if c % 4 == 0 then if c / 4 < 60 then 0 else c / 4 - 59
    else if c % 4 == 1 then 1 else if c % 4 == 2 then 2 else 4
  }

  function LengthOf(c: byte): nat {
    if c % 4 == 1 then 4 + c / 4 % 8 else c / 4 + 1
  }

  function HighBits(c: byte): nat {
    if c % 4 == 1 then c / 32 else 0
  }

  function HighOffset(c: byte): nat {
    HighBits(c) * 0x100
  }

  // The entry the format prescribes for a tag byte.  A literal whose length
  // follows the tag is entered with length 1.
  function FormatEntry(c: byte): nat {
    MakeEntry(ExtraOf(c), if c % 4 == 0 && ExtraOf(c) > 0 then 1 else LengthOf(c), HighBits(c))
  }

  lemma TableRows0(i: nat)
    requires i < 32
    ensures Chars0(i) == FormatEntry(0 + i)
  {}

  lemma TableRows1(i: nat)
    requires i < 32
    ensures Chars1(i) == FormatEntry(32 + i)
  {}

  lemma TableRows2(i: nat)
    requires i < 32
    ensures Chars2(i) == FormatEntry(64 + i)
  {}

  lemma TableRows3(i: nat)
    requires i < 32
    ensures Chars3(i) == FormatEntry(96 + i)
  {}

  lemma TableRows4(i: nat)
    requires i < 32
    ensures Chars4(i) == FormatEntry(128 + i)
  {}

  lemma TableRows5(i: nat)
    requires i < 32
    ensures Chars5(i) == FormatEntry(160 + i)
  {}

  lemma TableRows6(i: nat)
    requires i < 32
    ensures Chars6(i) == FormatEntry(192 + i)
  {}

  lemma TableRows7(i: nat)
    requires i < 32
    ensures Chars7(i) == FormatEntry(224 + i)
  {}

  // Every entry of the table is the one the format prescribes.
  lemma TableMatchesFormat(c: byte)
    ensures CharTable(c) == FormatEntry(c)
  {
    hide Chars0, Chars1, Chars2, Chars3, Chars4, Chars5, Chars6, Chars7;
    if c < 128 {
      if c < 64 {
        if c < 32 { TableRows0(c); } else { TableRows1(c - 32); }
      } else {
        if c < 96 { TableRows2(c - 64); } else { TableRows3(c - 96); }
      }
    } else {
      if c < 192 {
        if c < 160 { TableRows4(c - 128); } else { TableRows5(c - 160); }
      } else {
        if c < 224 { TableRows6(c - 192); } else { TableRows7(c - 224); }
      }
    }
  }

  // The table entry by entry, as ComputeTable fills it in: literals with the
  // length in the tag, literals with length bytes, copies with a 1-, a 2- and
  // a 4-byte offset.  Every tag byte is one of them.
  lemma TableEntries(len: nat, high: nat, extra: nat)
    ensures 1 <= len <= 60 ==> CharTable(4 * (len - 1)) == len
    ensures 1 <= extra <= 4 ==> CharTable(4 * (extra + 59)) == 1 + 0x800 * extra
    ensures 4 <= len < 12 && high < 8 ==> CharTable(1 + 4 * (len - 4) + 32 * high) == len + 0x100 * high + 0x800 * 1
    ensures 1 <= len <= 64 ==> CharTable(2 + 4 * (len - 1)) == len + 0x800 * 2
    ensures 1 <= len <= 64 ==> CharTable(3 + 4 * (len - 1)) == len + 0x800 * 4
  {
    hide CharTable;
    if 1 <= len <= 60 { ShortLiteralEntry(len); }
    if 1 <= extra <= 4 { TableMatchesFormat(4 * (extra + 59)); }
    if 4 <= len < 12 && high < 8 { NearCopyEntry(len, high); }
    if 1 <= len <= 64 { FarCopyEntries(len); }
  }

  lemma ShortLiteralEntry(len: nat)
    requires 1 <= len <= 60
    ensures CharTable(4 * (len - 1)) == len
  {
    hide CharTable;
    TableMatchesFormat(4 * (len - 1));
  }

  lemma FarCopyEntries(len: nat)
    requires 1 <= len <= 64
    ensures CharTable(2 + 4 * (len - 1)) == len + 0x800 * 2
    ensures CharTable(3 + 4 * (len - 1)) == len + 0x800 * 4
  {
    hide CharTable;
    TableMatchesFormat(2 + 4 * (len - 1));
    TableMatchesFormat(3 + 4 * (len - 1));
  }

  lemma NearCopyEntry(len: nat, high: nat)
    requires 4 <= len < 12 && high < 8
    ensures CharTable(1 + 4 * (len - 4) + 32 * high) == len + 0x100 * high + 0x800
  {
    hide CharTable;
    var c := 1 + 4 * (len - 4) + 32 * high;
    TableMatchesFormat(c);
    assert c % 4 == 1 && c / 4 % 8 == len - 4 && c / 32 == high;
  }

  // The three fields as the decompressor extracts them.
  function ExtraBytes(c: byte): nat { CharTable(c) / 0x800 }
  function EntryLength(c: byte): nat { CharTable(c) % 0x100 }
  function EntryOffset(c: byte): nat { CharTable(c) / 0x100 % 8 * 0x100 }

  // What the decompressor reads out of its table is what the format says.
  lemma TableFields(c: byte)
    ensures ExtraBytes(c) == ExtraOf(c) <= 4
    ensures c % 4 != 0 ==> EntryLength(c) == LengthOf(c) && EntryOffset(c) == HighOffset(c)
  {
    hide CharTable;
    TableMatchesFormat(c);
    UnpackEntry(ExtraOf(c), if c % 4 == 0 && ExtraOf(c) > 0 then 1 else LengthOf(c), HighBits(c));
  }

  lemma UnpackEntry(extra: nat, len: nat, copyOffset: nat)
    requires len < 0x100 && copyOffset < 8
    ensures MakeEntry(extra, len, copyOffset) / 0x800 == extra
    ensures MakeEntry(extra, len, copyOffset) % 0x100 == len
    ensures MakeEntry(extra, len, copyOffset) / 0x100 % 8 == copyOffset
  {
    var entry, high := MakeEntry(extra, len, copyOffset), copyOffset + 8 * extra;
    ModUnique(entry, 0x100, high, len);
    ModUnique(high, 8, extra, copyOffset);
    ModUnique(entry, 0x800, extra, len + 0x100 * copyOffset);
  }
}
