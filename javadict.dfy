/*
 * java/codec/Dict.java: the dictionary object of the Java codec. Its
 * entry array, indirection table, next free codeword and codeword width
 * are fields that build_entry and reset_dictionary update in place; every
 * method is proved against the dictionary value of LzTable.
 *
 * Each DictEntry object becomes an Entry value in an array slot: the
 * source never shares an entry object between slots, so writing the slot
 * is writing the object's fields. A fresh DictEntry is taken to hold
 * pointer 0 and byte 0 (DictEntry itself is not part of this model).
 */
module JavaDict {
  import opened BitString
  import opened LzConsts
  import opened LzTable

  class Dict {
    var indirection: array2<int>
    var nextAvailable: int
    var codewordLen: int
    var compressMode: bool
    var dictionary: array<Entry>

    /** The indirection table as the map the specification uses. */
    ghost var index: map<(int, int), int>

    /** The dictionary as a value. */
    ghost function AsTable(): Table
      reads this, dictionary
    {
      Table(dictionary[..], index, nextAvailable, codewordLen)
    }

    ghost function AsMode(): Mode
      reads this
    {
      if compressMode then Compressing else Decompressing
    }

    /** The arrays have their declared sizes and the indirection table is the map. */
    ghost predicate Valid()
      reads this, dictionary, indirection
    {
      dictionary.Length == DictFull && indirection.Length0 == DictFull && indirection.Length1 == 256 &&
      Sized(AsTable()) &&
      forall p: int, b: Byte :: 0 <= p < DictFull ==> indirection[p, b] == IndexOf(index, p, b)
    }

    /** Dict(): a dictionary for compression. */
    constructor ()
      ensures Valid() && compressMode
      ensures AsTable() == Table(seq(DictFull, _ => Entry(0, 0)), map[], FirstCw, MinCwLen)
    {
      indirection := new int[DictFull, 256]((_, _) => 0);
      nextAvailable := FirstCw;
      codewordLen := MinCwLen;
      compressMode := true;
      dictionary := new Entry[DictFull](_ => Entry(0, 0));
      index := map[];
    }

    /** Dict(mode): a dictionary for compression or decompression. */
    constructor WithMode(mode: bool)
      ensures Valid() && compressMode == mode
      ensures AsTable() == Table(seq(DictFull, _ => Entry(0, 0)), map[], FirstCw, MinCwLen)
    {
      indirection := new int[DictFull, 256]((_, _) => 0);
      nextAvailable := FirstCw;
      codewordLen := MinCwLen;
      compressMode := mode;
      dictionary := new Entry[DictFull](_ => Entry(0, 0));
      index := map[];
    }

    /**
     * reset_dictionary: only the next free codeword goes back to the first;
     * the width is returned for the caller to store, and entries and
     * indirection table stay as they are.
     */
    method ResetDictionary() returns (len: int)
      requires Valid()
      modifies this
      ensures Valid() && len == MinCwLen
      ensures AsTable() == old(AsTable()).(next := FirstCw)
      ensures AsTable().(len := len) == ResetTable(old(AsTable()).entries, old(AsTable()).index)
      ensures compressMode == old(compressMode)
      ensures dictionary == old(dictionary) && indirection == old(indirection)
    {
      nextAvailable := FirstCw;
      len := MinCwLen;
    }

    /**
     * entry_match: the address the indirection table proposes for
     * (pointer, b), if it is live and holds exactly that pair.
     */
    method EntryMatch(pointer: int, b: Byte) returns (addr: int)
      requires Valid() && 0 <= pointer < DictFull
      ensures addr == Match(AsTable(), pointer, b)
    {
      addr := indirection[pointer, b];
      if !(addr >= FirstCw && addr < nextAvailable &&
           DictionaryEntryByte(addr) == b && DictionaryEntryPointer(addr) == pointer) {
        addr := NoMatch;
      }
    }

    /**
     * build_entry: reset when full, write (codeword, b) at the next free
     * address, point the indirection table at it when compressing, apply
     * the width rule and advance. The new dictionary is the specification's
     * build under the reset-then-write policy.
     */
    method BuildEntry(codeword: int, b: Byte) returns (len: int)
      requires Valid() && 0 <= codeword
      requires compressMode ==> codeword < DictFull
      modifies this, dictionary, indirection
      ensures Valid() && len == codewordLen
      ensures AsTable() == Build(old(AsTable()), AsMode(), ResetThenWrite, codeword, b)
      ensures compressMode == old(compressMode)
      ensures dictionary == old(dictionary) && indirection == old(indirection)
    {
      ghost var t0 := AsTable();
      if DictionaryFull() {
        codewordLen := ResetDictionary();
      }
      ghost var t1 := AsTable();
      assert t1 == (if t0.next == DictFull then ResetTable(t0.entries, t0.index) else t0);
      dictionary[nextAvailable] := Entry(codeword, b);
      if compressMode {
        indirection[codeword, b] := nextAvailable;
        index := index[(codeword, b) := nextAvailable];
      }
      if codewordLen < MaxCwLen {
        if nextAvailable == Shl1(codewordLen) - (if !compressMode then 1 else 0) {
          codewordLen := codewordLen + 1;
        }
      } else if !compressMode && nextAvailable == DictFull - 1 {
        codewordLen := MinCwLen;
      }
      if nextAvailable != DictFull {
        nextAvailable := nextAvailable + 1;
      }
      len := codewordLen;
      assert AsTable() == Write(t1, AsMode(), codeword, b);
    }

    /**
     * codeword_valid: a codeword the decompressor can expand is a root, a
     * live entry, or the next free address (the KwK case).
     */
    predicate CodewordValid(codeword: int)
      reads this, dictionary, indirection
      requires Valid()
      ensures 0 <= codeword ==>
        (CodewordValid(codeword) <==> codeword < FirstCw || FirstCw <= codeword < nextAvailable || codeword == nextAvailable)
    {
      codeword <= nextAvailable
    }

    /** is_next_free_entry: the address the next build writes, unless the dictionary is full. */
    predicate IsNextFreeEntry(address: int)
      reads this, dictionary, indirection
      requires Valid()
      ensures forall pointer: nat, b: Byte :: IsNextFreeEntry(address) && 0 <= address < DictFull ==>
        Build(AsTable(), AsMode(), ResetThenWrite, pointer, b).entries[address] == Entry(pointer, b) &&
        Build(AsTable(), AsMode(), ResetThenWrite, pointer, b).next == address + 1
    {
      address == nextAvailable
    }

    /** dictionary_full: the next build resets the dictionary first. */
    predicate DictionaryFull()
      reads this, dictionary, indirection
      requires Valid()
      ensures forall pointer: nat, b: Byte ::
        DictionaryFull() <==> Build(AsTable(), AsMode(), ResetThenWrite, pointer, b).next <= nextAvailable
    {
      nextAvailable == DictFull
    }

    /** dictionary_entry_byte: the last byte of the string the entry names. */
    function DictionaryEntryByte(address: int): (r: Byte)
      reads this, dictionary
      requires 0 <= address < dictionary.Length
      ensures FirstCw <= address && Descends(dictionary[..], address + 1) ==>
        Str(dictionary[..], address)[|Str(dictionary[..], address)| - 1] == r
    {
      dictionary[address].byteVal
    }

    /** dictionary_entry_pointer: the codeword of the string the entry extends. */
    function DictionaryEntryPointer(address: int): (r: nat)
      reads this, dictionary
      requires 0 <= address < dictionary.Length
      ensures FirstCw <= address && Descends(dictionary[..], address + 1) ==>
        r < address && Str(dictionary[..], address) == Str(dictionary[..], r) + [dictionary[address].byteVal]
    {
      dictionary[address].pointer
    }

    /** root_codeword: exactly the codewords whose string is a single byte. */
    predicate RootCodeword(codeword: int)
      reads this, dictionary
      ensures 0 <= codeword < dictionary.Length && Descends(dictionary[..], codeword + 1) ==>
        (RootCodeword(codeword) <==> |Str(dictionary[..], codeword)| == 1)
    {
      codeword < FirstCw
    }
  }
}
