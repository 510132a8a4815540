/*
 * The LZW dictionary as a value: the entry array, the indirection table that
 * speeds up the compressor's search, the next free address and the current
 * codeword width. The three implementations (java/codec/Dict.java,
 * python/Dictionary.py, the dictionary globals of slzw.c) are proved against
 * these functions.
 */
module LzTable {
  import opened BitString
  import opened LzConsts

  /** A dictionary entry: the codeword of the string it extends, and the byte appended. */
  datatype Entry = Entry(pointer: nat, byteVal: Byte)

  datatype Mode = Compressing | Decompressing

  /**
   * What a build does on a full dictionary. The Java and Python versions
   * reset and then write the new entry at the first free address; the C
   * version only resets.
   */
  datatype ResetPolicy = ResetThenWrite | ResetOnly

  /**
   * `index` holds the indirection table: a missing key reads as 0, the
   * value a fresh Java or C table holds.
   */
  datatype Table = Table(entries: seq<Entry>, index: map<(int, int), int>, next: int, len: int)

  ghost predicate Sized(t: Table)
  {
    |t.entries| == DictFull && FirstCw <= t.next <= DictFull && MinCwLen <= t.len <= MaxCwLen
  }

  /** The dictionary right after reset_dictionary, over whatever entries it held. */
  function ResetTable(entries: seq<Entry>, index: map<(int, int), int>): (t: Table)
    requires |entries| == DictFull
    ensures Sized(t) && t.next == FirstCw && t.len == MinCwLen
  {
    Table(entries, index, FirstCw, MinCwLen)
  }

  /** The indirection table's entry for (pointer, b). */
  function IndexOf(index: map<(int, int), int>, pointer: int, b: Byte): int
  {
    if (pointer, b) in index then index[(pointer, b)] else 0
  }

  function IndexAt(t: Table, pointer: int, b: Byte): int
  {
    IndexOf(t.index, pointer, b)
  }

  /** An address is live when it names an entry built since the last reset. */
  predicate Live(t: Table, a: int)
  {
    FirstCw <= a < t.next
  }

  /**
   * entry_match: the indirection table proposes an address, which is
   * trusted only when it is live and its entry is exactly (pointer, b).
   */
  function Match(t: Table, pointer: nat, b: Byte): (r: int)
    requires Sized(t)
    ensures r == NoMatch || (Live(t, r) && t.entries[r] == Entry(pointer, b))
    ensures r == NoMatch <==> !(Live(t, IndexAt(t, pointer, b)) && t.entries[IndexAt(t, pointer, b)] == Entry(pointer, b))
  {
    var addr := IndexAt(t, pointer, b);
    if FirstCw <= addr < t.next && t.entries[addr].byteVal == b && t.entries[addr].pointer == pointer then addr
    else NoMatch
  }

  /**
   * The width rule applied after building at `addr` with width `len`: grow
   * by one while below the maximum when `addr` reaches 2^len (one earlier
   * when decompressing); a decompressor at the last address drops back to
   * the minimum in anticipation of the reset the next build performs.
   */
  function NextWidth(addr: int, len: int, mode: Mode): (r: int)
    requires MinCwLen <= len <= MaxCwLen
    ensures MinCwLen <= r <= MaxCwLen
    ensures r == len || r == len + 1 || (r == MinCwLen && mode == Decompressing && addr == DictFull - 1)
  {
    if len < MaxCwLen then
      if addr == Pow2(len) - (if mode == Decompressing then 1 else 0) then len + 1 else len
    else if mode == Decompressing && addr == DictFull - 1 then MinCwLen
    else len
  }

  /** Writes (pointer, b) at the next free address and applies the width rule. */
  function Write(t: Table, mode: Mode, pointer: nat, b: Byte): (r: Table)
    requires Sized(t) && t.next < DictFull
    ensures Sized(r) && r.next == t.next + 1
    ensures r.entries == t.entries[t.next := Entry(pointer, b)]
  {
    Table(t.entries[t.next := Entry(pointer, b)],
          if mode == Compressing then t.index[(pointer, b) := t.next] else t.index,
          if t.next != DictFull then t.next + 1 else t.next,
          NextWidth(t.next, t.len, mode))
  }

  /** build_entry: reset first on a full dictionary, then write (unless the policy only resets). */
  function Build(t: Table, mode: Mode, policy: ResetPolicy, pointer: nat, b: Byte): (r: Table)
    requires Sized(t)
    ensures Sized(r)
  {
    if t.next == DictFull then
      var s := ResetTable(t.entries, t.index);
      if policy == ResetOnly then s else Write(s, mode, pointer, b)
    else Write(t, mode, pointer, b)
  }

  /** The next free address after a build from `next`. */
  function NextAfter(next: int): int
  {
    if next == DictFull then FirstCw else next + 1
  }

  /** The width the compressor writes with while `next` is the next free address. */
  function WidthC(next: int): int
  {
    if next <= 512 then 9 else if next <= 1024 then 10 else if next <= 2048 then 11 else 12
  }

  /** The width the decompressor reads with while `next` is its next free address. */
  function WidthD(next: int): int
  {
    if next < 512 then 9 else if next < 1024 then 10 else if next < 2048 then 11
    else if next < DictFull then 12 else 9
  }

  function WidthFor(mode: Mode, next: int): int
  {
    if mode == Compressing then WidthC(next) else WidthD(next)
  }

  /** The dictionary's width agrees with the closed form for its mode. */
  ghost predicate WidthInStep(t: Table, mode: Mode)
  {
    t.len == WidthFor(mode, t.next)
  }

  lemma Pow2Widths()
    ensures Pow2(9) == 512 && Pow2(10) == 1024 && Pow2(11) == 2048 && Pow2(12) == 4096
  {
    assert Pow2(8) == 256 by {
      assert Pow2(4) == 16;
    }
  }

  /** 1 << n for the widths the dictionary holds. */
  function Shl1(n: int): (r: int)
    requires MinCwLen <= n <= MaxCwLen
    ensures r == Pow2(n)
  {
    Pow2Widths();
    if n == 9 then 512 else if n == 10 then 1024 else if n == 11 then 2048 else 4096
  }

  /**
   * Every build keeps the width equal to the closed form for its mode,
   * under either reset policy: the width is a function of the next free
   * address alone.
   */
  lemma BuildKeepsWidth(t: Table, mode: Mode, policy: ResetPolicy, pointer: nat, b: Byte)
    requires Sized(t) && WidthInStep(t, mode)
    ensures WidthInStep(Build(t, mode, policy, pointer, b), mode)
    ensures Build(t, mode, policy, pointer, b).next == (if t.next == DictFull && policy == ResetThenWrite then FirstCw + 1 else NextAfter(t.next))
  {
    Pow2Widths();
  }

  /**
   * The decompressor builds one step behind the compressor, and its width
   * rule anticipates that: while the decompressor's next free address is n,
   * it reads with the width the compressor wrote with when its own next
   * free address was the one after n.
   */
  lemma WidthLockstep(n: int)
    requires FirstCw <= n <= DictFull
    ensures WidthD(n) == WidthC(NextAfter(n))
  {
  }

  /** A codeword below the next free address fits in the compressor's width. */
  lemma CodewordFits(c: int, next: int)
    requires 0 <= c < next <= DictFull
    ensures c < Pow2(WidthC(next)) && WidthC(next) <= MaxCwLen
  {
    Pow2Widths();
  }

  /**
   * Every live entry points strictly below itself, so a chain of pointers
   * from a live address walks down to a root codeword.
   */
  ghost predicate Descends(es: seq<Entry>, hi: int)
  {
    forall a :: FirstCw <= a < hi && a < |es| ==> 0 <= es[a].pointer < a
  }

  ghost predicate ChainsDescend(t: Table)
  {
    Sized(t) && Descends(t.entries, t.next)
  }

  /**
   * The string a codeword stands for: a root is its own byte; an entry is
   * the string of its pointer followed by its byte. At most c - 254 bytes
   * long, which is the bound the decompressor's stack must accommodate.
   */
  function Str(es: seq<Entry>, c: int): (s: seq<Byte>)
    requires 0 <= c < |es| && Descends(es, c + 1)
    ensures 1 <= |s| <= (if c < FirstCw then 1 else c - 254)
    ensures c < FirstCw ==> s == [c]
    decreases c
  {
    if c < FirstCw then [c]
    else Str(es, es[c].pointer) + [es[c].byteVal]
  }

  /** The first byte of a string: its root. */
  lemma {:induction false} StrFirst(es: seq<Entry>, c: int)
    requires 0 <= c < |es| && Descends(es, c + 1)
    ensures FirstCw <= c ==> Str(es, c)[0] == Str(es, es[c].pointer)[0]
  {
  }

  /** Two entry arrays that agree on addresses FirstCw..c give c the same string. */
  lemma {:induction false} StrAgree(es1: seq<Entry>, es2: seq<Entry>, c: int)
    requires 0 <= c < |es1| && c < |es2|
    requires Descends(es1, c + 1) && Descends(es2, c + 1)
    requires forall a :: FirstCw <= a <= c ==> es1[a] == es2[a]
    ensures Str(es1, c) == Str(es2, c)
    decreases c
  {
    if c >= FirstCw {
      StrAgree(es1, es2, es1[c].pointer);
    }
  }

  /**
   * Building keeps the pointer chains descending as long as the new
   * entry's pointer is below its address; only a reset clears liveness.
   */
  lemma BuildKeepsDescent(t: Table, mode: Mode, policy: ResetPolicy, pointer: nat, b: Byte)
    requires ChainsDescend(t)
    requires pointer < t.next && (t.next == DictFull && policy == ResetThenWrite ==> pointer < FirstCw)
    ensures ChainsDescend(Build(t, mode, policy, pointer, b))
  {
  }

  /**
   * The indirection table points every live entry back at its address: the
   * compressor's fast search then never misses a string the dictionary
   * holds.
   */
  ghost predicate IndexCovers(t: Table)
  {
    Sized(t) &&
    forall a :: Live(t, a) ==> IndexAt(t, t.entries[a].pointer, t.entries[a].byteVal) == a
  }

  /** With the index in place, entry_match finds every live entry. */
  lemma MatchFindsLive(t: Table, a: int)
    requires IndexCovers(t) && Live(t, a)
    ensures Match(t, t.entries[a].pointer, t.entries[a].byteVal) == a
  {
  }

  /**
   * A compressing build of a string the dictionary does not hold keeps the
   * index covering every live entry, under either reset policy.
   */
  lemma BuildKeepsIndex(t: Table, policy: ResetPolicy, pointer: nat, b: Byte)
    requires IndexCovers(t) && Match(t, pointer, b) == NoMatch
    ensures IndexCovers(Build(t, Compressing, policy, pointer, b))
  {
    var r := Build(t, Compressing, policy, pointer, b);
    if t.next < DictFull {
      forall a | Live(r, a)
        ensures IndexAt(r, r.entries[a].pointer, r.entries[a].byteVal) == a
      {
        if a < t.next {
          assert r.entries[a] == t.entries[a];
          if t.entries[a] == Entry(pointer, b) {
            MatchFindsLive(t, a);
            assert false;
          }
        }
      }
    }
  }
}
