/** Pure specification of bit arrays: the sequences of bits the bitmap operations are stated over
    (src/lib/kernel/bitmap.c). */
module BitSeq {
  /** `n` copies of `v`. */
  function Repeat(v: bool, n: nat): (s: seq<bool>)
    ensures |s| == n && forall i :: 0 <= i < n ==> s[i] == v
  {
    seq(n, _ => v)
  }

  /** `s` with the `cnt` bits starting at `start` replaced by `value`. */
  function SetRange(s: seq<bool>, start: nat, cnt: nat, value: bool): (r: seq<bool>)
    requires start + cnt <= |s|
    ensures |r| == |s|
    ensures forall i :: 0 <= i < |s| ==> r[i] == if start <= i < start + cnt then value else s[i]
  {
    s[..start] + Repeat(value, cnt) + s[start + cnt..]
  }

  /** How many bits of `s` equal `value`. */
  function CountOf(s: seq<bool>, value: bool): (n: nat)
    ensures n <= |s|
    ensures n == 0 <==> value !in s
    ensures n == |s| <==> forall i :: 0 <= i < |s| ==> s[i] == value
  {
    if s == [] then 0
    else CountOf(s[..|s| - 1], value) + (if s[|s| - 1] == value then 1 else 0)
  }

  /** Whether every bit of `s` equals `value`. */
  predicate AllEqual(s: seq<bool>, value: bool) {
    forall i :: 0 <= i < |s| ==> s[i] == value
  }

  /** Whether the `cnt` bits of `s` from `at` exist and all equal `value`. */
  predicate Window(s: seq<bool>, at: nat, cnt: nat, value: bool) {
    at + cnt <= |s| && AllEqual(s[at..at + cnt], value)
  }

  /** A sequence without `!value` is all `value`. */
  lemma NotInAllEqual(s: seq<bool>, value: bool)
    requires !value !in s
    ensures AllEqual(s, value)
  {
    forall j | 0 <= j < |s|
      ensures s[j] == value
    {
      assert s[j] in s;
    }
  }

  /** Counting one more element of `s` adds one when that element is `value`. */
  lemma CountStep(s: seq<bool>, i: nat, value: bool)
    requires i < |s|
    ensures CountOf(s[..i + 1], value) == CountOf(s[..i], value) + if s[i] == value then 1 else 0
  {
    assert s[..i + 1][..i] == s[..i];
  }

  /** Every bit is either `value` or not: the two counts add up to the length. */
  lemma {:induction false} CountSplit(s: seq<bool>, value: bool)
    ensures CountOf(s, value) + CountOf(s, !value) == |s|
  {
    if s != [] {
      CountSplit(s[..|s| - 1], value);
    }
  }

  /** Counting distributes over concatenation. */
  lemma {:induction false} CountAppend(s: seq<bool>, t: seq<bool>, value: bool)
    ensures CountOf(s + t, value) == CountOf(s, value) + CountOf(t, value)
    decreases |t|
  {
    if t == [] {
      assert s + t == s;
    } else {
      assert (s + t)[..|s + t| - 1] == s + t[..|t| - 1];
      CountAppend(s, t[..|t| - 1], value);
    }
  }

  /** A run of `value` counts fully, a run of the opposite value not at all. */
  lemma {:induction false} CountRepeat(v: bool, n: nat, value: bool)
    ensures CountOf(Repeat(v, n), value) == if v == value then n else 0
  {
    if n > 0 {
      assert Repeat(v, n)[..n - 1] == Repeat(v, n - 1);
      CountRepeat(v, n - 1, value);
    }
  }

  /** Setting a range to `true` adds exactly the bits of the range that were `false` to the count of
      `true` bits. */
  lemma SetRangeCount(s: seq<bool>, start: nat, cnt: nat)
    requires start + cnt <= |s|
    ensures CountOf(SetRange(s, start, cnt, true), true)
            == CountOf(s, true) + CountOf(s[start..start + cnt], false)
  {
    var a, m, z := s[..start], s[start..start + cnt], s[start + cnt..];
    assert s == a + m + z;
    CountAppend(a + m, z, true);
    CountAppend(a, m, true);
    CountAppend(a + Repeat(true, cnt), z, true);
    CountAppend(a, Repeat(true, cnt), true);
    CountRepeat(true, cnt, true);
    CountSplit(m, true);
  }

  /** Marking a free run of `cnt` bits used adds exactly `cnt` to the count of used bits. */
  lemma SetFreeRunCount(s: seq<bool>, start: nat, cnt: nat)
    requires Window(s, start, cnt, false)
    ensures CountOf(SetRange(s, start, cnt, true), true) == CountOf(s, true) + cnt
  {
    SetRangeCount(s, start, cnt);
    assert s[start..start + cnt] == Repeat(false, cnt);
    CountRepeat(false, cnt, false);
  }

  /** The first `i` at or after `from` and at most `|s| - cnt` whose window of `cnt` bits is all
      `value`, or `error` when there is none. */
  function ScanFrom(s: seq<bool>, from: nat, cnt: nat, value: bool, error: nat): (r: nat)
    requires error > |s|
    ensures r != error ==> from <= r && Window(s, r, cnt, value)
    ensures r != error ==> forall j :: from <= j < r ==> !Window(s, j, cnt, value)
    ensures r == error ==> forall j :: from <= j ==> !Window(s, j, cnt, value)
    decreases |s| - from
  {
    if cnt > |s| || from > |s| - cnt then error
    else if Window(s, from, cnt, value) then from
    else ScanFrom(s, from + 1, cnt, value, error)
  }

  /** An empty window is found at once, wherever the scan starts. */
  lemma ScanEmptyWindow(s: seq<bool>, from: nat, value: bool, error: nat)
    requires error > |s| && from <= |s|
    ensures ScanFrom(s, from, 0, value, error) == from
  {
    assert Window(s, from, 0, value);
  }

  /** Flipping a found window to the opposite value and back restores the bits. */
  lemma SetRangeUndo(s: seq<bool>, start: nat, cnt: nat, value: bool)
    requires start + cnt <= |s| && AllEqual(s[start..start + cnt], value)
    ensures SetRange(SetRange(s, start, cnt, !value), start, cnt, value) == s
  {
    var r := SetRange(SetRange(s, start, cnt, !value), start, cnt, value);
    forall i | 0 <= i < |s|
      ensures r[i] == s[i]
    {
      if start <= i < start + cnt {
        assert s[start..start + cnt][i - start] == s[i];
      }
    }
  }
}

/** `struct bitmap` (src/lib/kernel/bitmap.c): `bit_cnt` bits packed into 32-bit words, bit `i` in
    word `i / 32` at position `i % 32`. A word is modelled by its 32 bits, bit 0 first, and the C
    bitwise operators act on it bit by bit. */
module Bitmap {
  import opened BitSeq

  /** `ELEM_BITS`: `elem_type` is `unsigned long`, 32 bits wide on the 80x86. */
  const ELEM_BITS: nat := 32
  /** `sizeof (elem_type)`. */
  const ELEM_SIZE: nat := 4
  /** `sizeof (struct bitmap)`: the bit count and the pointer to the words. */
  const HEADER_SIZE: nat := 8
  /** `BITMAP_ERROR`, i.e. `SIZE_MAX` of a 32-bit `size_t`. */
  const BITMAP_ERROR: nat := 0xFFFF_FFFF

  /** An `elem_type` word: its `ELEM_BITS` bits, least significant first. */
  type Word = w: seq<bool> | |w| == ELEM_BITS witness Repeat(false, ELEM_BITS)

  /** `2 ** n`, i.e. `1 << n`: even for n > 0, and larger than n. */
  function Pow2(n: nat): (p: nat)
    ensures p >= n + 1
    ensures n > 0 ==> p % 2 == 0
  {
    if n == 0 then 1 else 2 * Pow2(n - 1)
  }

  /** The low `width` bits of `n`, least significant first. */
  function NatBits(n: nat, width: nat): (r: seq<bool>)
    ensures |r| == width
  {
    if width == 0 then [] else [n % 2 == 1] + NatBits(n / 2, width - 1)
  }

  /** The word holding `n` truncated to `ELEM_BITS` bits, as a C conversion to `elem_type` does. */
  function WordOf(n: nat): Word {
    NatBits(n, ELEM_BITS)
  }

  /** `a | b`. */
  function Or(a: Word, b: Word): (r: Word) {
    seq(ELEM_BITS, k requires 0 <= k < ELEM_BITS => a[k] || b[k])
  }

  /** `a & b`. */
  function And(a: Word, b: Word): (r: Word) {
    seq(ELEM_BITS, k requires 0 <= k < ELEM_BITS => a[k] && b[k])
  }

  /** `a ^ b`. */
  function Xor(a: Word, b: Word): (r: Word) {
    seq(ELEM_BITS, k requires 0 <= k < ELEM_BITS => a[k] != b[k])
  }

  /** `~a`. */
  function Not(a: Word): (r: Word) {
    seq(ELEM_BITS, k requires 0 <= k < ELEM_BITS => !a[k])
  }

  /** The bits of zero are all clear. */
  lemma {:induction false} ZeroBits(width: nat)
    ensures NatBits(0, width) == Repeat(false, width)
  {
    if width > 0 {
      ZeroBits(width - 1);
    }
  }

  /** `2 ** m` has exactly bit `m` set. */
  lemma {:induction false} PowerBits(m: nat, width: nat)
    requires m < width
    ensures forall k :: 0 <= k < width ==> (NatBits(Pow2(m), width)[k] <==> k == m)
  {
    if m == 0 {
      ZeroBits(width - 1);
    } else {
      PowerBits(m - 1, width - 1);
    }
  }

  /** `2 ** m - 1`. */
  function LowOnes(m: nat): nat {
    Pow2(m) - 1
  }

  /** `2 ** m - 1` has exactly the bits below `m` set. */
  lemma {:induction false} LowBits(m: nat, width: nat)
    requires m <= width
    ensures forall k :: 0 <= k < width ==> (NatBits(LowOnes(m), width)[k] <==> k < m)
  {
    if m == 0 {
      ZeroBits(width);
    } else {
      assert LowOnes(m) == 2 * LowOnes(m - 1) + 1;
      LowBits(m - 1, width - 1);
    }
  }

  /** `elem_idx`: the word holding bit `bitIdx`. */
  function ElemIdx(bitIdx: nat): (e: nat)
    ensures e * ELEM_BITS <= bitIdx < e * ELEM_BITS + ELEM_BITS
  {
    bitIdx / ELEM_BITS
  }

  /** `bit_mask`: `(elem_type) 1 << (bitIdx % ELEM_BITS)`. */
  function BitMask(bitIdx: nat): (m: Word)
    ensures forall k :: 0 <= k < ELEM_BITS ==> (m[k] <==> k == bitIdx % ELEM_BITS)
  {
    PowerBits(bitIdx % ELEM_BITS, ELEM_BITS);
    WordOf(Pow2(bitIdx % ELEM_BITS))
  }

  /** `elem_cnt`: the fewest words that hold `bitCnt` bits. */
  function ElemCnt(bitCnt: nat): (n: nat)
    ensures n * ELEM_BITS >= bitCnt
    ensures n > 0 ==> (n - 1) * ELEM_BITS < bitCnt
  {
    (bitCnt + ELEM_BITS - 1) / ELEM_BITS
  }

  /** `byte_cnt`: the bytes of those words, which hold the bits with less than one word to spare. */
  function ByteCnt(bitCnt: nat): (n: nat)
    ensures n % ELEM_SIZE == 0
    ensures 8 * n >= bitCnt && 8 * n < bitCnt + ELEM_BITS
  {
    ELEM_SIZE * ElemCnt(bitCnt)
  }

  /** `bitmap_buf_size`: the header followed by the words. */
  function BufSize(bitCnt: nat): (n: nat)
    ensures n >= HEADER_SIZE && 8 * (n - HEADER_SIZE) >= bitCnt
    ensures (n - HEADER_SIZE) % ELEM_SIZE == 0 && 8 * (n - HEADER_SIZE) < bitCnt + ELEM_BITS
  {
    HEADER_SIZE + ByteCnt(bitCnt)
  }

  /** `last_mask`: `(1 << last_bits) - 1`, or the all-ones `(elem_type) -1` when `bitCnt` is a
      multiple of `ELEM_BITS`; its set bits are exactly the bits of the last word the bitmap uses. */
  function LastMask(bitCnt: nat): (m: Word)
    ensures forall k :: 0 <= k < ELEM_BITS ==>
              (m[k] <==> bitCnt % ELEM_BITS == 0 || k < bitCnt % ELEM_BITS)
  {
    var lastBits := bitCnt % ELEM_BITS;
    if lastBits != 0 then
      LowBits(lastBits, ELEM_BITS);
      WordOf(LowOnes(lastBits))
    else
      LowBits(ELEM_BITS, ELEM_BITS);
      WordOf(LowOnes(ELEM_BITS))
  }

  /** The bits of a sequence of words, word 0 first and each word from bit 0 up. */
  function WordBits(ws: seq<Word>): (r: seq<bool>)
    ensures |r| == ELEM_BITS * |ws|
    ensures forall i :: 0 <= i < |r| ==> r[i] == ws[i / ELEM_BITS][i % ELEM_BITS]
  {
    seq(ELEM_BITS * |ws|, i requires 0 <= i < ELEM_BITS * |ws| => ws[i / ELEM_BITS][i % ELEM_BITS])
  }

  // ---------------------------------------------------------------------------------------------
  // Single-bit updates of one word

  /** `(w & bit_mask) != 0` tests the bit of `idx`. */
  lemma TestBit(w: Word, idx: nat)
    ensures And(w, BitMask(idx)) != WordOf(0) <==> w[idx % ELEM_BITS]
  {
    ZeroBits(ELEM_BITS);
    var a := And(w, BitMask(idx));
    if w[idx % ELEM_BITS] {
      assert a[idx % ELEM_BITS] != WordOf(0)[idx % ELEM_BITS];
    } else {
      assert a == WordOf(0);
    }
  }

  /** `|=` with the mask of `idx` sets its bit and no other. */
  lemma MarkBit(w: Word, idx: nat)
    ensures Or(w, BitMask(idx)) == w[idx % ELEM_BITS := true]
  {
  }

  /** `&= ~` with the mask of `idx` clears its bit and no other. */
  lemma ResetBit(w: Word, idx: nat)
    ensures And(w, Not(BitMask(idx))) == w[idx % ELEM_BITS := false]
  {
  }

  /** `^=` with the mask of `idx` toggles its bit and no other. */
  lemma FlipBit(w: Word, idx: nat)
    ensures Xor(w, BitMask(idx)) == w[idx % ELEM_BITS := !w[idx % ELEM_BITS]]
  {
  }

  /** Replacing the word of bit `idx` by that word with bit `idx` set to `v` sets bit `idx` of the
      bits to `v` and changes no other bit. */
  lemma UpdateWord(ws: seq<Word>, idx: nat, v: bool)
    requires ElemIdx(idx) < |ws|
    ensures idx < |WordBits(ws)|
    ensures WordBits(ws[ElemIdx(idx) := ws[ElemIdx(idx)][idx % ELEM_BITS := v]]) == WordBits(ws)[idx := v]
  {
    var e := ElemIdx(idx);
    var a, b := WordBits(ws[e := ws[e][idx % ELEM_BITS := v]]), WordBits(ws)[idx := v];
    forall i | 0 <= i < |a|
      ensures a[i] == b[i]
    {
      if i / ELEM_BITS == e && i % ELEM_BITS == idx % ELEM_BITS {
        SameSlot(i, idx);
      }
    }
  }

  /** Two indices in the same word at the same position are equal. */
  lemma SameSlot(i: nat, j: nat)
    requires i / ELEM_BITS == j / ELEM_BITS && i % ELEM_BITS == j % ELEM_BITS
    ensures i == j
  {
  }

  /** Updating one element and then taking a prefix updates the prefix, when the element lies in it. */
  lemma PrefixUpdate(s: seq<bool>, n: nat, idx: nat, v: bool)
    requires n <= |s| && idx < |s|
    ensures s[idx := v][..n] == if idx < n then s[..n][idx := v] else s[..n]
  {
  }

  class Bitmap {
    /** `bit_cnt`. */
    const bitCnt: nat
    /** `bits`: the words, `elem_cnt (bit_cnt)` of them. */
    const bits: array<Word>

    ghost predicate Valid() {
      bits.Length == ElemCnt(bitCnt) && bitCnt < BITMAP_ERROR
    }

    /** Every bit the words hold, including the unused tail of the last word. */
    ghost function RawBits(): (r: seq<bool>)
      reads bits
    {
      WordBits(bits[..])
    }

    /** The `bit_cnt` bits of the bitmap. */
    ghost function Bits(): (r: seq<bool>)
      reads bits
      requires Valid()
      ensures |r| == bitCnt
    {
      RawBits()[..bitCnt]
    }

    /** `bitmap_create_in_buf`: the header and the words live in a preallocated block of
        `blockSize` bytes, whose previous contents are arbitrary; every bit is cleared. */
    constructor CreateInBuf(bitCnt: nat, blockSize: nat)
      requires blockSize >= BufSize(bitCnt) && bitCnt < BITMAP_ERROR
      ensures Valid() && fresh(bits)
      ensures this.bitCnt == bitCnt
      ensures Bits() == Repeat(false, bitCnt)
    {
      this.bitCnt := bitCnt;
      bits := new Word[ElemCnt(bitCnt)];
      new;
      SetAll(false);
    }

    /** `bitmap_size`. */
    function Size(): (n: nat)
      requires Valid()
      ensures n == |Bits()|
    {
      bitCnt
    }

    /** `bitmap_test`. */
    function Test(idx: nat): (b: bool)
      reads bits
      requires Valid() && idx < bitCnt
      ensures b == Bits()[idx]
    {
      TestBit(bits[ElemIdx(idx)], idx);
      And(bits[ElemIdx(idx)], BitMask(idx)) != WordOf(0)
    }

    /** `bitmap_mark`: `bits[elem_idx] |= bit_mask`. Nothing checks the index against `bit_cnt`: an
        index in the unused tail of the last word sets a bit no query sees. */
    method Mark(bitIdx: nat)
      requires Valid() && ElemIdx(bitIdx) < bits.Length
      modifies bits
      ensures bits[..] == old(bits[..])[ElemIdx(bitIdx) := Or(old(bits[ElemIdx(bitIdx)]), BitMask(bitIdx))]
      ensures RawBits() == old(RawBits())[bitIdx := true]
      ensures Bits() == if bitIdx < bitCnt then old(Bits())[bitIdx := true] else old(Bits())
    {
      var e := ElemIdx(bitIdx);
      ghost var ws := bits[..];
      bits[e] := Or(bits[e], BitMask(bitIdx));
      MarkBit(ws[e], bitIdx);
      UpdateWord(ws, bitIdx, true);
      PrefixUpdate(WordBits(ws), bitCnt, bitIdx, true);
    }

    /** `bitmap_reset`: `bits[elem_idx] &= ~bit_mask`. */
    method Reset(bitIdx: nat)
      requires Valid() && ElemIdx(bitIdx) < bits.Length
      modifies bits
      ensures bits[..] == old(bits[..])[ElemIdx(bitIdx) := And(old(bits[ElemIdx(bitIdx)]), Not(BitMask(bitIdx)))]
      ensures RawBits() == old(RawBits())[bitIdx := false]
      ensures Bits() == if bitIdx < bitCnt then old(Bits())[bitIdx := false] else old(Bits())
    {
      var e := ElemIdx(bitIdx);
      ghost var ws := bits[..];
      bits[e] := And(bits[e], Not(BitMask(bitIdx)));
      ResetBit(ws[e], bitIdx);
      UpdateWord(ws, bitIdx, false);
      PrefixUpdate(WordBits(ws), bitCnt, bitIdx, false);
    }

    /** `bitmap_flip`: `bits[elem_idx] ^= bit_mask`. */
    method Flip(bitIdx: nat)
      requires Valid() && ElemIdx(bitIdx) < bits.Length
      modifies bits
      ensures bits[..] == old(bits[..])[ElemIdx(bitIdx) := Xor(old(bits[ElemIdx(bitIdx)]), BitMask(bitIdx))]
      ensures RawBits() == old(RawBits())[bitIdx := !old(RawBits())[bitIdx]]
      ensures Bits() == if bitIdx < bitCnt then old(Bits())[bitIdx := !old(Bits())[bitIdx]] else old(Bits())
    {
      var e := ElemIdx(bitIdx);
      ghost var ws := bits[..];
      bits[e] := Xor(bits[e], BitMask(bitIdx));
      FlipBit(ws[e], bitIdx);
      UpdateWord(ws, bitIdx, !ws[e][bitIdx % ELEM_BITS]);
      PrefixUpdate(WordBits(ws), bitCnt, bitIdx, !WordBits(ws)[bitIdx]);
    }

    /** `bitmap_set`: sets bit `idx`, which must lie below `bit_cnt`, to `value`. */
    method Set(idx: nat, value: bool)
      requires Valid() && idx < bitCnt
      modifies bits
      ensures RawBits() == old(RawBits())[idx := value]
      ensures Bits() == old(Bits())[idx := value]
    {
      if value {
        Mark(idx);
      } else {
        Reset(idx);
      }
    }

    /** `bitmap_set_multiple`: sets the `cnt` bits from `start` to `value`, one at a time. */
    method SetMultiple(start: nat, cnt: nat, value: bool)
      requires Valid() && start <= bitCnt && start + cnt <= bitCnt
      modifies bits
      ensures RawBits() == SetRange(old(RawBits()), start, cnt, value)
      ensures Bits() == SetRange(old(Bits()), start, cnt, value)
    {
      ghost var raw := RawBits();
      for i := 0 to cnt
        invariant RawBits() == SetRange(raw, start, i, value)
      {
        Set(start + i, value);
      }
      assert Bits() == SetRange(old(Bits()), start, cnt, value);
    }

    /** `bitmap_set_all`. */
    method SetAll(value: bool)
      requires Valid()
      modifies bits
      ensures RawBits() == SetRange(old(RawBits()), 0, bitCnt, value)
      ensures Bits() == Repeat(value, bitCnt)
    {
      SetMultiple(0, Size(), value);
    }

    /** `bitmap_count`: how many of the `cnt` bits from `start` equal `value`. */
    method Count(start: nat, cnt: nat, value: bool) returns (n: nat)
      requires Valid() && start <= bitCnt && start + cnt <= bitCnt
      ensures n == CountOf(Bits()[start..start + cnt], value)
    {
      ghost var s := Bits()[start..start + cnt];
      n := 0;
      for i := 0 to cnt
        invariant n == CountOf(s[..i], value)
      {
        CountStep(s, i, value);
        var t := Test(start + i);
        assert t == s[i];
        if t == value {
          n := n + 1;
        }
      }
      assert s[..cnt] == s;
    }

    /** `bitmap_contains`: whether any of the `cnt` bits from `start` equals `value`. */
    method Contains(start: nat, cnt: nat, value: bool) returns (b: bool)
      requires Valid() && start <= bitCnt && start + cnt <= bitCnt
      ensures b <==> value in Bits()[start..start + cnt]
    {
      ghost var s := Bits()[start..start + cnt];
      for i := 0 to cnt
        invariant value !in s[..i]
      {
        var t := Test(start + i);
        assert t == s[i];
        if t == value {
          assert s[i] in s;
          return true;
        }
        assert s[..i + 1] == s[..i] + [s[i]];
      }
      assert s[..cnt] == s;
      return false;
    }

    /** `bitmap_any`. */
    method Any(start: nat, cnt: nat) returns (b: bool)
      requires Valid() && start <= bitCnt && start + cnt <= bitCnt
      ensures b <==> CountOf(Bits()[start..start + cnt], true) > 0
    {
      b := Contains(start, cnt, true);
    }

    /** `bitmap_none`. */
    method None(start: nat, cnt: nat) returns (b: bool)
      requires Valid() && start <= bitCnt && start + cnt <= bitCnt
      ensures b <==> CountOf(Bits()[start..start + cnt], true) == 0
    {
      var c := Contains(start, cnt, true);
      b := !c;
    }

    /** `bitmap_all`. */
    method All(start: nat, cnt: nat) returns (b: bool)
      requires Valid() && start <= bitCnt && start + cnt <= bitCnt
      ensures b <==> CountOf(Bits()[start..start + cnt], true) == cnt
      ensures b <==> AllEqual(Bits()[start..start + cnt], true)
    {
      var c := Contains(start, cnt, false);
      b := !c;
      CountSplit(Bits()[start..start + cnt], true);
    }

    /** `bitmap_scan`: the first window of `cnt` bits equal to `value` at or after `start`, or
        `BITMAP_ERROR`. An empty window is found at `start`. */
    method Scan(start: nat, cnt: nat, value: bool) returns (idx: nat)
      requires Valid() && start <= bitCnt
      ensures idx == ScanFrom(Bits(), start, cnt, value, BITMAP_ERROR)
    {
      if cnt <= bitCnt {
        var last := bitCnt - cnt;
        var i := start;
        while i <= last
          invariant start <= i
          invariant ScanFrom(Bits(), start, cnt, value, BITMAP_ERROR)
                    == ScanFrom(Bits(), i, cnt, value, BITMAP_ERROR)
          decreases last + 1 - i
        {
          var c := Contains(i, cnt, !value);
          if !c {
            NotInAllEqual(Bits()[i..i + cnt], value);
            return i;
          }
          i := i + 1;
        }
      }
      return BITMAP_ERROR;
    }

    /** `bitmap_scan_and_flip`: finds a window as `bitmap_scan` does and sets it to `!value`; on
        `BITMAP_ERROR` nothing changes. */
    method ScanAndFlip(start: nat, cnt: nat, value: bool) returns (idx: nat)
      requires Valid() && start <= bitCnt
      modifies bits
      ensures idx == ScanFrom(old(Bits()), start, cnt, value, BITMAP_ERROR)
      ensures idx != BITMAP_ERROR ==> idx + cnt <= bitCnt
      ensures RawBits() == if idx == BITMAP_ERROR then old(RawBits())
                           else SetRange(old(RawBits()), idx, cnt, !value)
      ensures Bits() == if idx == BITMAP_ERROR then old(Bits())
                        else SetRange(old(Bits()), idx, cnt, !value)
    {
      idx := Scan(start, cnt, value);
      if idx != BITMAP_ERROR {
        SetMultiple(idx, cnt, !value);
      }
    }
  }
}
