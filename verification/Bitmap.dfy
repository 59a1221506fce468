/** The bitmap packed into 32-bit words (lib/kernel/bitmap.c) as a sequence of booleans. */
module Bitmaps {
  import opened Storage
  import opened Bits

  const ELEM_BITS := 32

  /** elem_idx and bit_mask */
  function ElemIdx(idx: nat): nat {
    idx / ELEM_BITS
  }

  function BitMask(idx: nat): nat {
    Pow2(idx % ELEM_BITS)
  }

  /** elem_cnt */
  function ElemCount(bitCount: nat): nat {
    (bitCount + ELEM_BITS - 1) / ELEM_BITS
  }

  function Complement(mask: nat): nat
    requires mask < Pow2(ELEM_BITS)
  {
    Pow2(ELEM_BITS) - 1 - mask
  }

  /** Bit idx of a sequence of words. */
  predicate BitAt(words: seq<nat>, idx: nat)
    requires ElemIdx(idx) < |words|
  {
    Bit(words[ElemIdx(idx)], idx % ELEM_BITS)
  }

  ghost predicate WordsOk(words: seq<nat>, bitCount: nat) {
    && |words| == ElemCount(bitCount)
    && forall i | 0 <= i < |words| :: words[i] < Pow2(ELEM_BITS)
  }

  lemma IndexOk(idx: nat, bitCount: nat)
    requires idx < bitCount
    ensures ElemIdx(idx) < ElemCount(bitCount)
  {
  }

  /** The bits a sequence of words stands for. */
  ghost function Unpacked(words: seq<nat>, n: nat): (s: seq<bool>)
    requires ElemCount(n) <= |words|
    ensures |s| == n
  {
    if n == 0 then [] else Unpacked(words, n - 1) + [BitAt(words, n - 1)]
  }

  lemma {:induction false} UnpackedAt(words: seq<nat>, n: nat, i: nat)
    requires ElemCount(n) <= |words| && i < n
    ensures ElemIdx(i) < |words| && Unpacked(words, n)[i] == BitAt(words, i)
  {
    if i < n - 1 {
      UnpackedAt(words, n - 1, i);
    }
  }

  /** Changing one bit of one word changes that bit of the bitmap and no other. */
  lemma OneBit(words: seq<nat>, bitCount: nat, idx: nat, word: nat, value: bool)
    requires WordsOk(words, bitCount) && idx < bitCount && ElemIdx(idx) < |words| && word < Pow2(ELEM_BITS)
    requires forall k | 0 <= k < ELEM_BITS ::
               Bit(word, k) == if k == idx % ELEM_BITS then value else Bit(words[ElemIdx(idx)], k)
    ensures WordsOk(words[ElemIdx(idx) := word], bitCount)
    ensures Unpacked(words[ElemIdx(idx) := word], bitCount) == Unpacked(words, bitCount)[idx := value]
  {
    var words' := words[ElemIdx(idx) := word];
    forall i | 0 <= i < bitCount ensures Unpacked(words', bitCount)[i] == Unpacked(words, bitCount)[idx := value][i] {
      UnpackedAt(words, bitCount, i);
      UnpackedAt(words', bitCount, i);
      if ElemIdx(i) == ElemIdx(idx) && i != idx {
        assert i % ELEM_BITS != idx % ELEM_BITS;
      }
    }
  }

  lemma MaskFits(idx: nat)
    ensures BitMask(idx) < Pow2(ELEM_BITS)
  {
    Pow2Monotone(idx % ELEM_BITS + 1, ELEM_BITS);
  }

  /** The bits [start, start + n) replaced by value. */
  function Filled(s: seq<bool>, start: nat, n: nat, value: bool): (r: seq<bool>)
    requires start + n <= |s|
    ensures |r| == |s|
  {
    seq(|s|, i requires 0 <= i < |s| => if start <= i < start + n then value else s[i])
  }

  ghost predicate IsRun(s: seq<bool>, start: nat, n: nat, value: bool) {
    start + n <= |s| && forall i | start <= i < start + n :: s[i] == value
  }

  /** r is the lowest run of n bits equal to value at or after start. */
  ghost predicate IsLowestRun(s: seq<bool>, start: nat, n: nat, value: bool, r: Option<nat>) {
    match r
    case Some(i) => start <= i && IsRun(s, i, n, value) && forall j: nat | start <= j < i :: !IsRun(s, j, n, value)
    case None => forall j: nat | start <= j :: !IsRun(s, j, n, value)
  }

  class Bitmap {
    const bitCount: nat
    const words: array<nat>
    ghost var contents: seq<bool>

    ghost predicate Valid()
      reads this, words
      ensures Valid() ==> |contents| == bitCount
    {
      WordsOk(words[..], bitCount) && contents == Unpacked(words[..], bitCount)
    }

    method Store(idx: nat, word: nat, ghost value: bool)
      requires Valid() && idx < bitCount && word < Pow2(ELEM_BITS) && ElemIdx(idx) < words.Length
      requires forall k | 0 <= k < ELEM_BITS ::
                 Bit(word, k) == if k == idx % ELEM_BITS then value else Bit(words[ElemIdx(idx)], k)
      modifies this`contents, words
      ensures Valid() && contents == old(contents)[idx := value]
    {
      OneBit(words[..], bitCount, idx, word, value);
      ghost var was := words[..];
      words[ElemIdx(idx)] := word;
      assert words[..] == was[ElemIdx(idx) := word];
      contents := contents[idx := value];
    }

    /** bitmap_mark */
    method Mark(idx: nat)
      requires Valid() && idx < bitCount
      modifies this`contents, words
      ensures Valid() && contents == old(contents)[idx := true]
    {
      IndexOk(idx, bitCount);
      MaskFits(idx);
      var w, mask := words[ElemIdx(idx)], BitMask(idx);
      forall k | 0 <= k < ELEM_BITS ensures Bit(Or(w, mask), k) == if k == idx % ELEM_BITS then true else Bit(w, k) {
        BitOr(w, mask, k);
        BitPow2(idx % ELEM_BITS, k);
      }
      OrXorBound(ELEM_BITS, w, mask);
      Store(idx, Or(w, mask), true);
    }

    /** bitmap_reset */
    method Reset(idx: nat)
      requires Valid() && idx < bitCount
      modifies this`contents, words
      ensures Valid() && contents == old(contents)[idx := false]
    {
      IndexOk(idx, bitCount);
      MaskFits(idx);
      var w, mask := words[ElemIdx(idx)], BitMask(idx);
      forall k | 0 <= k < ELEM_BITS
        ensures Bit(And(w, Complement(mask)), k) == if k == idx % ELEM_BITS then false else Bit(w, k) {
        BitAnd(w, Complement(mask), k);
        BitNot(ELEM_BITS, mask, k);
        BitPow2(idx % ELEM_BITS, k);
      }
      AndBound(w, Complement(mask));
      Store(idx, And(w, Complement(mask)), false);
    }

    /** bitmap_set */
    method Set(idx: nat, value: bool)
      requires Valid() && idx < bitCount
      modifies this`contents, words
      ensures Valid() && contents == old(contents)[idx := value]
    {
      if value {
        Mark(idx);
      } else {
        Reset(idx);
      }
    }

    /** bitmap_set_multiple */
    method SetMultiple(start: nat, n: nat, value: bool)
      requires Valid() && start + n <= bitCount
      modifies this`contents, words
      ensures Valid() && contents == Filled(old(contents), start, n, value)
      ensures forall i | 0 <= i < |contents| ::
                contents[i] == if start <= i < start + n then value else old(contents[i])
    {
      ghost var was := contents;
      assert Filled(was, start, 0, value) == was;
      for i := 0 to n
        invariant Valid() && contents == Filled(was, start, i, value)
      {
        Set(start + i, value);
        assert Filled(was, start, i + 1, value) == Filled(was, start, i, value)[start + i := value];
      }
    }

    /** bitmap_create_in_buf */
    constructor (bitCount: nat)
      ensures Valid() && this.bitCount == bitCount && fresh(words)
      ensures contents == seq(bitCount, _ => false)
    {
      this.bitCount := bitCount;
      words := new nat[ElemCount(bitCount)](_ => 0);
      new;
      contents := Unpacked(words[..], bitCount);
      SetMultiple(0, bitCount, false);
      assert contents == seq(bitCount, _ => false);
    }

    /** bitmap_flip */
    method Flip(idx: nat)
      requires Valid() && idx < bitCount
      modifies this`contents, words
      ensures Valid() && contents == old(contents)[idx := !old(contents)[idx]]
    {
      IndexOk(idx, bitCount);
      MaskFits(idx);
      var w, mask := words[ElemIdx(idx)], BitMask(idx);
      ghost var value := !contents[idx];
      UnpackedAt(words[..], bitCount, idx);
      forall k | 0 <= k < ELEM_BITS ensures Bit(Xor(w, mask), k) == if k == idx % ELEM_BITS then value else Bit(w, k) {
        BitXor(w, mask, k);
        BitPow2(idx % ELEM_BITS, k);
      }
      OrXorBound(ELEM_BITS, w, mask);
      Store(idx, Xor(w, mask), value);
    }

    /** bitmap_test */
    method Test(idx: nat) returns (r: bool)
      requires Valid() && idx < bitCount
      ensures r == contents[idx]
    {
      UnpackedAt(words[..], bitCount, idx);
      AndPow2(words[ElemIdx(idx)], idx % ELEM_BITS);
      r := And(words[ElemIdx(idx)], BitMask(idx)) != 0;
    }

    /** bitmap_contains */
    method Contains(start: nat, n: nat, value: bool) returns (r: bool)
      requires Valid() && start + n <= bitCount
      ensures r <==> !IsRun(contents, start, n, !value)
    {
      for i := 0 to n
        invariant IsRun(contents, start, i, !value)
      {
        var bit := Test(start + i);
        if bit == value {
          return true;
        }
      }
      return false;
    }

    /** bitmap_scan */
    method Scan(start: nat, n: nat, value: bool) returns (r: Option<nat>)
      requires Valid() && start <= bitCount
      ensures IsLowestRun(contents, start, n, value, r)
    {
      if n <= bitCount {
        var i, last := start, bitCount - n;
        while i <= last
          invariant start <= i && forall j: nat | start <= j < i :: !IsRun(contents, j, n, value)
        {
          var other := Contains(i, n, !value);
          if !other {
            return Some(i);
          }
          i := i + 1;
        }
      }
      return None;
    }

    /** bitmap_scan_and_flip: the lowest fitting run is flipped and nothing else. */
    method ScanAndFlip(start: nat, n: nat, value: bool) returns (r: Option<nat>)
      requires Valid() && start <= bitCount
      modifies this`contents, words
      ensures Valid() && IsLowestRun(old(contents), start, n, value, r)
      ensures contents == if r.Some? then Filled(old(contents), r.value, n, !value) else old(contents)
    {
      r := Scan(start, n, value);
      if r.Some? {
        SetMultiple(r.value, n, !value);
      }
    }
  }
}
