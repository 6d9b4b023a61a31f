/** The packed bitmap of lib/kernel/bitmap.c.

    Thirty-two bits share a word; every operation is specified on the sequence of
    booleans the words stand for. */
module Bitmap {
  import opened Sequences
  import opened Words

  const ELEM_BITS: nat := 32

  /** elem_cnt */
  function ElemCnt(bitCnt: nat): (r: nat)
    ensures ELEM_BITS * r >= bitCnt && (bitCnt > 0 ==> ELEM_BITS * (r - 1) < bitCnt)
  {
    (bitCnt + ELEM_BITS - 1) / ELEM_BITS
  }

  /** bit_mask */
  function BitMask(idx: nat): bv32 {
    (1 as bv32) << (idx % ELEM_BITS)
  }

  predicate BitOf(word: bv32, idx: nat) {
    Andl(word, BitMask(idx)) != 0
  }

  /** Setting or clearing one bit of a word leaves the others as they were. */
  lemma WordUpdate(word: bv32, i: nat, j: nat)
    ensures BitOf(Orl(word, BitMask(i)), j) <==> (i % ELEM_BITS == j % ELEM_BITS || BitOf(word, j))
    ensures BitOf(Andl(word, Not(BitMask(i))), j) <==> (i % ELEM_BITS != j % ELEM_BITS && BitOf(word, j))
  {
    hide BitMask, Orl, Andl, Not;
    Masks(i, j);
    if i % ELEM_BITS == j % ELEM_BITS {
      SetOwn(word, BitMask(i));
      ClearOwn(word, BitMask(i));
    } else {
      SetOther(word, BitMask(i), BitMask(j));
      ClearOther(word, BitMask(i), BitMask(j));
    }
  }

  lemma Masks(i: nat, j: nat)
    ensures BitMask(j) != 0
    ensures if i % ELEM_BITS == j % ELEM_BITS then BitMask(i) == BitMask(j) else Andl(BitMask(i), BitMask(j)) == 0
  {
    hide Andl;
    MasksApart(i % ELEM_BITS, j % ELEM_BITS);
  }

  lemma MasksApart(j: nat, k: nat)
    requires j < ELEM_BITS && k < ELEM_BITS
    ensures (1 as bv32) << k != 0
    ensures j != k ==> Andl((1 as bv32) << j, (1 as bv32) << k) == 0
  {
  }

  /** CNT bits of S from I on all have VALUE. */
  predicate IsRun(s: seq<bool>, i: nat, cnt: nat, value: bool) {
    i + cnt <= |s| && forall k :: i <= k < i + cnt ==> s[k] == value
  }

  /** The least index from START on that begins a run. */
  function FirstRun(s: seq<bool>, start: nat, cnt: nat, value: bool): (r: Option<nat>)
    ensures r.Some? ==> start <= r.value && IsRun(s, r.value, cnt, value)
    ensures r.Some? ==> forall j: nat :: start <= j < r.value ==> !IsRun(s, j, cnt, value)
    ensures r.None? ==> forall j: nat :: start <= j ==> !IsRun(s, j, cnt, value)
    decreases |s| - start
  {
    if start + cnt > |s| then None
    else if IsRun(s, start, cnt, value) then Some(start)
    else FirstRun(s, start + 1, cnt, value)
  }

  /** What bitmap_scan_and_flip does to the bits. */
  function Flipped(s: seq<bool>, start: nat, cnt: nat, value: bool): seq<bool> {
    match FirstRun(s, start, cnt, value)
    case None => s
    case Some(i) => Filled(s, i, cnt, !value)
  }

  class Bitmap {
    const bitCnt: nat
    const bits: array<bv32>

    ghost predicate Valid() {
      bits.Length == ElemCnt(bitCnt)
    }

    ghost function Contents(): seq<bool>
      requires Valid()
      reads bits
    {
      seq(bitCnt, i requires 0 <= i < bitCnt reads bits => BitOf(bits[i / ELEM_BITS], i))
    }

    /** bitmap_create_in_buf: all bits false. */
    constructor (bitCnt: nat)
      ensures Valid() && fresh(bits) && this.bitCnt == bitCnt
      ensures Contents() == seq(bitCnt, _ => false)
    {
      this.bitCnt := bitCnt;
      bits := new bv32[ElemCnt(bitCnt)];
      new;
      SetMultiple(0, bitCnt, false);
    }

    /** bitmap_test */
    method Test(idx: nat) returns (r: bool)
      requires Valid() && idx < bitCnt
      ensures r == Contents()[idx]
    {
      r := Andl(bits[idx / ELEM_BITS], BitMask(idx)) != 0;
    }

    /** bitmap_mark */
    method Mark(idx: nat)
      requires Valid() && idx < bitCnt
      modifies bits
      ensures Contents() == old(Contents())[idx := true]
    {
      hide BitOf, BitMask, Orl, Andl, Not;
      ghost var was := Contents();
      bits[idx / ELEM_BITS] := Orl(bits[idx / ELEM_BITS], BitMask(idx));
      forall i | 0 <= i < bitCnt ensures Contents()[i] == was[idx := true][i] {
        WordUpdate(old(bits[idx / ELEM_BITS]), idx, i);
      }
    }

    /** bitmap_reset */
    method Reset(idx: nat)
      requires Valid() && idx < bitCnt
      modifies bits
      ensures Contents() == old(Contents())[idx := false]
    {
      hide BitOf, BitMask, Orl, Andl, Not;
      ghost var was := Contents();
      bits[idx / ELEM_BITS] := Andl(bits[idx / ELEM_BITS], Not(BitMask(idx)));
      forall i | 0 <= i < bitCnt ensures Contents()[i] == was[idx := false][i] {
        WordUpdate(old(bits[idx / ELEM_BITS]), idx, i);
      }
    }

    /** bitmap_set_multiple */
    method SetMultiple(start: nat, cnt: nat, value: bool)
      requires Valid() && start + cnt <= bitCnt
      modifies bits
      ensures Contents() == Filled(old(Contents()), start, cnt, value)
    {
      var i := 0;
      while i < cnt
        invariant 0 <= i <= cnt
        invariant Contents() == Filled(old(Contents()), start, i, value)
      {
        if value {
          Mark(start + i);
        } else {
          Reset(start + i);
        }
        i := i + 1;
      }
    }

    /** bitmap_contains */
    method Contains(start: nat, cnt: nat, value: bool) returns (r: bool)
      requires Valid() && start + cnt <= bitCnt
      ensures r <==> !IsRun(Contents(), start, cnt, !value)
    {
      var i := 0;
      while i < cnt
        invariant 0 <= i <= cnt
        invariant forall k :: start <= k < start + i ==> Contents()[k] == !value
      {
        var b := Test(start + i);
        if b == value {
          return true;
        }
        i := i + 1;
      }
      return false;
    }

    /** bitmap_scan; None stands for BITMAP_ERROR. */
    method Scan(start: nat, cnt: nat, value: bool) returns (r: Option<nat>)
      requires Valid() && start <= bitCnt
      ensures r == FirstRun(Contents(), start, cnt, value)
    {
      if cnt <= bitCnt {
        var last := bitCnt - cnt;
        var i := start;
        while i <= last
          invariant start <= i
          invariant FirstRun(Contents(), start, cnt, value) == FirstRun(Contents(), i, cnt, value)
        {
          var b := Contains(i, cnt, !value);
          if !b {
            return Some(i);
          }
          i := i + 1;
        }
      }
      return None;
    }

    /** bitmap_scan_and_flip */
    method ScanAndFlip(start: nat, cnt: nat, value: bool) returns (r: Option<nat>)
      requires Valid() && start <= bitCnt
      modifies bits
      ensures r == FirstRun(old(Contents()), start, cnt, value)
      ensures Contents() == Flipped(old(Contents()), start, cnt, value)
    {
      r := Scan(start, cnt, value);
      if r.Some? {
        SetMultiple(r.value, cnt, !value);
      }
    }
  }
}
