/** Bytes and null-terminated strings, from lib/string.c. */
module CString {
  type Byte = x: int | 0 <= x < 256

  type Text = seq<Byte>

  /** The C string in MEM at OFS, without its terminator. */
  function StringAt(mem: Text, ofs: nat): (r: Text)
    requires ofs <= |mem|
    ensures ofs + |r| <= |mem|
    decreases |mem| - ofs
  {
    if ofs == |mem| || mem[ofs] == 0 then [] else [mem[ofs]] + StringAt(mem, ofs + 1)
  }

  /** Bytes followed by a null are the string there. */
  lemma {:induction false} StringIs(mem: Text, ofs: nat, s: Text)
    requires 0 !in s && ofs + |s| < |mem| && mem[ofs..ofs + |s|] == s && mem[ofs + |s|] == 0
    ensures StringAt(mem, ofs) == s
    decreases |s|
  {
    if s != [] {
      assert mem[ofs] == mem[ofs..ofs + |s|][0] == s[0];
      assert mem[ofs + 1..ofs + 1 + |s[1..]|] == s[1..] by {
        assert mem[ofs..ofs + |s|][1..] == mem[ofs + 1..ofs + |s|];
      }
      StringIs(mem, ofs + 1, s[1..]);
    }
  }

  lemma {:induction false} StringTail(mem: Text, ofs: nat, k: nat)
    requires ofs <= |mem| && k <= |StringAt(mem, ofs)|
    ensures StringAt(mem, ofs + k) == StringAt(mem, ofs)[k..]
    decreases k
  {
    if k > 0 {
      StringTail(mem, ofs + 1, k - 1);
    }
  }

  /** The byte K places into the string, or the null that ends it. */
  lemma {:induction false} CharAt(mem: Text, ofs: nat, k: nat)
    requires ofs <= |mem| && k <= |StringAt(mem, ofs)| && ofs + |StringAt(mem, ofs)| < |mem|
    ensures if k < |StringAt(mem, ofs)| then mem[ofs + k] == StringAt(mem, ofs)[k] != 0 else mem[ofs + k] == 0
    decreases k
  {
    if k > 0 {
      CharAt(mem, ofs + 1, k - 1);
    }
  }

  lemma {:induction false} StringSame(mem: Text, other: Text, ofs: nat)
    requires ofs <= |mem| == |other| && forall k :: ofs <= k < |mem| ==> mem[k] == other[k]
    ensures StringAt(mem, ofs) == StringAt(other, ofs)
    decreases |mem| - ofs
  {
    if ofs < |mem| {
      StringSame(mem, other, ofs + 1);
    }
  }

  /** strnlen of the string in MEM at OFS */
  method Strnlen(mem: array<Byte>, ofs: nat, maxLen: nat) returns (length: nat)
    requires ofs <= mem.Length && ofs + |StringAt(mem[..], ofs)| < mem.Length
    ensures length == if |StringAt(mem[..], ofs)| < maxLen then |StringAt(mem[..], ofs)| else maxLen
  {
    hide StringAt;
    ghost var m, s := mem[..], StringAt(mem[..], ofs);
    length := 0;
    CharAt(m, ofs, length);
    while length < maxLen && mem[ofs + length] != 0
      invariant 0 <= length <= maxLen && length <= |s|
      invariant mem[ofs + length] == 0 <==> length == |s|
    {
      length := length + 1;
      CharAt(m, ofs, length);
    }
  }
}
