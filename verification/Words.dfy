/** Bitwise operations on 32-bit words, and what setting or clearing bits does to others. */
module Words {
  function Orl(word: bv32, mask: bv32): bv32 {
    word | mask
  }

  function Andl(word: bv32, mask: bv32): bv32 {
    word & mask
  }

  function Not(mask: bv32): bv32 {
    !mask
  }

  lemma SetOwn(word: bv32, m: bv32)
    ensures Andl(Orl(word, m), m) == m
  {
  }

  lemma SetOther(word: bv32, m: bv32, n: bv32)
    requires Andl(m, n) == 0
    ensures Andl(Orl(word, m), n) == Andl(word, n)
  {
  }

  lemma ClearOwn(word: bv32, m: bv32)
    ensures Andl(Andl(word, Not(m)), m) == 0
  {
  }

  lemma ClearOther(word: bv32, m: bv32, n: bv32)
    requires Andl(m, n) == 0
    ensures Andl(Andl(word, Not(m)), n) == Andl(word, n)
  {
  }
}
