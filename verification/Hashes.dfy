// The 32-bit checksums of the store.  They are only ever combined by exclusive or, of which
// nothing but the laws of a group of exponent two is used.
module Hashes {
  type Hash = bv32

  function Xor(a: Hash, b: Hash): Hash { a ^ b }

  lemma {:induction false} Commutes(a: Hash, b: Hash)
    ensures Xor(a, b) == Xor(b, a)
  {
  }

  lemma {:induction false} Associates(a: Hash, b: Hash, c: Hash)
    ensures Xor(Xor(a, b), c) == Xor(a, Xor(b, c))
  {
  }

  lemma {:induction false} Zero(a: Hash)
    ensures Xor(a, 0) == a && Xor(0, a) == a
  {
  }

  lemma {:induction false} Self(a: Hash)
    ensures Xor(a, a) == 0
  {
  }

  lemma {:induction false} XorSwap(a: Hash, b: Hash, c: Hash, d: Hash)
    ensures Xor(Xor(a, b), Xor(c, d)) == Xor(Xor(a, c), Xor(b, d))
  {
    hide Xor;
    Associates(a, b, Xor(c, d));
    Associates(b, c, d);
    Commutes(b, c);
    Associates(c, b, d);
    Associates(a, c, Xor(b, d));
  }

  lemma {:induction false} Undo(a: Hash, b: Hash)
    ensures Xor(Xor(a, b), b) == a
    ensures Xor(b, Xor(b, a)) == a
  {
    hide Xor;
    Associates(a, b, b);
    Associates(b, b, a);
    Self(b);
    Zero(a);
  }

  lemma {:induction false} SameLeft(a: Hash, b: Hash, c: Hash)
    ensures Xor(a, b) == Xor(a, c) <==> b == c
    ensures Xor(b, a) == Xor(c, a) <==> b == c
  {
    hide Xor;
    Undo(b, a);
    Undo(c, a);
  }

  lemma {:induction false} NeutralIsZero(a: Hash, b: Hash)
    ensures Xor(a, b) == a <==> b == 0
  {
    hide Xor;
    Zero(a);
    SameLeft(a, b, 0);
  }

  // A hash, an odd number of times.
  function If(odd: bool, u: Hash): Hash { if odd then u else 0 }

  lemma {:induction false} IfXor(p: bool, q: bool, a: Hash, u: Hash)
    ensures Xor(Xor(a, If(p, u)), If(q, u)) == Xor(a, If(p != q, u))
    ensures Xor(If(p, u), If(q, u)) == If(p != q, u)
  {
    hide Xor;
    Associates(a, If(p, u), If(q, u));
    Self(u);
    Zero(u);
    Zero(0);
  }
}
