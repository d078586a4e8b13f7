/** Bit strings at the top of a 32-bit word. */
module WordBits {
  import opened Gf2Poly

  predicate Top(w: bv32) {
    w & 0x80000000 != 0
  }

  function Shl(w: bv32): bv32 {
    w << 1
  }

  /** The word is t followed by zeros: left shifts bring the bits of t, one after the other, to
      bit 31, and then leave nothing. */
  predicate Holds(w: bv32, t: seq<bool>)
    decreases |t|
  {
    if t == [] then w == 0 else Top(w) == t[0] && Holds(Shl(w), t[1..])
  }

  lemma ShlZero()
    ensures !Top(0) && Shl(0) == 0
  {
  }

  /** More zeros may be counted to the string. */
  lemma {:induction false} HoldsSnoc(w: bv32, t: seq<bool>)
    requires Holds(w, t)
    ensures Holds(w, t + [false])
    decreases |t|
  {
    ShlZero();
    if t == [] {
      assert Holds(0, []);
    } else {
      HoldsSnoc(Shl(w), t[1..]);
      assert (t + [false])[1..] == t[1..] + [false];
    }
  }

  lemma XorTop(w: bv32, v: bv32, x: bv32)
    requires x == w ^ v
    ensures Top(x) == (Top(w) != Top(v))
    ensures Shl(x) == Shl(w) ^ Shl(v)
  {
  }

  lemma XorZero(w: bv32, v: bv32, x: bv32)
    requires x == w ^ v && w == 0 && v == 0
    ensures x == 0
  {
  }

  lemma {:induction false} HoldsXor(w: bv32, t: seq<bool>, v: bv32, u: seq<bool>, x: bv32)
    requires |t| == |u| && Holds(w, t) && Holds(v, u)
    requires x == w ^ v
    ensures Holds(x, Xor(t, u))
    decreases |t|
  {
    if t == [] {
      XorZero(w, v, x);
    } else {
      XorTop(w, v, x);
      HoldsXor(Shl(w), t[1..], Shl(v), u[1..], Shl(x));
      assert Xor(t, u)[1..] == Xor(t[1..], u[1..]);
    }
  }

  lemma NotTop(w: bv32, v: bv32)
    requires Top(w) == Top(v) && Shl(w) == Shl(v)
    ensures w == v
  {
  }

  /** The string determines the word. */
  lemma {:induction false} HoldsWord(w: bv32, v: bv32, t: seq<bool>)
    requires Holds(w, t) && Holds(v, t)
    ensures w == v
    decreases |t|
  {
    if t != [] {
      HoldsWord(Shl(w), Shl(v), t[1..]);
      NotTop(w, v);
    }
  }

  /** The word determines the string of a given length. */
  lemma {:induction false} HoldsString(w: bv32, t: seq<bool>, u: seq<bool>)
    requires |t| == |u| && Holds(w, t) && Holds(w, u)
    ensures t == u
    decreases |t|
  {
    if t != [] {
      HoldsString(Shl(w), t[1..], u[1..]);
      assert t == [t[0]] + t[1..] && u == [u[0]] + u[1..];
    }
  }
}
