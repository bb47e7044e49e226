/** 64-bit storage words, as used by the four-word component bitsets.
    A word is its 64 bits, lowest first; the C++ operators `|`, `&`, `~` and
    `1ULL << b` are defined bit by bit, and `WordValue` is the unsigned number
    a `uint64_t` comparison orders by. */
module BitWords {

  /** Bits in a word. */
  const WORD_BITS: nat := 64

  /** A `uint64_t`, as its bits: `w[i]` is bit `i` (weight `2^i`). */
  type Word = s: seq<bool> | |s| == WORD_BITS witness seq(64, i => false)

  /** `0` */
  function Zero(): Word
  {
    seq(WORD_BITS, i => false)
  }

  /** `1ULL << b` */
  function Mask(b: nat): (r: Word)
    requires b < WORD_BITS
  {
    seq(WORD_BITS, i => i == b)
  }

  /** `w | v` */
  function Or(w: Word, v: Word): Word
  {
    seq(WORD_BITS, i requires 0 <= i < WORD_BITS => w[i] || v[i])
  }

  /** `w & v` */
  function And(w: Word, v: Word): Word
  {
    seq(WORD_BITS, i requires 0 <= i < WORD_BITS => w[i] && v[i])
  }

  /** `~w` */
  function Not(w: Word): Word
  {
    seq(WORD_BITS, i requires 0 <= i < WORD_BITS => !w[i])
  }

  /** The C++ test `(w & (1ULL << b)) != 0` reads bit `b`. */
  lemma MaskTest(w: Word, b: nat)
    requires b < WORD_BITS
    ensures And(w, Mask(b)) != Zero() <==> w[b]
  {
    if w[b] {
      assert And(w, Mask(b))[b] != Zero()[b];
    } else {
      assert And(w, Mask(b)) == Zero();
    }
  }

  /** `(w & v) == w` holds exactly when every bit of `w` is a bit of `v`. */
  lemma SubsetWord(w: Word, v: Word)
    ensures And(w, v) == w <==> (forall i | 0 <= i < WORD_BITS :: w[i] ==> v[i])
  {
    if forall i | 0 <= i < WORD_BITS :: w[i] ==> v[i] {
      assert And(w, v) == w;
    } else {
      var i :| 0 <= i < WORD_BITS && w[i] && !v[i];
      assert And(w, v)[i] != w[i];
    }
  }

  /** `(w & v) != 0` holds exactly when some bit is set in both words. */
  lemma IntersectWord(w: Word, v: Word)
    ensures And(w, v) != Zero() <==> (exists i | 0 <= i < WORD_BITS :: w[i] && v[i])
  {
    if exists i | 0 <= i < WORD_BITS :: w[i] && v[i] {
      var i :| 0 <= i < WORD_BITS && w[i] && v[i];
      assert And(w, v)[i] != Zero()[i];
    } else {
      assert And(w, v) == Zero();
    }
  }

  /** A word is zero exactly when none of its bits is set. */
  lemma ZeroWord(w: Word)
    ensures w == Zero() <==> (forall i | 0 <= i < WORD_BITS :: !w[i])
  {
    if forall i | 0 <= i < WORD_BITS :: !w[i] {
      assert w == Zero();
    }
  }

  /** `std::popcount`: the number of set bits. */
  function PopCount(bs: seq<bool>): (r: nat)
    ensures r <= |bs|
  {
    if bs == [] then 0 else PopCount(bs[..|bs| - 1]) + (if bs[|bs| - 1] then 1 else 0)
  }

  /** `2^n` */
  function Pow2(n: nat): (r: nat)
    ensures r >= 1
  {
    if n == 0 then 1 else 2 * Pow2(n - 1)
  }

  /** The number a little-endian bit string stands for. */
  function BinaryValue(bs: seq<bool>): nat
  {
    if bs == [] then 0 else BinaryValue(bs[..|bs| - 1]) + (if bs[|bs| - 1] then Pow2(|bs| - 1) else 0)
  }

  /** The unsigned value of a word, the number a `uint64_t` comparison orders by. */
  function WordValue(w: Word): (r: nat)
    ensures r < Pow2(WORD_BITS)
  {
    BinaryValueBound(w);
    BinaryValue(w)
  }

  /** `n` bits make a number below `2^n`. */
  lemma {:induction false} BinaryValueBound(bs: seq<bool>)
    ensures BinaryValue(bs) < Pow2(|bs|)
  {
    if bs != [] {
      BinaryValueBound(bs[..|bs| - 1]);
    }
  }

  /** A digit worth `p` on top of a remainder below `p` is determined by the sum. */
  lemma PlaceValue(a: nat, b: nat, p: nat, da: bool, db: bool)
    requires a < p && b < p
    requires a + (if da then p else 0) == b + (if db then p else 0)
    ensures da == db && a == b
  {
  }

  /** Bit strings of one length with the same value are the same; so
      different words have different values and comparing values orders
      words totally. */
  lemma {:induction false} BinaryValueInjective(xs: seq<bool>, ys: seq<bool>)
    requires |xs| == |ys| && BinaryValue(xs) == BinaryValue(ys)
    ensures xs == ys
  {
    if xs != [] {
      var n := |xs| - 1;
      BinaryValueBound(xs[..n]);
      BinaryValueBound(ys[..n]);
      PlaceValue(BinaryValue(xs[..n]), BinaryValue(ys[..n]), Pow2(n), xs[n], ys[n]);
      BinaryValueInjective(xs[..n], ys[..n]);
      assert xs == xs[..n] + [xs[n]] && ys == ys[..n] + [ys[n]];
    }
  }
}
