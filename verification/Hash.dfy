/** Bob Jenkins' hash over 32-bit words. */
module Hash {
  import opened Common

  const M: int := 0x1_0000_0000

  // ub1
  type U8 = n: int | 0 <= n < 256

  datatype Words = Words(a: U32, b: U32, c: U32)

  const GOLDEN: U32 := 0x9e3779b9

  // ---------- the operators on 32-bit words ----------

  function Less(x: U32, y: U32): U32 {
    (x - y) % M
  }

  function Plus(x: U32, y: U32): U32 {
    (x + y) % M
  }

  /** Exclusive or of the last `n` bits. */
  function XorBits(x: nat, y: nat, n: nat): (r: nat)
    ensures r < Pow2(n)
  {
    if n == 0 then 0
    else 2 * XorBits(x / 2, y / 2, n - 1) + if x % 2 == y % 2 then 0 else 1
  }

  function Xor(x: U32, y: U32): U32 {
    WordSize();
    XorBits(x, y, 32)
  }

  function Right(x: U32, n: nat): U32 {
    if n == 0 then x else Right(x / 2, n - 1)
  }

  function Left(x: U32, n: nat): U32
    decreases n
  {
    if n == 0 then x else Left(x * 2 % M, n - 1)
  }

  lemma WordSize()
    ensures Pow2(32) == M
  {
    assert Pow2(8) == 256 && Pow2(16) == 256 * Pow2(8) && Pow2(24) == 256 * Pow2(16);
  }

  lemma {:induction false} XorBitsTwice(x: nat, y: nat, n: nat)
    requires x < Pow2(n)
    ensures XorBits(XorBits(x, y, n), y, n) == x
  {
    if n > 0 {
      XorBitsTwice(x / 2, y / 2, n - 1);
    }
  }

  lemma XorTwice(x: U32, y: U32)
    ensures Xor(Xor(x, y), y) == x
  {
    WordSize();
    XorBitsTwice(x, y, 32);
  }

  lemma LessPlus(x: U32, y: U32)
    ensures Plus(Less(x, y), y) == x
    ensures Less(Plus(x, y), y) == x
  {
  }

  // ---------- mix, line by line ----------

  /** One line of mix changes the word `x` by the other two and by a shifted one: x -= y; x -= z;
    * x ^= shifted. */
  function Line(x: U32, y: U32, z: U32, shifted: U32): U32 {
    Xor(Less(Less(x, y), z), shifted)
  }

  function Unline(x: U32, y: U32, z: U32, shifted: U32): U32 {
    Plus(Plus(Xor(x, shifted), z), y)
  }

  lemma LineUndone(x: U32, y: U32, z: U32, shifted: U32)
    ensures Unline(Line(x, y, z, shifted), y, z, shifted) == x
    ensures Line(Unline(x, y, z, shifted), y, z, shifted) == x
  {
    hide Xor;
    hide Less;
    hide Plus;
    XorTwice(Less(Less(x, y), z), shifted);
    LessPlus(Less(x, y), z);
    LessPlus(x, y);
    XorTwice(x, shifted);
    LessPlus(Xor(x, shifted), z);
    LessPlus(Plus(Xor(x, shifted), z), y);
  }

  /** Three lines of mix, with their shifts. */
  function Round(w: Words, p: nat, q: nat, r: nat): Words {
    var a := Line(w.a, w.b, w.c, Right(w.c, p));
    var b := Line(w.b, w.c, a, Left(a, q));
    var c := Line(w.c, a, b, Right(b, r));
    Words(a, b, c)
  }

  function Unround(w: Words, p: nat, q: nat, r: nat): Words {
    var c := Unline(w.c, w.a, w.b, Right(w.b, r));
    var b := Unline(w.b, c, w.a, Left(w.a, q));
    var a := Unline(w.a, b, c, Right(c, p));
    Words(a, b, c)
  }

  lemma RoundUndone(w: Words, p: nat, q: nat, r: nat)
    ensures Unround(Round(w, p, q, r), p, q, r) == w
    ensures Round(Unround(w, p, q, r), p, q, r) == w
  {
    hide Line;
    hide Unline;
    hide Right;
    hide Left;
    var t := Round(w, p, q, r);
    LineUndone(w.c, t.a, t.b, Right(t.b, r));
    LineUndone(w.b, w.c, t.a, Left(t.a, q));
    LineUndone(w.a, w.b, w.c, Right(w.c, p));
    var u := Unround(w, p, q, r);
    LineUndone(w.c, w.a, w.b, Right(w.b, r));
    LineUndone(w.b, u.c, w.a, Left(w.a, q));
    LineUndone(w.a, u.b, u.c, Right(u.c, p));
  }

  function Mix(w: Words): Words {
    Round(Round(Round(w, 13, 8, 13), 12, 16, 5), 3, 10, 15)
  }

  function Unmix(w: Words): Words {
    Unround(Unround(Unround(w, 3, 10, 15), 12, 16, 5), 13, 8, 13)
  }

  /** Mixing is a bijection on triples of words. */
  lemma MixIsBijection(w: Words)
    ensures Unmix(Mix(w)) == w && Mix(Unmix(w)) == w
  {
    hide Round;
    hide Unround;
    var w1 := Round(w, 13, 8, 13);
    var w2 := Round(w1, 12, 16, 5);
    RoundUndone(w, 13, 8, 13);
    RoundUndone(w1, 12, 16, 5);
    RoundUndone(w2, 3, 10, 15);
    var u1 := Unround(w, 3, 10, 15);
    var u2 := Unround(u1, 12, 16, 5);
    RoundUndone(w, 3, 10, 15);
    RoundUndone(u1, 12, 16, 5);
    RoundUndone(u2, 13, 8, 13);
  }

  // ---------- taking in a key ----------

  /** A byte moved up by `n` bits. */
  function At(k: U8, n: nat): U32
    requires n == 0 || n == 8 || n == 16 || n == 24
  {
    if n == 24 then k * 0x100_0000
    else if n == 16 then k * 0x1_0000
    else if n == 8 then k * 0x100
    else k
  }

  /** Four bytes as one word, the first the least significant. */
  function Word(k0: U8, k1: U8, k2: U8, k3: U8): U32 {
    Plus(Plus(Plus(At(k0, 0), At(k1, 8)), At(k2, 16)), At(k3, 24))
  }

  lemma PlusSmall(x: U32, y: U32)
    requires x + y < M
    ensures Plus(x, y) == x + y
  {
  }

  lemma WordIsSum(k0: U8, k1: U8, k2: U8, k3: U8)
    ensures Word(k0, k1, k2, k3) == k0 + 0x100 * k1 + 0x1_0000 * k2 + 0x100_0000 * k3
  {
    hide Plus;
    PlusSmall(At(k0, 0), At(k1, 8));
    PlusSmall(k0 + 0x100 * k1, At(k2, 16));
    PlusSmall(k0 + 0x100 * k1 + 0x1_0000 * k2, At(k3, 24));
  }

  lemma LowByte(k: U8, r: int, m: U8, s: int)
    requires k + 0x100 * r == m + 0x100 * s
    ensures k == m && r == s
  {
  }

  /** Different bytes make different words. */
  lemma WordIsInjective(k0: U8, k1: U8, k2: U8, k3: U8, m0: U8, m1: U8, m2: U8, m3: U8)
    requires Word(k0, k1, k2, k3) == Word(m0, m1, m2, m3)
    ensures k0 == m0 && k1 == m1 && k2 == m2 && k3 == m3
  {
    hide Word;
    WordIsSum(k0, k1, k2, k3);
    WordIsSum(m0, m1, m2, m3);
    LowByte(k0, k1 + 0x100 * k2 + 0x1_0000 * k3, m0, m1 + 0x100 * m2 + 0x1_0000 * m3);
    LowByte(k1, k2 + 0x100 * k3, m1, m2 + 0x100 * m3);
    LowByte(k2, k3, m2, m3);
  }

  lemma PlusCancels(x: U32, y: U32, z: U32)
    requires Plus(x, z) == Plus(y, z)
    ensures x == y
  {
    LessPlusBack(x, z);
    LessPlusBack(y, z);
  }

  lemma LessPlusBack(x: U32, z: U32)
    ensures Less(Plus(x, z), z) == x
  {
    LessPlus(x, z);
  }

  lemma PlusSwaps(x: U32, y: U32)
    ensures Plus(x, y) == Plus(y, x)
  {
  }

  lemma PlusCancelsLeft(x: U32, y: U32, z: U32)
    requires Plus(x, y) == Plus(x, z)
    ensures y == z
  {
    hide Plus;
    PlusSwaps(x, y);
    PlusSwaps(x, z);
    PlusCancels(y, z, x);
  }

  type Key = k: seq<U8> | |k| < M

  /** A whole block of 12 bytes: added in, then mixed. */
  function Added(w: Words, k: seq<U8>): Words
    requires |k| >= 12
  {
    Words(
      Plus(w.a, Word(k[0], k[1], k[2], k[3])),
      Plus(w.b, Word(k[4], k[5], k[6], k[7])),
      Plus(w.c, Word(k[8], k[9], k[10], k[11])))
  }

  /** One case of the switch over the last bytes. */
  function Put(x: U32, k: seq<U8>, i: nat, n: nat): U32
    requires n == 0 || n == 8 || n == 16 || n == 24
  {
    if i < |k| then Plus(x, At(k[i], n)) else x
  }

  function PutThree(x: U32, k: seq<U8>, i: nat): U32 {
    Put(Put(Put(x, k, i + 2, 24), k, i + 1, 16), k, i, 8)
  }

  /** The length and the last bytes; the first byte of c is reserved for the length. */
  function AddedTail(w: Words, k: seq<U8>, length: U32): Words {
    Words(
      Put(PutThree(w.a, k, 1), k, 0, 0),
      Put(PutThree(w.b, k, 5), k, 4, 0),
      PutThree(Plus(w.c, length), k, 8))
  }

  /** The three words after all of `k`. */
  function Hashed(w: Words, k: seq<U8>, length: U32): Words
    decreases |k|
  {
    if |k| >= 12 then Hashed(Mix(Added(w, k)), k[12..], length) else Mix(AddedTail(w, k, length))
  }

  function Final(k: Key, seed: U32): Words {
    Hashed(Words(GOLDEN, GOLDEN, seed), k, |k|)
  }

  // ---------- nothing is lost on the way ----------

  lemma MixIsInjective(v: Words, w: Words)
    ensures Mix(v) == Mix(w) <==> v == w
  {
    hide Mix;
    hide Unmix;
    MixIsBijection(v);
    MixIsBijection(w);
  }

  lemma AddedCancels(v: Words, w: Words, k: seq<U8>)
    requires |k| >= 12 && Added(v, k) == Added(w, k)
    ensures v == w
  {
    hide Word;
    hide Plus;
    PlusCancels(v.a, w.a, Word(k[0], k[1], k[2], k[3]));
    PlusCancels(v.b, w.b, Word(k[4], k[5], k[6], k[7]));
    PlusCancels(v.c, w.c, Word(k[8], k[9], k[10], k[11]));
  }

  lemma PutCancels(x: U32, y: U32, k: seq<U8>, i: nat, n: nat)
    requires n == 0 || n == 8 || n == 16 || n == 24
    requires Put(x, k, i, n) == Put(y, k, i, n)
    ensures x == y
  {
    hide Plus;
    hide At;
    if i < |k| {
      PlusCancels(x, y, At(k[i], n));
    }
  }

  lemma PutThreeCancels(x: U32, y: U32, k: seq<U8>, i: nat)
    requires PutThree(x, k, i) == PutThree(y, k, i)
    ensures x == y
  {
    hide Put;
    var x1, y1 := Put(x, k, i + 2, 24), Put(y, k, i + 2, 24);
    PutCancels(Put(x1, k, i + 1, 16), Put(y1, k, i + 1, 16), k, i, 8);
    PutCancels(x1, y1, k, i + 1, 16);
    PutCancels(x, y, k, i + 2, 24);
  }

  lemma AddedTailCancels(v: Words, w: Words, k: seq<U8>, length: U32)
    requires AddedTail(v, k, length) == AddedTail(w, k, length)
    ensures v == w
  {
    hide Put;
    hide PutThree;
    hide Plus;
    PutCancels(PutThree(v.a, k, 1), PutThree(w.a, k, 1), k, 0, 0);
    PutThreeCancels(v.a, w.a, k, 1);
    PutCancels(PutThree(v.b, k, 5), PutThree(w.b, k, 5), k, 4, 0);
    PutThreeCancels(v.b, w.b, k, 5);
    PutThreeCancels(Plus(v.c, length), Plus(w.c, length), k, 8);
    PlusCancels(v.c, w.c, length);
  }

  /** From different words, the same bytes lead to different words, however many blocks follow. */
  lemma {:induction false} StateIsKept(v: Words, w: Words, k: seq<U8>, length: U32)
    ensures Hashed(v, k, length) == Hashed(w, k, length) <==> v == w
    decreases |k|
  {
    hide Mix;
    hide Added;
    hide AddedTail;
    if |k| >= 12 {
      StateIsKept(Mix(Added(v, k)), Mix(Added(w, k)), k[12..], length);
      MixIsInjective(Added(v, k), Added(w, k));
      if Added(v, k) == Added(w, k) {
        AddedCancels(v, w, k);
      }
    } else {
      MixIsInjective(AddedTail(v, k, length), AddedTail(w, k, length));
      if AddedTail(v, k, length) == AddedTail(w, k, length) {
        AddedTailCancels(v, w, k, length);
      }
    }
  }

  lemma AddedTellsApart(w: Words, k: seq<U8>, m: seq<U8>)
    requires |k| >= 12 && |m| >= 12 && Added(w, k) == Added(w, m)
    ensures k[..12] == m[..12]
  {
    hide Word;
    hide Plus;
    PlusCancelsLeft(w.a, Word(k[0], k[1], k[2], k[3]), Word(m[0], m[1], m[2], m[3]));
    PlusCancelsLeft(w.b, Word(k[4], k[5], k[6], k[7]), Word(m[4], m[5], m[6], m[7]));
    PlusCancelsLeft(w.c, Word(k[8], k[9], k[10], k[11]), Word(m[8], m[9], m[10], m[11]));
    WordIsInjective(k[0], k[1], k[2], k[3], m[0], m[1], m[2], m[3]);
    WordIsInjective(k[4], k[5], k[6], k[7], m[4], m[5], m[6], m[7]);
    WordIsInjective(k[8], k[9], k[10], k[11], m[8], m[9], m[10], m[11]);
  }

  function Byte(k: seq<U8>, i: nat): U8 {
    if i < |k| then k[i] else 0
  }

  lemma PlusZero(x: U32, n: nat)
    requires n == 0 || n == 8 || n == 16 || n == 24
    ensures Plus(x, At(0, n)) == x
  {
  }

  lemma PutIsPlus(x: U32, k: seq<U8>, i: nat, n: nat)
    requires n == 0 || n == 8 || n == 16 || n == 24
    ensures Put(x, k, i, n) == Plus(x, At(Byte(k, i), n))
  {
    hide Plus;
    hide At;
    PlusZero(x, n);
  }

  lemma PlusGroups(x: U32, p: U32, q: U32, r: U32, s: U32)
    ensures Plus(Plus(Plus(Plus(x, p), q), r), s) == Plus(x, Plus(Plus(Plus(s, r), q), p))
  {
    hide Plus;
    PlusSwaps(s, r);
    PlusAssoc(Plus(Plus(x, p), q), r, s);
    PlusAssoc(Plus(x, p), q, Plus(r, s));
    PlusAssoc(x, p, Plus(q, Plus(r, s)));
    PlusSwaps(q, Plus(r, s));
    PlusSwaps(p, Plus(q, Plus(r, s)));
  }

  lemma PlusAssoc(x: U32, y: U32, z: U32)
    ensures Plus(Plus(x, y), z) == Plus(x, Plus(y, z))
  {
  }

  /** Four bytes put one by one add up to their word. */
  lemma PutsAreWord(x: U32, k: seq<U8>, i: nat)
    ensures Put(PutThree(x, k, i + 1), k, i, 0) ==
      Plus(x, Word(Byte(k, i), Byte(k, i + 1), Byte(k, i + 2), Byte(k, i + 3)))
  {
    hide Plus;
    hide Put;
    hide At;
    hide Byte;
    var x3 := Put(x, k, i + 3, 24);
    var x2 := Put(x3, k, i + 2, 16);
    var x1 := Put(x2, k, i + 1, 8);
    PutIsPlus(x, k, i + 3, 24);
    PutIsPlus(x3, k, i + 2, 16);
    PutIsPlus(x2, k, i + 1, 8);
    PutIsPlus(x1, k, i, 0);
    PlusGroups(x, At(Byte(k, i + 3), 24), At(Byte(k, i + 2), 16), At(Byte(k, i + 1), 8), At(Byte(k, i), 0));
  }

  lemma PutsTellApart(x: U32, k: seq<U8>, m: seq<U8>, i: nat)
    requires Put(PutThree(x, k, i + 1), k, i, 0) == Put(PutThree(x, m, i + 1), m, i, 0)
    ensures forall j :: i <= j < i + 4 ==> Byte(k, j) == Byte(m, j)
  {
    hide Put;
    hide PutThree;
    hide Plus;
    hide Word;
    hide Byte;
    PutsAreWord(x, k, i);
    PutsAreWord(x, m, i);
    PlusCancelsLeft(x, Word(Byte(k, i), Byte(k, i + 1), Byte(k, i + 2), Byte(k, i + 3)),
      Word(Byte(m, i), Byte(m, i + 1), Byte(m, i + 2), Byte(m, i + 3)));
    WordIsInjective(Byte(k, i), Byte(k, i + 1), Byte(k, i + 2), Byte(k, i + 3),
      Byte(m, i), Byte(m, i + 1), Byte(m, i + 2), Byte(m, i + 3));
  }

  /** The last three bytes leave the lowest one of their word alone: as if they came after a byte
    * that both keys share. */
  lemma PutThreeTellsApart(x: U32, k: seq<U8>, m: seq<U8>, i: nat)
    requires i > 0 && |k| == |m| && PutThree(x, k, i) == PutThree(x, m, i)
    requires i <= |k| ==> k[i - 1] == m[i - 1]
    ensures forall j :: i <= j < i + 3 ==> Byte(k, j) == Byte(m, j)
  {
    var y := PutThree(x, k, i);
    assert Put(y, k, i - 1, 0) == Put(y, m, i - 1, 0) by {
      hide Plus;
      hide PutThree;
    }
    hide *;
    PutsTellApart(x, k, m, i - 1);
  }

  lemma TailTellsApart(w: Words, k: seq<U8>, m: seq<U8>, length: U32)
    requires |k| == |m| < 12 && AddedTail(w, k, length) == AddedTail(w, m, length)
    ensures k == m
  {
    hide Put;
    hide PutThree;
    hide Plus;
    PutsTellApart(w.a, k, m, 0);
    PutsTellApart(w.b, k, m, 4);
    forall i | 0 <= i < |k| && i < 8 ensures k[i] == m[i] {
      assert Byte(k, i) == Byte(m, i);
    }
    PutThreeTellsApart(Plus(w.c, length), k, m, 8);
    forall i | 0 <= i < |k| ensures k[i] == m[i] {
      assert Byte(k, i) == Byte(m, i);
    }
  }

  /** The keys agree outside one block, or outside the last incomplete one. */
  predicate DifferInBlock(k: seq<U8>, m: seq<U8>, j: nat) {
    && |k| == |m| && 12 * j <= |k|
    && forall i :: 0 <= i < |k| && !(12 * j <= i < 12 * j + 12) ==> k[i] == m[i]
  }

  lemma {:induction false} BlockTellsApart(w: Words, k: seq<U8>, m: seq<U8>, j: nat, length: U32)
    requires DifferInBlock(k, m, j)
    ensures Hashed(w, k, length) == Hashed(w, m, length) <==> k == m
    decreases |k|
  {
    hide Mix;
    hide Added;
    hide AddedTail;
    if |k| < 12 {
      MixIsInjective(AddedTail(w, k, length), AddedTail(w, m, length));
      if AddedTail(w, k, length) == AddedTail(w, m, length) {
        TailTellsApart(w, k, m, length);
      }
    } else {
      assert k == k[..12] + k[12..] && m == m[..12] + m[12..];
      if j == 0 {
        assert k[12..] == m[12..];
        StateIsKept(Mix(Added(w, k)), Mix(Added(w, m)), k[12..], length);
        MixIsInjective(Added(w, k), Added(w, m));
        if Added(w, k) == Added(w, m) {
          AddedTellsApart(w, k, m);
        }
      } else {
        SameFront(w, k, m);
        BlockTellsApart(Mix(Added(w, k)), k[12..], m[12..], j - 1, length);
      }
    }
  }

  lemma SameFront(w: Words, k: seq<U8>, m: seq<U8>)
    requires |k| >= 12 && |m| >= 12 && forall i :: 0 <= i < 12 ==> k[i] == m[i]
    ensures Added(w, k) == Added(w, m)
  {
    hide Word;
    hide Plus;
  }

  /** Two keys of the same length that differ only inside one block of 12 bytes, or only in the
    * bytes after the last whole block, never leave the hash in the same three words. */
  lemma {:induction false} OneBlockIsTold(k: Key, m: Key, j: nat, seed: U32)
    requires DifferInBlock(k, m, j)
    ensures Final(k, seed) == Final(m, seed) <==> k == m
  {
    BlockTellsApart(Words(GOLDEN, GOLDEN, seed), k, m, j, |k|);
  }

  // ---------- the same in plain arithmetic ----------

  function Bit(x: nat, i: nat): nat {
    x / Pow2(i) % 2
  }

  lemma Quotient(x: nat, p: nat, q: nat, d: nat)
    requires d > 0 && q * d + p == x && p < d
    ensures x / d == q
  {
    var e := x / d - q;
    assert e * d == p - x % d;
    assert e < 1 by { if e >= 1 { AtLeast(e, d); assert false; } }
    assert -e < 1 by { if -e >= 1 { AtLeast(-e, d); assert false; } }
  }

  lemma AtLeast(e: int, d: nat)
    requires e >= 1
    ensures e * d >= d
  {
  }

  lemma HalvesFirst(x: nat, p: nat)
    requires p > 0
    ensures x / 2 / p == x / (2 * p)
  {
    var q, r := x / 2 / p, x / 2 % p;
    assert x / 2 == q * p + r;
    assert x == q * (2 * p) + (2 * r + x % 2);
    Quotient(x, 2 * r + x % 2, q, 2 * p);
  }

  lemma BitOfHalf(x: nat, i: nat)
    requires i > 0
    ensures Bit(x, i) == Bit(x / 2, i - 1)
  {
    HalvesFirst(x, Pow2(i - 1));
  }

  lemma {:induction false} XorBitsBit(x: nat, y: nat, n: nat, i: nat)
    requires i < n
    ensures Bit(XorBits(x, y, n), i) == if Bit(x, i) == Bit(y, i) then 0 else 1
  {
    var z := XorBits(x, y, n);
    if i > 0 {
      assert z / 2 == XorBits(x / 2, y / 2, n - 1);
      XorBitsBit(x / 2, y / 2, n - 1, i - 1);
      BitOfHalf(x, i);
      BitOfHalf(y, i);
      BitOfHalf(z, i);
    } else {
      assert Bit(z, 0) == z % 2 && Bit(x, 0) == x % 2 && Bit(y, 0) == y % 2;
    }
  }

  /** Exclusive or works bit by bit. */
  lemma {:induction false} XorIsBitwise(x: U32, y: U32, i: nat)
    requires i < 32
    ensures Bit(Xor(x, y), i) == if Bit(x, i) == Bit(y, i) then 0 else 1
  {
    XorBitsBit(x, y, 32, i);
  }

  /** A shift to the right divides by a power of two. */
  lemma {:induction false} RightDivides(x: U32, n: nat)
    ensures Right(x, n) == x / Pow2(n)
  {
    if n > 0 {
      RightDivides(x / 2, n - 1);
      HalvesFirst(x, Pow2(n - 1));
    }
  }

  lemma SumTimes(q: nat, r: nat, p: nat)
    ensures (q * M + r) * p == q * p * M + r * p
  {
  }

  lemma TwiceTimes(x: nat, p: nat)
    ensures x * (2 * p) == x * 2 * p
  {
  }

  lemma WholeTimes(n: nat, y: nat)
    ensures (n * M + y) % M == y % M
  {
  }

  lemma LeftStep(x: U32, p: nat)
    ensures (x * 2 % M) * p % M == x * (2 * p) % M
  {
    var q, r := x * 2 / M, x * 2 % M;
    TwiceTimes(x, p);
    SumTimes(q, r, p);
    WholeTimes(q * p, r * p);
  }

  /** A shift to the left multiplies by a power of two, as far as the word reaches. */
  lemma {:induction false} LeftMultiplies(x: U32, n: nat)
    ensures Left(x, n) == x * Pow2(n) % M
    decreases n
  {
    if n > 0 {
      LeftMultiplies(x * 2 % M, n - 1);
      LeftStep(x, Pow2(n - 1));
    }
  }

  /** Two words taken off a third. */
  function Diff(x: U32, y: U32, z: U32): U32 {
    (x - y - z) % M
  }

  lemma PlainLine(x: U32, y: U32, z: U32, shifted: U32)
    ensures Line(x, y, z, shifted) == Xor(Diff(x, y, z), shifted)
  {
    hide Xor;
  }

  lemma LineRight(x: U32, y: U32, z: U32, n: nat, d: nat)
    requires d == Pow2(n)
    ensures Right(z, n) == z / d && Line(x, y, z, Right(z, n)) == Xor(Diff(x, y, z), Right(z, n))
  {
    hide Line;
    hide Right;
    hide Xor;
    RightDivides(z, n);
    PlainLine(x, y, z, Right(z, n));
  }

  lemma LineLeft(x: U32, y: U32, z: U32, n: nat, d: nat)
    requires d == Pow2(n)
    ensures Line(x, y, z, Left(z, n)) == Xor(Diff(x, y, z), z * d % M)
  {
    hide Line;
    hide Left;
    hide Xor;
    LeftMultiplies(z, n);
    PlainLine(x, y, z, Left(z, n));
  }

  lemma Powers()
    ensures Pow2(3) == 8 && Pow2(5) == 0x20 && Pow2(8) == 0x100 && Pow2(10) == 0x400 && Pow2(12) == 0x1000
    ensures Pow2(13) == 0x2000 && Pow2(15) == 0x8000 && Pow2(16) == 0x1_0000
  {
  }

  /** The nine lines of mix, with the shifts as divisions and multiplications. */
  lemma MixIsPlain(w: Words)
    ensures
      var a := Xor(Diff(w.a, w.b, w.c), w.c / 0x2000);
      var b := Xor(Diff(w.b, w.c, a), a * 0x100 % M);
      var c := Xor(Diff(w.c, a, b), b / 0x2000);
      var a1 := Xor(Diff(a, b, c), c / 0x1000);
      var b1 := Xor(Diff(b, c, a1), a1 * 0x1_0000 % M);
      var c1 := Xor(Diff(c, a1, b1), b1 / 0x20);
      var a2 := Xor(Diff(a1, b1, c1), c1 / 8);
      var b2 := Xor(Diff(b1, c1, a2), a2 * 0x400 % M);
      Mix(w) == Words(a2, b2, Xor(Diff(c1, a2, b2), b2 / 0x8000))
  {
    Powers();
    hide Pow2;
    hide Xor;
    hide Diff;
    hide Line;
    hide Right;
    hide Left;
    var w1, w2, w3 := Round(w, 13, 8, 13), Round(Round(w, 13, 8, 13), 12, 16, 5), Mix(w);
    LineRight(w.a, w.b, w.c, 13, 0x2000);
    LineLeft(w.b, w.c, w1.a, 8, 0x100);
    LineRight(w.c, w1.a, w1.b, 13, 0x2000);
    LineRight(w1.a, w1.b, w1.c, 12, 0x1000);
    LineLeft(w1.b, w1.c, w2.a, 16, 0x1_0000);
    LineRight(w1.c, w2.a, w2.b, 5, 0x20);
    LineRight(w2.a, w2.b, w2.c, 3, 8);
    LineLeft(w2.b, w2.c, w3.a, 10, 0x400);
    LineRight(w2.c, w3.a, w3.b, 15, 0x8000);
  }

  /** Four bytes of the key from number `i` on, as a little-endian word; past the end there are zeros. */
  function WordAt(k: seq<U8>, i: nat): U32 {
    Byte(k, i) + 0x100 * Byte(k, i + 1) + 0x1_0000 * Byte(k, i + 2) + 0x100_0000 * Byte(k, i + 3)
  }

  /** The words that the key starts from: twice the golden ratio, 2 to the 32 over 1.618..., and the
    * caller's value. */
  lemma HashStarts(k: Key, seed: U32) returns (golden: U32)
    ensures golden * (golden + M) <= M * M < (golden + 1) * (golden + 1 + M)
    ensures Final(k, seed) == Hashed(Words(golden, golden, seed), k, |k|)
  {
    golden := 0x9e3779b9;
  }

  /** A whole block is added as three words, then mixed. */
  lemma HashTakesBlock(w: Words, k: seq<U8>, length: U32)
    requires |k| >= 12
    ensures Hashed(w, k, length) ==
      Hashed(Mix(Words((w.a + WordAt(k, 0)) % M, (w.b + WordAt(k, 4)) % M, (w.c + WordAt(k, 8)) % M)), k[12..], length)
  {
    hide Mix;
    hide Word;
    WordIsSum(k[0], k[1], k[2], k[3]);
    WordIsSum(k[4], k[5], k[6], k[7]);
    WordIsSum(k[8], k[9], k[10], k[11]);
  }

  lemma PlusThree(x: U32, p: U32, q: U32, r: U32)
    ensures Plus(Plus(Plus(x, p), q), r) == (x + p + q + r) % M
  {
  }

  lemma PutThreeIsSum(x: U32, k: seq<U8>, i: nat)
    ensures PutThree(x, k, i) ==
      (x + 0x100 * Byte(k, i) + 0x1_0000 * Byte(k, i + 1) + 0x100_0000 * Byte(k, i + 2)) % M
  {
    hide Put;
    hide Byte;
    hide Plus;
    PlusThree(x, At(Byte(k, i + 2), 24), At(Byte(k, i + 1), 16), At(Byte(k, i), 8));
    var x2 := Put(x, k, i + 2, 24);
    var x1 := Put(x2, k, i + 1, 16);
    PutIsPlus(x, k, i + 2, 24);
    PutIsPlus(x2, k, i + 1, 16);
    PutIsPlus(x1, k, i, 8);
  }

  /** The rest is added in the same way, except that the third word takes the length and, above its
    * lowest byte, the last three bytes; then all is mixed once more. */
  lemma HashTakesRest(w: Words, k: seq<U8>, length: U32)
    requires |k| < 12
    ensures
      var last := 0x100 * Byte(k, 8) + 0x1_0000 * Byte(k, 9) + 0x100_0000 * Byte(k, 10);
      Hashed(w, k, length) ==
        Mix(Words((w.a + WordAt(k, 0)) % M, (w.b + WordAt(k, 4)) % M, (w.c + length + last) % M))
  {
    hide Mix;
    hide Word;
    hide Put;
    hide PutThree;
    hide Byte;
    PutsAreWord(w.a, k, 0);
    PutsAreWord(w.b, k, 4);
    WordIsSum(Byte(k, 0), Byte(k, 1), Byte(k, 2), Byte(k, 3));
    WordIsSum(Byte(k, 4), Byte(k, 5), Byte(k, 6), Byte(k, 7));
    var last := 0x100 * Byte(k, 8) + 0x1_0000 * Byte(k, 9) + 0x100_0000 * Byte(k, 10);
    PutThreeIsSum(Plus(w.c, length), k, 8);
    assert (Plus(w.c, length) + last) % M == (w.c + length + last) % M;
  }

  // ---------- the code ----------

  method MixInPlace(a0: U32, b0: U32, c0: U32) returns (a: U32, b: U32, c: U32)
    ensures Words(a, b, c) == Mix(Words(a0, b0, c0))
  {
    hide Less;
    hide Xor;
    hide Right;
    hide Left;
    a, b, c := a0, b0, c0;
    a := Less(a, b); a := Less(a, c); a := Xor(a, Right(c, 13));
    b := Less(b, c); b := Less(b, a); b := Xor(b, Left(a, 8));
    c := Less(c, a); c := Less(c, b); c := Xor(c, Right(b, 13));
    a := Less(a, b); a := Less(a, c); a := Xor(a, Right(c, 12));
    b := Less(b, c); b := Less(b, a); b := Xor(b, Left(a, 16));
    c := Less(c, a); c := Less(c, b); c := Xor(c, Right(b, 5));
    a := Less(a, b); a := Less(a, c); a := Xor(a, Right(c, 3));
    b := Less(b, c); b := Less(b, a); b := Xor(b, Left(a, 10));
    c := Less(c, a); c := Less(c, b); c := Xor(c, Right(b, 15));
  }

  method Whash(k: Key, initval: U32) returns (c: U32)
    ensures c == Final(k, initval).c
  {
    hide Mix;
    hide AddedTail;
    hide Plus;
    hide Word;
    var len := |k|;
    var pos := 0;
    var a, b := GOLDEN, GOLDEN;
    c := initval;
    while len >= 12
      invariant pos + len == |k| && 0 <= len
      invariant Hashed(Words(a, b, c), k[pos..], |k|) == Final(k, initval)
    {
      assert k[pos..][12..] == k[pos + 12..];
      a := Plus(a, Word(k[pos], k[pos + 1], k[pos + 2], k[pos + 3]));
      b := Plus(b, Word(k[pos + 4], k[pos + 5], k[pos + 6], k[pos + 7]));
      c := Plus(c, Word(k[pos + 8], k[pos + 9], k[pos + 10], k[pos + 11]));
      a, b, c := MixInPlace(a, b, c);
      pos := pos + 12;
      len := len - 12;
    }
    a, b, c := TakeTail(a, b, c, k[pos..], |k|);
    a, b, c := MixInPlace(a, b, c);
  }

  /** The switch over the last bytes, each case falling through to the next. */
  method TakeTail(a0: U32, b0: U32, c0: U32, k: seq<U8>, length: U32) returns (a: U32, b: U32, c: U32)
    requires |k| < 12
    ensures Words(a, b, c) == AddedTail(Words(a0, b0, c0), k, length)
  {
    hide Plus;
    hide At;
    a, b, c := a0, b0, Plus(c0, length);
    if |k| >= 11 { c := Plus(c, At(k[10], 24)); }
    if |k| >= 10 { c := Plus(c, At(k[9], 16)); }
    if |k| >= 9 { c := Plus(c, At(k[8], 8)); }
    assert c == PutThree(Plus(c0, length), k, 8);
    if |k| >= 8 { b := Plus(b, At(k[7], 24)); }
    if |k| >= 7 { b := Plus(b, At(k[6], 16)); }
    if |k| >= 6 { b := Plus(b, At(k[5], 8)); }
    if |k| >= 5 { b := Plus(b, At(k[4], 0)); }
    assert b == Put(PutThree(b0, k, 5), k, 4, 0);
    if |k| >= 4 { a := Plus(a, At(k[3], 24)); }
    if |k| >= 3 { a := Plus(a, At(k[2], 16)); }
    if |k| >= 2 { a := Plus(a, At(k[1], 8)); }
    if |k| >= 1 { a := Plus(a, At(k[0], 0)); }
  }
}
