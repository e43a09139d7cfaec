/** Utils.murmur2: every mixing step is a bijection on 32-bit words, which carries differences through to the hash. */
module Murmur2 {
  import opened Bits
  import opened Common

  /** A Java byte array: its length is an int. */
  type Bytes = b: seq<int8> | |b| < 0x8000_0000

  // ----- The operators of the hash on 32-bit words -----

  function XorWords(x: Word, y: Word): Word
  {
    Pow2Of32();
    XorBelow(x, y, 32);
    Xor(x, y)
  }

  function TimesM(x: Word): Word
  {
    x * 0x5bd1e995 % 0x1_0000_0000
  }

  /** `x ^= x >>> k` */
  function XorShift(x: Word, k: nat): Word
  {
    ShiftBelow(x, k);
    XorWords(x, Shift(x, k))
  }

  lemma {:induction false} ShiftBelow(x: nat, k: nat)
    ensures Shift(x, k) <= x
  {
    if k > 0 {
      ShiftBelow(x / 2, k - 1);
    }
  }

  // ----- The hash -----

  function WordAt(data: Bytes, i: nat): Word
    requires 4 * i + 4 <= |data|
  {
    Octet(data[4 * i]) + Octet(data[4 * i + 1]) * 0x100 + Octet(data[4 * i + 2]) * 0x1_0000
    + Octet(data[4 * i + 3]) * 0x100_0000
  }

  function MixWord(k: Word): Word
  {
    TimesM(XorShift(TimesM(k), 24))
  }

  function Step(h: Word, k: Word): Word
  {
    XorWords(TimesM(h), MixWord(k))
  }

  /** The state after the first n blocks. */
  function Blocks(data: Bytes, n: nat): Word
    requires 4 * n <= |data|
  {
    if n == 0 then XorWords(0x9747b28c, |data|)
    else Step(Blocks(data, n - 1), WordAt(data, n - 1))
  }

  function OctetAt(bytes: seq<int8>, i: nat): (o: nat)
    ensures o < 0x100
  {
    if i < |bytes| then Octet(bytes[i]) else 0
  }

  /** The one to three bytes after the last block, joined into a word. */
  function Joined(rest: seq<int8>): Word
  {
    OctetAt(rest, 0) + OctetAt(rest, 1) * 0x100 + OctetAt(rest, 2) * 0x1_0000
  }

  function AfterTail(h: Word, rest: seq<int8>): Word
    requires |rest| < 4
  {
    if rest == [] then h else TimesM(XorWords(h, Joined(rest)))
  }

  function Finish(h: Word): Word
  {
    XorShift(TimesM(XorShift(h, 13)), 15)
  }

  function Rest(data: Bytes): (rest: seq<int8>)
    ensures |rest| == |data| % 4
  {
    data[4 * (|data| / 4)..]
  }

  function Hash(data: Bytes): int32
  {
    Wrap(Finish(AfterTail(Blocks(data, |data| / 4), Rest(data))))
  }

  method Murmur2(data: Bytes) returns (hash: int32)
    ensures hash == Hash(data)
  {
    hide Step, Finish, AfterTail, XorWords;
    var length := |data|;
    var h := XorWords(0x9747b28c, length);
    var length4 := length / 4;
    for i := 0 to length4
      invariant h == Blocks(data, i)
    {
      var i4 := i * 4;
      var k: Word := Octet(data[i4 + 0]) + Octet(data[i4 + 1]) * 0x100 + Octet(data[i4 + 2]) * 0x1_0000
      + Octet(data[i4 + 3]) * 0x100_0000;
      h := MixBlock(h, k);
    }
    h := FoldTail(h, data[4 * length4..]);
    h := FinalMix(h);
    return Wrap(h);
  }

  method MixBlock(mixed: Word, word: Word) returns (h: Word)
    ensures h == Step(mixed, word)
  {
    h := mixed;
    var k := word;
    k := TimesM(k);
    k := XorShift(k, 24);
    k := TimesM(k);
    h := TimesM(h);
    h := XorWords(h, k);
  }

  method FinalMix(mixed: Word) returns (h: Word)
    ensures h == Finish(mixed)
  {
    h := mixed;
    h := XorShift(h, 13);
    h := TimesM(h);
    h := XorShift(h, 15);
  }

  /** The switch on the number of bytes left, each case falling through to the next. */
  method FoldTail(mixed: Word, rest: seq<int8>) returns (h: Word)
    requires |rest| < 4
    ensures h == AfterTail(mixed, rest)
  {
    hide Xor, TimesM, Octet;
    XorZero(mixed);
    h := mixed;
    if |rest| >= 3 {
      h := XorWords(h, Octet(rest[2]) * 0x1_0000);
    }
    if |rest| >= 2 {
      h := XorWords(h, Octet(rest[1]) * 0x100);
    }
    if |rest| >= 1 {
      h := XorWords(h, Octet(rest[0]));
      XorsJoin(mixed, OctetAt(rest, 2), OctetAt(rest, 1), OctetAt(rest, 0));
      h := TimesM(h);
    }
  }

  /** Xoring the bytes in one by one xors in the word they form. */
  lemma XorsJoin(h: nat, b2: nat, b1: nat, b0: nat)
    requires b1 < 0x100 && b0 < 0x100
    ensures Xor(Xor(Xor(h, b2 * 0x1_0000), b1 * 0x100), b0) == Xor(h, b0 + b1 * 0x100 + b2 * 0x1_0000)
  {
    XorTwo(Xor(h, b2 * 0x1_0000), b1, b0);
    XorThird(h, b2, b1 * 0x100 + b0);
  }

  lemma XorTwo(h: nat, b1: nat, b0: nat)
    requires b0 < 0x100
    ensures Xor(Xor(h, b1 * 0x100), b0) == Xor(h, b1 * 0x100 + b0)
  {
    assert Pow2(8) == 0x100;
    XorAdds(b1, b0, 8);
    XorAssociates(h, b1 * 0x100, b0);
  }

  lemma XorThird(h: nat, b2: nat, low: nat)
    requires low < 0x1_0000
    ensures Xor(Xor(h, b2 * 0x1_0000), low) == Xor(h, b2 * 0x1_0000 + low)
  {
    assert Pow2(8) == 0x100;
    assert Pow2(16) == 0x1_0000;
    XorAdds(b2, low, 16);
    XorAssociates(h, b2 * 0x1_0000, low);
  }

  // ----- The hash bit by bit -----

  lemma XorWordsBit(x: Word, y: Word, i: nat)
    ensures Bit(XorWords(x, y), i) <==> Bit(x, i) != Bit(y, i)
  {
    BitOfXor(x, y, i);
  }

  lemma XorShiftBitwise(x: Word, k: nat, i: nat)
    ensures Bit(XorShift(x, k), i) <==> Bit(x, i) != Bit(x, i + k)
  {
    ShiftBelow(x, k);
    XorWordsBit(x, Shift(x, k), i);
    BitOfShift(x, k, i);
  }

  /** The hash starts from the seed with the bits of the length flipped. */
  lemma StartBits(data: Bytes, i: nat)
    ensures Bit(Blocks(data, 0), i) <==> Bit(0x9747_b28c, i) != Bit(|data|, i)
  {
    XorWordsBit(0x9747b28c, |data|, i);
  }

  /**
   * A block, the little-endian word of four bytes, is multiplied, xored with its own bits from 24 places up, and
   * multiplied again; then it is xored into the state, which is multiplied too.
   */
  lemma BlockBits(data: Bytes, n: nat, i: nat) returns (word: Word, mixed: Word)
    requires 4 * n + 4 <= |data|
    ensures word == Octet(data[4 * n]) + 0x100 * Octet(data[4 * n + 1]) + 0x1_0000 * Octet(data[4 * n + 2])
                    + 0x100_0000 * Octet(data[4 * n + 3])
    ensures forall j: nat :: Bit(mixed, j) <==> Bit(TimesM(word), j) != Bit(TimesM(word), j + 24)
    ensures Bit(Blocks(data, n + 1), i) <==> Bit(TimesM(Blocks(data, n)), i) != Bit(TimesM(mixed), i)
  {
    word := WordAt(data, n);
    hide TimesM, Octet;
    mixed := XorShift(TimesM(word), 24);
    forall j: nat
      ensures Bit(mixed, j) <==> Bit(TimesM(word), j) != Bit(TimesM(word), j + 24)
    {
      XorShiftBitwise(TimesM(word), 24, j);
    }
    hide XorShift, Bit, XorWords;
    XorWordsBit(TimesM(Blocks(data, n)), TimesM(mixed), i);
  }

  /** At the end the state is xored with its own bits from 13 places up, multiplied, and xored with those from 15 up. */
  lemma FinishBits(h: Word, i: nat) returns (mixed: Word)
    ensures forall j: nat :: Bit(mixed, j) <==> Bit(h, j) != Bit(h, j + 13)
    ensures Bit(Finish(h), i) <==> Bit(TimesM(mixed), i) != Bit(TimesM(mixed), i + 15)
  {
    hide TimesM;
    mixed := XorShift(h, 13);
    forall j: nat
      ensures Bit(mixed, j) <==> Bit(h, j) != Bit(h, j + 13)
    {
      XorShiftBitwise(h, 13, j);
    }
    XorShiftBitwise(TimesM(mixed), 15, i);
  }

  /** The product of ints, read without a sign. */
  lemma TimesMIs(x: Word)
    ensures TimesM(x) == 1540483477 * x % 4294967296
  {
  }

  /** What is left after the blocks is joined into a word, xored in, and multiplied; with nothing left, that is skipped. */
  lemma TailBits(h: Word, rest: seq<int8>) returns (mixed: Word)
    requires |rest| < 4
    ensures rest == [] ==> AfterTail(h, rest) == h
    ensures rest != [] ==> AfterTail(h, rest) == TimesM(mixed)
    ensures forall j: nat :: Bit(mixed, j) <==> Bit(h, j) != Bit(Joined(rest), j)
    ensures |rest| == 1 ==> Joined(rest) == Octet(rest[0])
    ensures |rest| == 2 ==> Joined(rest) == Octet(rest[0]) + 0x100 * Octet(rest[1])
    ensures |rest| == 3 ==> Joined(rest) == Octet(rest[0]) + 0x100 * Octet(rest[1]) + 0x1_0000 * Octet(rest[2])
  {
    hide TimesM, Octet, Bit;
    mixed := XorWords(h, Joined(rest));
    forall j: nat
      ensures Bit(mixed, j) <==> Bit(h, j) != Bit(Joined(rest), j)
    {
      XorWordsBit(h, Joined(rest), j);
    }
  }

  // ----- Each step loses nothing -----

  /** 0xe59b19bd is the inverse of the multiplier modulo 2^32. */
  lemma TimesMInverts(x: Word)
    ensures TimesM(x) * 0xe59b19bd % 0x1_0000_0000 == x
  {
    var q := x * 0x5bd1e995 / 0x1_0000_0000;
    Remainder(x, TimesM(x) * 0xe59b19bd, 0x525a6746 * x - 0xe59b19bd * q);
  }

  lemma Remainder(x: Word, y: int, q: int)
    requires y == x + 0x1_0000_0000 * q
    ensures y % 0x1_0000_0000 == x
  {
  }

  lemma TimesMInjective(x: Word, y: Word)
    requires TimesM(x) == TimesM(y)
    ensures x == y
  {
    TimesMInverts(x);
    TimesMInverts(y);
  }

  lemma StepInjective(h: Word, h': Word, k: Word, k': Word)
    requires Step(h, k) == Step(h', k')
    ensures h == h' <==> k == k'
  {
    if k == k' {
      XorCancels(TimesM(h), TimesM(h'), MixWord(k));
      TimesMInjective(h, h');
    }
    if h == h' {
      XorCancels(MixWord(k), MixWord(k'), TimesM(h));
      TimesMInjective(XorShift(TimesM(k), 24), XorShift(TimesM(k'), 24));
      XorShiftInjective(TimesM(k), TimesM(k'), 24);
      TimesMInjective(k, k');
    }
  }

  lemma AfterTailInjective(h: Word, h': Word, rest: seq<int8>, rest': seq<int8>)
    requires |rest| == |rest'| < 4
    requires AfterTail(h, rest) == AfterTail(h', rest')
    ensures h == h' <==> rest == rest'
  {
    if rest != [] {
      TimesMInjective(XorWords(h, Joined(rest)), XorWords(h', Joined(rest')));
      if rest == rest' {
        XorCancels(h, h', Joined(rest));
      }
      if h == h' {
        XorCancels(Joined(rest), Joined(rest'), h);
        JoinedInjective(rest, rest');
      }
    }
  }

  lemma OctetInjective(a: int8, b: int8)
    requires Octet(a) == Octet(b)
    ensures a == b
  {
  }

  lemma JoinedInjective(a: seq<int8>, b: seq<int8>)
    requires |a| == |b| < 4 && Joined(a) == Joined(b)
    ensures a == b
  {
    OctetsInjective(OctetAt(a, 0), OctetAt(a, 1), OctetAt(a, 2), 0, OctetAt(b, 0), OctetAt(b, 1), OctetAt(b, 2), 0);
    forall i | 0 <= i < |a|
      ensures a[i] == b[i]
    {
      assert OctetAt(a, i) == OctetAt(b, i) by {
        assert i == 0 || i == 1 || i == 2;
      }
      OctetInjective(a[i], b[i]);
    }
  }

  lemma FinishInjective(h: Word, h': Word)
    requires Finish(h) == Finish(h')
    ensures h == h'
  {
    XorShiftInjective(TimesM(XorShift(h, 13)), TimesM(XorShift(h', 13)), 15);
    TimesMInjective(XorShift(h, 13), XorShift(h', 13));
    XorShiftInjective(h, h', 13);
  }

  lemma WordAtInjective(a: Bytes, b: Bytes, i: nat)
    requires 4 * i + 4 <= |a| && 4 * i + 4 <= |b|
    requires WordAt(a, i) == WordAt(b, i)
    ensures forall j :: 4 * i <= j < 4 * i + 4 ==> a[j] == b[j]
  {
    var m := 4 * i;
    OctetsInjective(Octet(a[m]), Octet(a[m + 1]), Octet(a[m + 2]), Octet(a[m + 3]),
                    Octet(b[m]), Octet(b[m + 1]), Octet(b[m + 2]), Octet(b[m + 3]));
    forall j | m <= j < m + 4
      ensures a[j] == b[j]
    {
      assert Octet(a[j]) == Octet(b[j]) by {
        assert j == m || j == m + 1 || j == m + 2 || j == m + 3;
      }
      OctetInjective(a[j], b[j]);
    }
  }

  lemma OctetsInjective(a0: nat, a1: nat, a2: nat, a3: nat, b0: nat, b1: nat, b2: nat, b3: nat)
    requires a0 < 0x100 && a1 < 0x100 && a2 < 0x100 && b0 < 0x100 && b1 < 0x100 && b2 < 0x100
    requires a0 + a1 * 0x100 + a2 * 0x1_0000 + a3 * 0x100_0000 == b0 + b1 * 0x100 + b2 * 0x1_0000 + b3 * 0x100_0000
    ensures a0 == b0 && a1 == b1 && a2 == b2 && a3 == b3
  {
  }

  // ----- Results -----

  lemma WrapInjective(x: Word, y: Word)
    requires Wrap(x) == Wrap(y)
    ensures x == y
  {
    assert Unsigned(Wrap(x)) == x && Unsigned(Wrap(y)) == y;
  }

  lemma HashInjective(h: Word, h': Word, rest: seq<int8>, rest': seq<int8>)
    requires |rest| == |rest'| < 4
    requires Wrap(Finish(AfterTail(h, rest))) == Wrap(Finish(AfterTail(h', rest')))
    ensures h == h' <==> rest == rest'
  {
    var x, y := AfterTail(h, rest), AfterTail(h', rest');
    WrapInjective(Finish(x), Finish(y));
    FinishInjective(x, y);
    AfterTailInjective(h, h', rest, rest');
  }

  /** Inputs that differ in at most one of the first n blocks have the same state exactly when that one agrees too. */
  lemma {:induction false} BlocksDiffer(a: Bytes, b: Bytes, n: nat, i: nat)
    requires |a| == |b| && 4 * n <= |a| && i < n
    requires forall j :: 0 <= j < n && j != i ==> WordAt(a, j) == WordAt(b, j)
    ensures Blocks(a, n) == Blocks(b, n) <==> WordAt(a, i) == WordAt(b, i)
  {
    hide Step, WordAt, XorWords;
    if i < n - 1 {
      BlocksDiffer(a, b, n - 1, i);
    } else {
      BlocksAgree(a, b, n - 1);
    }
    if Blocks(a, n) == Blocks(b, n) {
      StepInjective(Blocks(a, n - 1), Blocks(b, n - 1), WordAt(a, n - 1), WordAt(b, n - 1));
    }
  }

  lemma {:induction false} BlocksAgree(a: Bytes, b: Bytes, n: nat)
    requires |a| == |b| && 4 * n <= |a|
    requires forall j :: 0 <= j < n ==> WordAt(a, j) == WordAt(b, j)
    ensures Blocks(a, n) == Blocks(b, n)
  {
    if n > 0 {
      BlocksAgree(a, b, n - 1);
    }
  }

  /** Two inputs of equal length that differ in exactly one aligned block never collide. */
  lemma OneBlockNeverCollides(a: Bytes, b: Bytes, i: nat)
    requires |a| == |b| && 4 * i + 4 <= |a|
    requires forall j :: 0 <= j < |a| && !(4 * i <= j < 4 * i + 4) ==> a[j] == b[j]
    ensures Hash(a) == Hash(b) <==> a == b
  {
    hide Step, Finish, AfterTail, XorWords;
    if Hash(a) == Hash(b) {
      assert Rest(a) == Rest(b);
      HashInjective(Blocks(a, |a| / 4), Blocks(b, |b| / 4), Rest(a), Rest(b));
      BlocksDiffer(a, b, |a| / 4, i);
      WordAtInjective(a, b, i);
    }
  }

  lemma Together(a: Bytes, b: Bytes, n: nat)
    requires n <= |a| == |b| && a[n..] == b[n..]
    requires forall j :: 0 <= j < n ==> a[j] == b[j]
    ensures a == b
  {
    assert a[..n] == b[..n];
    assert a == a[..n] + a[n..] && b == b[..n] + b[n..];
  }

  /** Two inputs of equal length that differ only in the one to three bytes after the last block never collide. */
  lemma TailNeverCollides(a: Bytes, b: Bytes)
    requires |a| == |b|
    requires forall j :: 0 <= j < 4 * (|a| / 4) ==> a[j] == b[j]
    ensures Hash(a) == Hash(b) <==> a == b
  {
    if Hash(a) == Hash(b) {
      BlocksAgree(a, b, |a| / 4);
      HashInjective(Blocks(a, |a| / 4), Blocks(b, |b| / 4), Rest(a), Rest(b));
      Together(a, b, 4 * (|a| / 4));
    }
  }
}
