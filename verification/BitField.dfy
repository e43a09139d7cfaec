/** Utils.to32BitField and Utils.from32BitField: sets of bit numbers against 32-bit ints. */
module BitField {
  import opened Bits
  import opened Common

  predicate InRange(b: int8)
  {
    0 <= b <= 31
  }

  predicate AllInRange(bytes: set<int8>)
  {
    forall b :: b in bytes ==> InRange(b)
  }

  /** The sum of the powers of two named in the set. */
  function Sum(bytes: set<int8>, n: nat): (sum: nat)
    requires n <= 32
    ensures sum < Pow2(n)
  {
    if n == 0 then 0 else Sum(bytes, n - 1) + (if (n - 1) as int8 in bytes then Pow2(n - 1) else 0)
  }

  /** The int with exactly the bits named in the set. */
  function Field(bytes: set<int8>): int32
  {
    Wrap(Sum(bytes, 32))
  }

  /** The numbers of the bits of an int. */
  function Members(field: int32): (s: set<int8>)
    ensures AllInRange(s)
  {
    set b: int8 | InRange(b) && Bit(Unsigned(field), b as int)
  }

  // ----- Bits of the sum -----

  lemma {:induction false} BitOfSum(bytes: set<int8>, n: nat, i: nat)
    requires n <= 32
    ensures Bit(Sum(bytes, n), i) <==> i < n && i as int8 in bytes
  {
    if n == 0 {
      BitOfZero(i);
    } else {
      BitOfSum(bytes, n - 1, i);
      if (n - 1) as int8 in bytes {
        SetBitAbove(Sum(bytes, n - 1), n - 1);
        BitOfOr(Sum(bytes, n - 1), Pow2(n - 1), i);
        BitOfPow2(n - 1, i);
      }
    }
  }

  /** Setting a bit above all others adds its power of two. */
  lemma {:induction false} SetBitAbove(x: nat, n: nat)
    requires x < Pow2(n)
    ensures Or(x, Pow2(n)) == x + Pow2(n)
  {
    OrHalves(x, Pow2(n));
    if n > 0 {
      SetBitAbove(x / 2, n - 1);
    } else {
      assert x == 0;
      OrHalves(0, 0);
    }
  }

  lemma FieldBits(bytes: set<int8>, i: nat)
    ensures Bit(Unsigned(Field(bytes)), i) <==> i < 32 && i as int8 in bytes
  {
    Pow2Of32();
    BitOfSum(bytes, 32, i);
  }

  ghost predicate HasBits(value: nat, bytes: set<int8>)
  {
    forall i: nat :: Bit(value, i) <==> i < 32 && i as int8 in bytes
  }

  lemma NoBits()
    ensures HasBits(0, {})
  {
    forall i: nat
      ensures !Bit(0, i)
    {
      BitOfZero(i);
    }
  }

  lemma OnlyField(value: Word, bytes: set<int8>)
    requires HasBits(value, bytes)
    ensures Wrap(value) == Field(bytes)
  {
    forall i: nat
      ensures Bit(value, i) == Bit(Sum(bytes, 32), i)
    {
      BitOfSum(bytes, 32, i);
    }
    SameBits(value, Sum(bytes, 32));
  }

  lemma SetOneBit(value: Word, b: int8, seen: set<int8>)
    requires HasBits(value, seen) && InRange(b)
    ensures Or(value, Pow2(b as nat)) < 0x1_0000_0000
    ensures HasBits(Or(value, Pow2(b as nat)), seen + {b})
  {
    Pow2Of32();
    Pow2Grows(b as nat, 32);
    OrBelow(value, Pow2(b as nat), 32);
    var or, next := Or(value, Pow2(b as nat)), seen + {b};
    forall i: nat
      ensures Bit(or, i) <==> i < 32 && i as int8 in next
    {
      BitOfOr(value, Pow2(b as nat), i);
      BitOfPow2(b as nat, i);
    }
  }

  lemma {:induction false} Pow2Grows(m: nat, n: nat)
    requires m < n
    ensures Pow2(m) < Pow2(n)
  {
    if m < n - 1 {
      Pow2Grows(m, n - 1);
    }
  }

  // ----- The two loops -----

  /** `value |= 1 << checkRange(b)` over the set in whatever order it iterates; a byte out of range is an error. */
  method To32BitField(bytes: set<int8>) returns (r: Result<int32, int8>)
    ensures AllInRange(bytes) ==> r == Ok(Field(bytes))
    ensures !AllInRange(bytes) ==> r.Err? && r.error in bytes && !InRange(r.error)
  {
    var value: Word := 0;
    var rest := bytes;
    NoBits();
    while rest != {}
      invariant rest <= bytes
      invariant AllInRange(bytes - rest)
      invariant HasBits(value, bytes - rest)
      decreases rest
    {
      var b: int8 :| b in rest;
      if !InRange(b) {
        return Err(b);
      }
      SetOneBit(value, b, bytes - rest);
      assert bytes - (rest - {b}) == bytes - rest + {b};
      value := Or(value, Pow2(b as nat));
      rest := rest - {b};
    }
    assert bytes - rest == bytes;
    OnlyField(value, bytes);
    return Ok(Wrap(value));
  }

  /** Reads the bits from the lowest up, with an unsigned shift: at most 32 steps, negative ints included. */
  method From32BitField(intValue: int32) returns (result: set<int8>)
    ensures result == Members(intValue)
  {
    result := {};
    var itr: Word := Unsigned(intValue);
    var count := 0;
    while itr != 0
      invariant 0 <= count <= 32
      invariant itr == Shift(Unsigned(intValue), count)
      invariant forall b: int8 :: b in result <==> 0 <= b as int < count && Bit(Unsigned(intValue), b as int)
      decreases itr
    {
      ShiftStep(Unsigned(intValue), count);
      if itr % 2 != 0 {
        result := result + {count as int8};
      }
      itr := itr / 2;
      count := count + 1;
    }
    forall b: int8 | InRange(b)
      ensures b in result <==> Bit(Unsigned(intValue), b as int)
    {
      if b as int >= count {
        BitOfShift(Unsigned(intValue), count, b as int - count);
        BitOfZero(b as int - count);
      }
    }
  }

  lemma ShiftStep(x: Word, count: nat)
    requires count <= 32 && Shift(x, count) != 0
    ensures count < 32
    ensures Shift(x, count) % 2 != 0 <==> Bit(x, count)
    ensures Shift(x, count + 1) == Shift(x, count) / 2
  {
    Pow2Of32();
    BitOfShift(x, count, 0);
    ShiftOnce(x, count);
    if count == 32 {
      ShiftedOut(x, 32);
    }
  }

  lemma {:induction false} ShiftOnce(x: nat, k: nat)
    ensures Shift(x, k + 1) == Shift(x, k) / 2
  {
    if k > 0 {
      ShiftOnce(x / 2, k - 1);
    }
  }

  lemma {:induction false} ShiftedOut(x: nat, k: nat)
    requires x < Pow2(k)
    ensures Shift(x, k) == 0
  {
    if k > 0 {
      ShiftedOut(x / 2, k - 1);
    }
  }

  // ----- Results -----

  /** Packing a set and unpacking it gives it back, for the sets packing accepts and no other. */
  lemma UnpackPacked(bytes: set<int8>)
    ensures Members(Field(bytes)) == bytes <==> AllInRange(bytes)
  {
    forall b: int8 | InRange(b)
      ensures b in Members(Field(bytes)) <==> b in bytes
    {
      FieldBits(bytes, b as nat);
    }
  }

  /** Unpacking any int, negative ones included, and packing it again gives it back. */
  lemma PackUnpacked(field: int32)
    ensures Field(Members(field)) == field
  {
    Pow2Of32();
    forall i: nat
      ensures Bit(Unsigned(field), i) <==> i < 32 && i as int8 in Members(field)
    {
      if i >= 32 {
        HighBitsClear(Unsigned(field), 32, i);
      }
    }
    OnlyField(Unsigned(field), Members(field));
  }
}
