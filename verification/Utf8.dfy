/** Utils.utf8Length against the encoding of section 3 of RFC 3629. */
module Utf8 {
  import opened Common

  /** A Java char. */
  type CodeUnit = c: int | 0 <= c < 0x1_0000

  /** Its length is an int. */
  type CharSequence = s: seq<CodeUnit> | |s| < 0x8000_0000

  type Octet = o: int | 0 <= o < 0x100

  predicate IsHigh(c: CodeUnit)
  {
    0xD800 <= c <= 0xDBFF
  }

  predicate IsLow(c: CodeUnit)
  {
    0xDC00 <= c <= 0xDFFF
  }

  /** Surrogates come in pairs, a high one and then a low one. */
  predicate WellFormed(s: seq<CodeUnit>)
  {
    if s == [] then true
    else if IsHigh(s[0]) then |s| > 1 && IsLow(s[1]) && WellFormed(s[2..])
    else !IsLow(s[0]) && WellFormed(s[1..])
  }

  /** Well-formed is any sequence of code units from 0xD800 to 0xDBFF followed by one from 0xDC00 to 0xDFFF, and of others. */
  lemma {:induction false} WellFormedIs(s: seq<CodeUnit>, t: seq<CodeUnit>, c: CodeUnit, d: CodeUnit)
    ensures WellFormed([])
    ensures WellFormed([c]) <==> c < 0xD800 || c > 0xDFFF
    ensures 0xD800 <= c <= 0xDBFF ==> (WellFormed([c, d] + t) <==> 0xDC00 <= d <= 0xDFFF && WellFormed(t))
    ensures 0xDC00 <= c <= 0xDFFF ==> !WellFormed([c] + t)
    ensures WellFormed(s) ==> (WellFormed(s + t) <==> WellFormed(t))
  {
    assert [c][1..] == [] && ([c, d] + t)[2..] == t;
    if s == [] {
      assert s + t == t;
    } else if WellFormed(s) {
      var n := if IsHigh(s[0]) then 2 else 1;
      WellFormedIs(s[n..], t, c, d);
      assert (s + t)[n..] == s[n..] + t;
    }
  }

  // ----- The encoding -----

  function CodePoint(high: CodeUnit, low: CodeUnit): int
  {
    0x1_0000 + (high - 0xD800) * 0x400 + (low - 0xDC00)
  }

  /** The octets of one character, by the ranges of RFC 3629. */
  function Octets(c: int): seq<Octet>
    requires 0 <= c < 0x11_0000
  {
    if c <= 0x7F then [c]
    else if c <= 0x7FF then [0xC0 + c / 0x40, 0x80 + c % 0x40]
    else if c <= 0xFFFF then [0xE0 + c / 0x40 / 0x40, 0x80 + c / 0x40 % 0x40, 0x80 + c % 0x40]
    else [0xF0 + c / 0x40 / 0x40 / 0x40, 0x80 + c / 0x40 / 0x40 % 0x40, 0x80 + c / 0x40 % 0x40, 0x80 + c % 0x40]
  }

  function Encode(s: seq<CodeUnit>): seq<Octet>
    requires WellFormed(s)
  {
    if s == [] then []
    else if IsHigh(s[0]) then Octets(CodePoint(s[0], s[1])) + Encode(s[2..])
    else Octets(s[0]) + Encode(s[1..])
  }

  /** The number of octets of the character that starts with this one. */
  function Size(lead: Octet): (n: nat)
    ensures 1 <= n <= 4
  {
    if lead < 0x80 then 1 else if lead < 0xE0 then 2 else if lead < 0xF0 then 3 else 4
  }

  /** The character its octets stand for: the payload bits of the first, then six from each other. */
  function Character(o: seq<int>): int
    requires 1 <= |o| <= 4
  {
    match |o|
    case 1 => o[0]
    case 2 => (o[0] - 0xC0) * 0x40 + (o[1] - 0x80)
    case 3 => ((o[0] - 0xE0) * 0x40 + (o[1] - 0x80)) * 0x40 + (o[2] - 0x80)
    case _ => (((o[0] - 0xF0) * 0x40 + (o[1] - 0x80)) * 0x40 + (o[2] - 0x80)) * 0x40 + (o[3] - 0x80)
  }

  function Units(c: int): seq<int>
  {
    if c < 0x1_0000 then [c] else [0xD800 + (c - 0x1_0000) / 0x400, 0xDC00 + (c - 0x1_0000) % 0x400]
  }

  function Decode(octets: seq<Octet>): seq<int>
  {
    if octets == [] || |octets| < Size(octets[0]) then []
    else Units(Character(octets[..Size(octets[0])])) + Decode(octets[Size(octets[0])..])
  }

  lemma OctetsDecode(c: int)
    requires 0 <= c < 0x11_0000
    ensures |Octets(c)| == Size(Octets(c)[0]) && Character(Octets(c)) == c
  {
  }

  /** One octet below 0x80, or a leading octet that tells how many follow, and octets from 0x80 to 0xBF. */
  lemma OctetsShape(c: int, k: nat)
    requires 0 <= c < 0x11_0000 && k < |Octets(c)|
    ensures |Octets(c)| == if c < 0x80 then 1 else if c < 0x800 then 2 else if c < 0x1_0000 then 3 else 4
    ensures k > 0 ==> 0x80 <= Octets(c)[k] <= 0xBF
    ensures |Octets(c)| == 1 ==> Octets(c)[0] == c
    ensures |Octets(c)| == 2 ==> 0xC2 <= Octets(c)[0] <= 0xDF
    ensures |Octets(c)| == 3 ==> 0xE0 <= Octets(c)[0] <= 0xEF
    ensures |Octets(c)| == 4 ==> 0xF0 <= Octets(c)[0] <= 0xF4
  {
  }

  lemma UnitsOfPair(high: CodeUnit, low: CodeUnit)
    requires IsHigh(high) && IsLow(low)
    ensures Units(CodePoint(high, low)) == [high, low]
  {
  }

  lemma DecodeFirst(c: int, rest: seq<Octet>)
    requires 0 <= c < 0x11_0000
    ensures Decode(Octets(c) + rest) == Units(c) + Decode(rest)
  {
    OctetsDecode(c);
    var all := Octets(c) + rest;
    assert all[0] == Octets(c)[0];
    assert all[..|Octets(c)|] == Octets(c) && all[|Octets(c)|..] == rest;
  }

  /** The encoding is read back: it keeps every character, in order. */
  lemma {:induction false} DecodeEncoded(s: seq<CodeUnit>)
    requires WellFormed(s)
    ensures Decode(Encode(s)) == s
  {
    if s != [] {
      if IsHigh(s[0]) {
        DecodeEncoded(s[2..]);
        DecodeFirst(CodePoint(s[0], s[1]), Encode(s[2..]));
        UnitsOfPair(s[0], s[1]);
        assert s == [s[0], s[1]] + s[2..];
      } else {
        DecodeEncoded(s[1..]);
        DecodeFirst(s[0], Encode(s[1..]));
        assert s == [s[0]] + s[1..];
      }
    }
  }

  // ----- The length -----

  /** What the loop counts from the front of any string, well-formed or not. */
  function Count(s: seq<CodeUnit>): nat
  {
    if s == [] then 0
    else if s[0] <= 0x7F then 1 + Count(s[1..])
    else if s[0] <= 0x7FF then 2 + Count(s[1..])
    else if IsHigh(s[0]) then 4 + (if |s| == 1 then 0 else Count(s[2..]))
    else 3 + Count(s[1..])
  }

  lemma {:induction false} CountIsEncodedLength(s: seq<CodeUnit>)
    requires WellFormed(s)
    ensures Count(s) == |Encode(s)|
  {
    if s != [] {
      CountIsEncodedLength(if IsHigh(s[0]) then s[2..] else s[1..]);
    }
  }

  /** The loop ends by skipping the partner of an unpaired high surrogate at the very end. */
  predicate Overshoots(s: seq<CodeUnit>)
  {
    if s == [] then false
    else if IsHigh(s[0]) then |s| == 1 || Overshoots(s[2..])
    else Overshoots(s[1..])
  }

  lemma {:induction false} WellFormedStops(s: seq<CodeUnit>)
    requires WellFormed(s)
    ensures !Overshoots(s)
  {
    if s != [] {
      WellFormedStops(if IsHigh(s[0]) then s[2..] else s[1..]);
    }
  }

  /**
   * What is counted for any text, surrogates paired or not: a high one counts four and hides whatever follows it, a low
   * one that is reached counts three. A text that stops within its end is counted on its own.
   */
  lemma {:induction false} CountIs(s: seq<CodeUnit>, t: seq<CodeUnit>, high: CodeUnit, c: CodeUnit)
    requires 0xD800 <= high < 0xDC00
    ensures !Overshoots(s) ==> Count(s + t) == Count(s) + Count(t) && (Overshoots(s + t) <==> Overshoots(t))
    ensures Count([high]) == 4 && Overshoots([high])
    ensures Count([high, c]) == 4 && !Overshoots([high, c])
    ensures c < 0xD800 || c >= 0xDC00 ==>
              Count([c]) == (if c < 0x80 then 1 else if c < 0x800 then 2 else 3) && !Overshoots([c])
    ensures Count([]) == 0 && !Overshoots([])
  {
    assert [c][1..] == [] && [high, c][2..] == [];
    if s == [] {
      assert s + t == t;
    } else if IsHigh(s[0]) && |s| > 1 {
      CountIs(s[2..], t, high, c);
      assert (s + t)[2..] == s[2..] + t;
    } else if !IsHigh(s[0]) {
      CountIs(s[1..], t, high, c);
      assert (s + t)[1..] == s[1..] + t;
    }
  }

  datatype IndexOutOfBounds = IndexOutOfBounds(index: int32)

  /**
   * The count is an int, so it is the length of the encoding modulo 2^32: the length itself exactly when that is
   * below 2^31. The index is an int too: a step past the end of the longest possible string makes it negative.
   */
  method Utf8Length(s: CharSequence) returns (r: Result<int32, IndexOutOfBounds>)
    ensures r.Err? <==> |s| == 0x7fff_ffff && Overshoots(s)
    ensures r.Ok? ==> r.value == Wrap(Count(s))
    ensures WellFormed(s) ==> r == Ok(Wrap(|Encode(s)|))
    ensures WellFormed(s) ==> (r.value as int == |Encode(s)| <==> |Encode(s)| < 0x8000_0000)
  {
    if WellFormed(s) {
      CountIsEncodedLength(s);
      WellFormedStops(s);
    }
    var count: int32 := 0;
    var i: int32, len := 0, |s|;
    ghost var n, done := 0, 0;
    while i as int < len
      invariant 0 <= done <= len + 1 && i == Wrap(done)
      invariant count == Wrap(n)
      invariant done <= len ==> n + Count(s[done..]) == Count(s) && (Overshoots(s) <==> Overshoots(s[done..]))
      invariant done == len + 1 ==> n == Count(s) && Overshoots(s)
      decreases len - done
    {
      if i < 0 {
        return Err(IndexOutOfBounds(i));
      }
      var ch := s[i];
      ghost var size := if ch <= 0x7F then 1 else if ch <= 0x7FF then 2 else if IsHigh(ch) then 4 else 3;
      WrapAdds(n, size);
      n := n + size;
      done := done + if IsHigh(ch) then 2 else 1;
      if ch <= 0x7F {
        count := Wrap(count as int + 1);
      } else if ch <= 0x7FF {
        count := Wrap(count as int + 2);
      } else if IsHigh(ch) {
        count := Wrap(count as int + 4);
        i := Wrap(i as int + 1);
      } else {
        count := Wrap(count as int + 3);
      }
      i := Wrap(i as int + 1);
    }
    return Ok(count);
  }
}
