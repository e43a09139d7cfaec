/** URLEncoder.encode and URLDecoder.decode with UTF-8. */
module UrlCode {
  import opened Common
  import opened Regex
  import Utf8

  type Octet = Utf8.Octet

  predicate Unreserved(c: char)
  {
    Alphanumeric(c) || c == '.' || c == '-' || c == '*' || c == '_'
  }

  function HexDigit(n: nat): char
    requires n < 16
  {
    if n < 10 then '0' + n as char else 'A' + (n - 10) as char
  }

  function HexValue(c: char): Option<nat>
  {
    if '0' <= c <= '9' then Some(c as nat - '0' as nat)
    else if 'A' <= c <= 'F' then Some(c as nat - 'A' as nat + 10)
    else if 'a' <= c <= 'f' then Some(c as nat - 'a' as nat + 10)
    else None
  }

  function Escape(o: Octet): string
  {
    ['%', HexDigit(o / 16), HexDigit(o % 16)]
  }

  function Escapes(octets: seq<Octet>): string
  {
    if octets == [] then "" else Escape(octets[0]) + Escapes(octets[1..])
  }

  function EncodeChar(c: char): string
  {
    if Unreserved(c) then [c] else if c == ' ' then "+" else Escapes(Utf8.Octets(c as int))
  }

  function Encode(s: string): string
  {
    if s == "" then "" else EncodeChar(s[0]) + Encode(s[1..])
  }

  function Unescape(t: string): Option<Octet>
  {
    if |t| < 3 || t[0] != '%' then None
    else
      var high, low := HexValue(t[1]), HexValue(t[2]);
      if high.Some? && low.Some? then Some(16 * high.value + low.value) else None
  }

  function Unescapes(t: string, n: nat): Option<seq<Octet>>
  {
    if n == 0 then Some([])
    else
      var first := Unescape(t);
      if first.None? then None
      else
        var rest := Unescapes(t[3..], n - 1);
        if rest.None? then None else Some([first.value] + rest.value)
  }

  datatype Malformed = Malformed(rest: string)

  /** The character written at the front of a text, and what follows it. Only escapes of whole characters are read. */
  function DecodeChar(t: string): Result<(char, string), Malformed>
    requires t != ""
    ensures DecodeChar(t).Ok? ==> |DecodeChar(t).value.1| < |t|
  {
    if t[0] == '+' then Ok((' ', t[1..]))
    else if t[0] != '%' then Ok((t[0], t[1..]))
    else
      var lead := Unescape(t);
      if lead.None? then Err(Malformed(t))
      else
        var n := Utf8.Size(lead.value);
        var octets := Unescapes(t, n);
        if octets.None? || |octets.value| != n || |t| < 3 * n then Err(Malformed(t))
        else
          var c := Utf8.Character(octets.value);
          if !(0 <= c < 0xD800 || 0xE000 <= c < 0x11_0000) || Utf8.Octets(c) != octets.value then Err(Malformed(t))
          else Ok((c as char, t[3 * n..]))
  }

  function Decode(t: string): Result<string, Malformed>
    decreases |t|
  {
    if t == "" then Ok("")
    else
      match DecodeChar(t)
      case Err(e) => Err(e)
      case Ok((c, rest)) =>
        (match Decode(rest) case Err(e) => Err(e) case Ok(s) => Ok([c] + s))
  }

  // ----- Decoding inverts encoding -----

  lemma UnescapeInverts(o: Octet, rest: string)
    ensures Unescape(Escape(o) + rest) == Some(o)
    ensures (Escape(o) + rest)[3..] == rest
  {
  }

  lemma {:induction false} UnescapesInvert(octets: seq<Octet>, rest: string)
    ensures Unescapes(Escapes(octets) + rest, |octets|) == Some(octets)
    ensures |Escapes(octets)| == 3 * |octets|
  {
    hide Unescape, HexDigit;
    if octets != [] {
      var more := Escapes(octets[1..]) + rest;
      assert Escapes(octets) + rest == Escape(octets[0]) + more;
      UnescapeInverts(octets[0], more);
      UnescapesInvert(octets[1..], rest);
      assert [octets[0]] + octets[1..] == octets;
    }
  }

  lemma EscapedChar(c: char, rest: string)
    ensures Escapes(Utf8.Octets(c as int)) != ""
    ensures DecodeChar(Escapes(Utf8.Octets(c as int)) + rest) == Ok((c, rest))
  {
    var octets := Utf8.Octets(c as int);
    Utf8.OctetsDecode(c as int);
    hide Utf8.Octets, Utf8.Character, Unescape, HexDigit, Utf8.Size;
    var t := Escapes(octets) + rest;
    UnescapesInvert(octets, rest);
    assert t == Escape(octets[0]) + (Escapes(octets[1..]) + rest);
    UnescapeInverts(octets[0], Escapes(octets[1..]) + rest);
    assert t[3 * |octets|..] == rest;
  }

  lemma DecodeCharInverts(c: char, rest: string)
    ensures EncodeChar(c) + rest != "" && DecodeChar(EncodeChar(c) + rest) == Ok((c, rest))
  {
    hide Utf8.Octets, Escapes, Unescapes, Unescape;
    EscapedChar(c, rest);
    var t := EncodeChar(c) + rest;
    if Unreserved(c) || c == ' ' {
      assert t[1..] == rest;
    }
  }

  lemma DecodeFirst(t: string, c: char, rest: string, s: string)
    requires t != "" && DecodeChar(t) == Ok((c, rest)) && Decode(rest) == Ok(s)
    ensures Decode(t) == Ok([c] + s)
  {
    hide DecodeChar;
  }

  /** Every string comes back from its encoding, whatever follows it. */
  lemma {:induction false} DecodeInverts(s: string, rest: string)
    requires Decode(rest).Ok?
    ensures Decode(Encode(s) + rest) == Ok(s + Decode(rest).value)
  {
    hide Decode, DecodeChar, EncodeChar;
    var after := Decode(rest).value;
    if s == "" {
      assert Encode(s) + rest == rest;
      assert s + after == after;
    } else {
      var more := Encode(s[1..]) + rest;
      DecodeInverts(s[1..], rest);
      DecodeCharInverts(s[0], more);
      assert Encode(s) + rest == EncodeChar(s[0]) + more;
      DecodeFirst(Encode(s) + rest, s[0], more, s[1..] + after);
      assert [s[0]] + (s[1..] + after) == s + after;
    }
  }

  function PlusToSpace(s: string): (r: string)
    ensures |r| == |s|
    ensures forall i :: 0 <= i < |s| ==> r[i] == if s[i] == '+' then ' ' else s[i]
  {
    if s == "" then "" else [if s[0] == '+' then ' ' else s[0]] + PlusToSpace(s[1..])
  }

  /** A text without escapes in front only loses its plus signs. */
  lemma {:induction false} DecodePlain(s: string, rest: string)
    requires '%' !in s && Decode(rest).Ok?
    ensures Decode(s + rest) == Ok(PlusToSpace(s) + Decode(rest).value)
  {
    hide Decode;
    var after := Decode(rest).value;
    if s == "" {
      assert s + rest == rest;
      assert PlusToSpace(s) + after == after;
    } else {
      DecodePlain(s[1..], rest);
      assert (s + rest)[1..] == s[1..] + rest;
      DecodeFirst(s + rest, PlusToSpace(s)[0], s[1..] + rest, PlusToSpace(s[1..]) + after);
      assert [PlusToSpace(s)[0]] + (PlusToSpace(s[1..]) + after) == PlusToSpace(s) + after;
    }
  }

  // ----- What an encoding is made of -----

  /** The digits of an octet, upper case in what is written and either case in what is read. */
  lemma HexDigitsAre(n: nat, c: char)
    requires n < 16
    ensures HexDigit(n) == "0123456789ABCDEF"[n]
    ensures HexValue("0123456789ABCDEF"[n]) == Some(n) && HexValue("0123456789abcdef"[n]) == Some(n)
    ensures HexValue(c).Some? ==> '0' <= c <= '9' || 'A' <= c <= 'F' || 'a' <= c <= 'f'
  {
  }

  /** Each octet takes three characters: a percent sign and its two digits. */
  lemma {:induction false} EscapesAt(octets: seq<Octet>, k: nat)
    requires k < |octets|
    ensures |Escapes(octets)| == 3 * |octets|
    ensures Escapes(octets)[3 * k] == '%'
    ensures Escapes(octets)[3 * k + 1] == "0123456789ABCDEF"[octets[k] / 16]
    ensures Escapes(octets)[3 * k + 2] == "0123456789ABCDEF"[octets[k] % 16]
  {
    UnescapesInvert(octets, "");
    UnescapesInvert(octets[1..], "");
    HexDigitsAre(octets[0] / 16, '0');
    HexDigitsAre(octets[0] % 16, '0');
    if k > 0 {
      EscapesAt(octets[1..], k - 1);
    }
  }

  lemma {:induction false} EncodeConcat(s: string, t: string)
    ensures Encode(s + t) == Encode(s) + Encode(t)
  {
    hide EncodeChar;
    if s == "" {
      assert s + t == t;
    } else {
      assert (s + t)[0] == s[0] && (s + t)[1..] == s[1..] + t;
      EncodeStep(s + t);
      EncodeStep(s);
      EncodeConcat(s[1..], t);
      hide Encode;
    }
  }

  lemma EncodeStep(s: string)
    requires s != ""
    ensures Encode(s) == EncodeChar(s[0]) + Encode(s[1..])
  {
  }

  /**
   * Letters, digits and four marks stay, a space becomes a plus sign, and any other character three characters an octet
   * of its UTF-8 encoding: a percent sign and two digits.
   */
  lemma EncodeOne(c: char)
    ensures 'A' <= c <= 'Z' || 'a' <= c <= 'z' || '0' <= c <= '9' || c == '.' || c == '-' || c == '*' || c == '_' ==>
              Encode([c]) == [c]
    ensures c == ' ' ==> Encode([c]) == "+"
    ensures !('A' <= c <= 'Z' || 'a' <= c <= 'z' || '0' <= c <= '9' || c == '.' || c == '-' || c == '*' || c == '_'
              || c == ' ') ==>
              var octets := Utf8.Octets(c as int);
              && |Encode([c])| == 3 * |octets|
              && forall k :: 0 <= k < |octets| ==>
                   && Encode([c])[3 * k] == '%'
                   && Encode([c])[3 * k + 1] == "0123456789ABCDEF"[octets[k] / 16]
                   && Encode([c])[3 * k + 2] == "0123456789ABCDEF"[octets[k] % 16]
  {
    hide Utf8.Octets, Escapes;
    var octets := Utf8.Octets(c as int);
    assert [c][1..] == "";
    assert Encode([c]) == EncodeChar(c) + Encode("") == EncodeChar(c);
    UnescapesInvert(octets, "");
    forall k | 0 <= k < |octets|
      ensures Escapes(octets)[3 * k] == '%'
      ensures Escapes(octets)[3 * k + 1] == "0123456789ABCDEF"[octets[k] / 16]
      ensures Escapes(octets)[3 * k + 2] == "0123456789ABCDEF"[octets[k] % 16]
    {
      EscapesAt(octets, k);
    }
  }

  /** The character may stand in an encoding, before the rest of it. */
  predicate Stands(t: string, k: nat)
    requires k < |t|
  {
    || 'A' <= t[k] <= 'Z' || 'a' <= t[k] <= 'z' || '0' <= t[k] <= '9'
    || t[k] == '.' || t[k] == '-' || t[k] == '*' || t[k] == '_' || t[k] == '+'
    || (t[k] == '%' && k + 2 < |t| && ('0' <= t[k + 1] <= '9' || 'A' <= t[k + 1] <= 'F')
        && ('0' <= t[k + 2] <= '9' || 'A' <= t[k + 2] <= 'F'))
  }

  lemma EncodeOneStands(c: char, k: nat)
    requires k < |Encode([c])|
    ensures Stands(Encode([c]), k)
  {
    hide Utf8.Octets, Encode;
    EncodeOne(c);
    var octets := Utf8.Octets(c as int);
    if |Encode([c])| > 1 {
      var j := k / 3;
      assert k == 3 * j || k == 3 * j + 1 || k == 3 * j + 2;
      assert j < |octets|;
      UpperHex(octets[j] / 16);
      UpperHex(octets[j] % 16);
    }
  }

  lemma UpperHex(n: nat)
    requires n < 16
    ensures '0' <= "0123456789ABCDEF"[n] <= '9' || 'A' <= "0123456789ABCDEF"[n] <= 'F'
  {
  }

  /**
   * An encoding holds ASCII letters and digits, five marks, and percent signs, each followed by two upper-case
   * hexadecimal digits. In particular it holds no slash.
   */
  lemma EncodeIsPlain(s: string)
    ensures forall k :: 0 <= k < |Encode(s)| ==> Stands(Encode(s), k)
    ensures '/' !in Encode(s)
  {
    hide Stands;
    forall k | 0 <= k < |Encode(s)|
      ensures Stands(Encode(s), k) && Encode(s)[k] != '/'
    {
      EncodeStands(s, k);
      SlashNeverStands(Encode(s), k);
    }
  }

  lemma SlashNeverStands(t: string, k: nat)
    requires k < |t| && Stands(t, k)
    ensures t[k] != '/'
  {
  }

  lemma StandsWithin(t: string, u: string, k: nat)
    requires k < |t + u| && if k < |t| then Stands(t, k) else Stands(u, k - |t|)
    ensures Stands(t + u, k)
  {
  }

  lemma {:induction false} EncodeStands(s: string, k: nat)
    requires k < |Encode(s)|
    ensures Stands(Encode(s), k)
  {
    hide Stands, EncodeChar;
    if s != "" {
      EncodeConcat([s[0]], s[1..]);
      assert s == [s[0]] + s[1..];
      hide Encode;
      if k < |Encode([s[0]])| {
        EncodeOneStands(s[0], k);
      } else {
        EncodeStands(s[1..], k - |Encode([s[0]])|);
      }
      StandsWithin(Encode([s[0]]), Encode(s[1..]), k);
    }
  }
}
