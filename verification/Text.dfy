/** Java string operations the worker relies on: natural order, case-insensitive equality, decimal printing. */
module Text {

  // ----- Natural order of strings (String.compareTo), which a TreeSet of strings iterates in -----

  predicate Before(s: string, t: string)
  {
    if t == "" then false
    else if s == "" then true
    else if s[0] != t[0] then s[0] < t[0]
    else Before(s[1..], t[1..])
  }

  lemma {:induction false} BeforeTotal(s: string, t: string)
    ensures s == t || Before(s, t) || Before(t, s)
  {
    if s != "" && t != "" && s[0] == t[0] {
      BeforeTotal(s[1..], t[1..]);
      assert s == [s[0]] + s[1..] && t == [t[0]] + t[1..];
    }
  }

  lemma {:induction false} BeforeIrreflexive(s: string)
    ensures !Before(s, s)
  {
    if s != "" {
      BeforeIrreflexive(s[1..]);
    }
  }

  lemma {:induction false} BeforeTransitive(s: string, t: string, u: string)
    requires Before(s, t) && Before(t, u)
    ensures Before(s, u)
  {
    if s != "" && s[0] == t[0] && t[0] == u[0] {
      BeforeTransitive(s[1..], t[1..], u[1..]);
    }
  }

  /** The strings agree before position k, where the first one ends or has the smaller character. */
  predicate DiffersAt(s: string, t: string, k: int)
  {
    0 <= k < |t| && k <= |s| && s[..k] == t[..k] && (k == |s| || s[k] < t[k])
  }

  /** The order is decided at the first position where the strings differ; a proper prefix comes first. */
  lemma {:induction false} BeforeIff(s: string, t: string)
    ensures Before(s, t) <==> exists k :: DiffersAt(s, t, k)
  {
    if s != "" && t != "" && s[0] == t[0] {
      BeforeIff(s[1..], t[1..]);
      if k :| DiffersAt(s[1..], t[1..], k) {
        assert s[..k + 1] == [s[0]] + s[1..][..k] && t[..k + 1] == [t[0]] + t[1..][..k];
        assert DiffersAt(s, t, k + 1);
      }
      if k :| DiffersAt(s, t, k) {
        assert k > 0;
        assert s[1..][..k - 1] == s[..k][1..] && t[1..][..k - 1] == t[..k][1..];
        assert DiffersAt(s[1..], t[1..], k - 1);
      }
    } else if t != "" && (s == "" || s[0] < t[0]) {
      assert s[..0] == t[..0];
      assert DiffersAt(s, t, 0);
    } else if k :| DiffersAt(s, t, k) {
      if k > 0 {
        SameStart(s, t, k);
      }
    }
  }

  lemma SameStart(s: string, t: string, k: int)
    requires DiffersAt(s, t, k) && k > 0
    ensures s != "" && t != "" && s[0] == t[0]
  {
    assert s[..k][0] == t[..k][0];
  }

  /** The last element of a set in iteration order. */
  predicate IsGreatest(s: set<string>, m: string)
  {
    m in s && forall x :: x in s ==> x == m || Before(x, m)
  }

  lemma {:induction false} GreatestExists(s: set<string>) returns (m: string)
    requires s != {}
    ensures IsGreatest(s, m)
    decreases s
  {
    var x :| x in s;
    if s == {x} {
      m := x;
    } else {
      var y := GreatestExists(s - {x});
      BeforeTotal(x, y);
      m := if Before(x, y) then y else x;
      forall z | z in s
        ensures z == m || Before(z, m)
      {
        if z != x && z != y && m == x {
          BeforeTransitive(z, y, x);
        }
      }
    }
  }

  lemma GreatestUnique(s: set<string>, m: string, n: string)
    requires IsGreatest(s, m) && IsGreatest(s, n)
    ensures m == n
  {
    if m != n {
      BeforeTransitive(m, n, m);
      BeforeIrreflexive(m);
    }
  }

  function Greatest(s: set<string>): (m: string)
    requires s != {}
    ensures IsGreatest(s, m)
  {
    assert exists m :: IsGreatest(s, m) by { var m := GreatestExists(s); }
    assert forall m, n :: IsGreatest(s, m) && IsGreatest(s, n) ==> m == n by {
      forall m, n | IsGreatest(s, m) && IsGreatest(s, n) ensures m == n { GreatestUnique(s, m, n); }
    }
    var m :| m in s && IsGreatest(s, m);
    m
  }

  /** The members of a TreeSet in iteration order. */
  function Ascending(s: set<string>): (r: seq<string>)
    decreases s
  {
    if s == {} then [] else Ascending(s - {Greatest(s)}) + [Greatest(s)]
  }

  lemma {:induction false} AscendingMembers(s: set<string>)
    ensures |Ascending(s)| == |s|
    ensures forall x :: x in Ascending(s) <==> x in s
    decreases s
  {
    if s != {} {
      AscendingMembers(s - {Greatest(s)});
    }
  }

  lemma {:induction false} AscendingSorted(s: set<string>, i: nat, j: nat)
    requires i < j < |Ascending(s)|
    ensures Before(Ascending(s)[i], Ascending(s)[j])
    decreases s
  {
    var rest := s - {Greatest(s)};
    AscendingMembers(rest);
    if j < |Ascending(rest)| {
      AscendingSorted(rest, i, j);
    } else {
      assert Ascending(s)[i] in Ascending(rest);
    }
  }

  // ----- String.equalsIgnoreCase on ASCII -----

  function FoldCase(c: char): char
  {
    if 'A' <= c <= 'Z' then c + ' ' else c
  }

  predicate EqualsIgnoreCase(s: string, t: string)
  {
    |s| == |t| && forall i :: 0 <= i < |s| ==> FoldCase(s[i]) == FoldCase(t[i])
  }

  /** Equal up to the case of the letters A to Z. */
  lemma EqualsIgnoreCaseIff(s: string, t: string)
    ensures EqualsIgnoreCase(s, t) <==>
            && |s| == |t|
            && forall i :: 0 <= i < |s| ==>
                 || s[i] == t[i]
                 || ('A' <= s[i] <= 'Z' && t[i] as int == s[i] as int + 32)
                 || ('A' <= t[i] <= 'Z' && s[i] as int == t[i] as int + 32)
  {
  }

  // ----- Printing integers -----

  function Digits(n: nat): (s: string)
    ensures |s| > 0
    ensures forall i :: 0 <= i < |s| ==> '0' <= s[i] <= '9'
  {
    if n < 10 then [('0' as int + n) as char]
    else Digits(n / 10) + [('0' as int + n % 10) as char]
  }

  /** Integer.toString and string concatenation with an int. */
  function Decimal(n: int): (s: string)
    ensures |s| > 0
    ensures forall i :: 0 <= i < |s| ==> s[i] == '-' || '0' <= s[i] <= '9'
  {
    if n < 0 then "-" + Digits(-n) else Digits(n)
  }

  /** The number a string of digits denotes. */
  function ParseDigits(s: string): nat
    requires forall i :: 0 <= i < |s| ==> '0' <= s[i] <= '9'
  {
    if s == "" then 0 else 10 * ParseDigits(s[..|s| - 1]) + (s[|s| - 1] as int - '0' as int)
  }

  lemma {:induction false} ParseDigitsInverts(n: nat)
    ensures ParseDigits(Digits(n)) == n
  {
    if n >= 10 {
      ParseDigitsInverts(n / 10);
      assert Digits(n)[..|Digits(n)| - 1] == Digits(n / 10);
    } else {
      assert Digits(n)[..0] == "";
    }
  }

  /** No leading zeros, and a minus sign exactly for a negative number. */
  lemma {:induction false} DecimalCanonical(n: int)
    ensures Decimal(n)[0] == '-' <==> n < 0
    ensures n >= 0 ==> (Decimal(n)[0] == '0' <==> n == 0) && (|Decimal(n)| == 1 <==> n < 10)
    ensures n < 0 ==> Decimal(n)[1..] == Decimal(-n)
    decreases if n < 0 then -n else n
  {
    if n >= 10 {
      DecimalCanonical(n / 10);
    }
  }

  lemma DecimalInjective(a: int, b: int)
    requires Decimal(a) == Decimal(b)
    ensures a == b
  {
    assert Decimal(a)[0] == Decimal(b)[0];
    if a >= 0 {
      ParseDigitsInverts(a);
      ParseDigitsInverts(b);
    } else {
      assert Decimal(a)[1..] == Digits(-a) && Decimal(b)[1..] == Digits(-b);
      ParseDigitsInverts(-a);
      ParseDigitsInverts(-b);
    }
  }

  // ----- String.split on a single character -----

  /** The parts of a string between separators. */
  function Pieces(s: string, sep: char): (r: seq<string>)
    ensures r != []
  {
    if s == "" then [""]
    else if s[0] == sep then [""] + Pieces(s[1..], sep)
    else var rest := Pieces(s[1..], sep); [[s[0]] + rest[0]] + rest[1..]
  }

  function DropTrailingEmpty(r: seq<string>): seq<string>
  {
    if r != [] && r[|r| - 1] == "" then DropTrailingEmpty(r[..|r| - 1]) else r
  }

  function Split(s: string, sep: char): seq<string>
  {
    if sep !in s then [s] else DropTrailingEmpty(Pieces(s, sep))
  }

  lemma {:induction false} PiecesOfJoin(s: string, t: string, sep: char)
    requires sep !in s
    ensures Pieces(s, sep) == [s]
    ensures Pieces(s + [sep] + t, sep) == [s] + Pieces(t, sep)
  {
    if s == "" {
      assert s + [sep] + t == [sep] + t;
    } else {
      PiecesOfJoin(s[1..], t, sep);
      assert (s + [sep] + t)[1..] == s[1..] + [sep] + t;
      assert s == [s[0]] + s[1..];
    }
  }

  lemma {:induction false} FirstPieceIsWhole(s: string, sep: char)
    ensures sep !in Pieces(s, sep)[0]
  {
    if s != "" && s[0] != sep {
      FirstPieceIsWhole(s[1..], sep);
    }
  }

  lemma {:induction false} DropTrailingKeepsPrefix(r: seq<string>, n: nat)
    requires n < |r| && r[n] != ""
    ensures |DropTrailingEmpty(r)| > n && DropTrailingEmpty(r)[n] == r[n]
  {
    if r[|r| - 1] == "" {
      DropTrailingKeepsPrefix(r[..|r| - 1], n);
    }
  }

  lemma {:induction false} DropTrailingIsPrefix(r: seq<string>)
    ensures DropTrailingEmpty(r) <= r
  {
    if r != [] && r[|r| - 1] == "" {
      DropTrailingIsPrefix(r[..|r| - 1]);
    }
  }

  lemma {:induction false} PieceHasNoSeparator(s: string, sep: char, i: int)
    requires 0 <= i < |Pieces(s, sep)|
    ensures sep !in Pieces(s, sep)[i]
    decreases |s|
  {
    if s != "" {
      if s[0] != sep || i > 0 {
        PieceHasNoSeparator(s[1..], sep, if s[0] == sep then i - 1 else i);
      }
    }
  }

  /** No part of a split string contains the separator. */
  lemma SplitHasNoSeparator(s: string, sep: char, i: int)
    requires 0 <= i < |Split(s, sep)|
    ensures sep !in Split(s, sep)[i]
  {
    if sep in s {
      DropTrailingIsPrefix(Pieces(s, sep));
      PieceHasNoSeparator(s, sep, i);
    }
  }

  // ----- What splitting keeps -----

  /** Parts with the separator between any two. */
  function Glue(parts: seq<string>, sep: char): string
  {
    if parts == [] then "" else if |parts| == 1 then parts[0] else parts[0] + [sep] + Glue(parts[1..], sep)
  }

  function Times(n: nat, c: char): string
  {
    seq(n, _ => c)
  }

  lemma {:induction false} GluePieces(s: string, sep: char)
    ensures Glue(Pieces(s, sep), sep) == s
  {
    if s != "" {
      GluePieces(s[1..], sep);
      var rest := Pieces(s[1..], sep);
      assert s == [s[0]] + s[1..];
      if s[0] == sep {
        assert ([""] + rest)[1..] == rest;
      } else {
        assert ([[s[0]] + rest[0]] + rest[1..])[1..] == rest[1..];
      }
    }
  }

  lemma {:induction false} GlueLast(parts: seq<string>, last: string, sep: char)
    requires parts != []
    ensures Glue(parts + [last], sep) == Glue(parts, sep) + [sep] + last
  {
    if |parts| > 1 {
      GlueLast(parts[1..], last, sep);
      assert (parts + [last])[1..] == parts[1..] + [last];
      var rest := Glue(parts[1..], sep);
      assert parts[0] + [sep] + (rest + [sep] + last) == (parts[0] + [sep] + rest) + [sep] + last;
    } else {
      assert (parts + [last])[1..] == [last];
    }
  }

  lemma {:induction false} DropTrailingGlues(r: seq<string>, sep: char) returns (n: nat)
    requires r != []
    ensures var kept := DropTrailingEmpty(r);
            && (kept != [] ==> kept[|kept| - 1] != "" && Glue(r, sep) == Glue(kept, sep) + Times(n, sep))
            && (kept == [] ==> Glue(r, sep) == Times(n, sep))
  {
    n := 0;
    var rest := r[..|r| - 1];
    if r[|r| - 1] != "" {
      assert Glue(r, sep) + Times(0, sep) == Glue(r, sep);
    } else if rest == [] {
      assert Glue(r, sep) == Times(0, sep);
    } else {
      n := DropTrailingGlues(rest, sep);
      GlueLast(rest, "", sep);
      assert r == rest + [""];
      OneMore(n, sep);
      n := n + 1;
      assert Glue(DropTrailingEmpty(rest), sep) + Times(n - 1, sep) + [sep] ==
             Glue(DropTrailingEmpty(rest), sep) + (Times(n - 1, sep) + [sep]);
    }
  }

  lemma OneMore(n: nat, c: char)
    ensures Times(n + 1, c) == Times(n, c) + [c]
  {
  }

  /**
   * String.split: the parts, none of which contains the separator, give the string back when they are put together again
   * with it, but for separators at its end; if there is a separator, the last part is not empty.
   */
  lemma SplitGlues(s: string, sep: char) returns (n: nat)
    ensures Split(s, sep) == [] ==> s == Times(n, sep) && s != ""
    ensures Split(s, sep) != [] ==> s == Glue(Split(s, sep), sep) + Times(n, sep)
    ensures Split(s, sep) != [] && sep in s ==> Split(s, sep)[|Split(s, sep)| - 1] != ""
    ensures sep !in s ==> Split(s, sep) == [s]
    ensures forall i :: 0 <= i < |Split(s, sep)| ==> sep !in Split(s, sep)[i]
  {
    n := 0;
    if sep in s {
      GluePieces(s, sep);
      n := DropTrailingGlues(Pieces(s, sep), sep);
    } else {
      assert s + Times(0, sep) == s;
    }
    forall i | 0 <= i < |Split(s, sep)|
      ensures sep !in Split(s, sep)[i]
    {
      SplitHasNoSeparator(s, sep, i);
    }
  }
}
