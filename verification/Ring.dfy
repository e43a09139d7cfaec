/**
 * The sharding ring: virtual nodes on a sorted map of 32-bit positions, looked up clockwise with wrap-around.
 * MD5 is an arbitrary function to 16 bytes; everything after it is the source's own 32-bit arithmetic.
 */
module Ring {
  import opened Bits
  import opened Common
  import opened Text

  // ----- Positions -----

  type Digest = d: seq<int8> | |d| == 16 witness seq(16, _ => 0)

  /** Math.abs on ints: the smallest int is its own absolute value. */
  function Abs(w: int32): int32
  {
    if w < 0 then Wrap(-(w as int)) else w
  }

  function FirstWord(digest: Digest): (word: int)
    ensures 0 <= word < 0x1_0000_0000
  {
    Octet(digest[0]) * 0x100_0000 + Octet(digest[1]) * 0x1_0000 + Octet(digest[2]) * 0x100 + Octet(digest[3])
  }

  /** The first byte of the digest is the most significant one of the word. */
  lemma FirstWordBytes(digest: Digest)
    ensures var word := FirstWord(digest);
            && word / 0x100_0000 == Octet(digest[0])
            && word / 0x1_0000 % 0x100 == Octet(digest[1])
            && word / 0x100 % 0x100 == Octet(digest[2])
            && word % 0x100 == Octet(digest[3])
  {
    hide Octet;
    BytesOf(Octet(digest[0]), Octet(digest[1]), Octet(digest[2]), Octet(digest[3]));
  }

  lemma BytesOf(a: nat, b: nat, c: nat, d: nat)
    requires b < 0x100 && c < 0x100 && d < 0x100
    ensures var word := a * 0x100_0000 + b * 0x1_0000 + c * 0x100 + d;
            && word / 0x100_0000 == a && word / 0x1_0000 % 0x100 == b && word / 0x100 % 0x100 == c && word % 0x100 == d
  {
    var word := a * 0x100_0000 + b * 0x1_0000 + c * 0x100 + d;
    assert word / 0x1_0000 == a * 0x100 + b;
    assert word / 0x100 == a * 0x1_0000 + b * 0x100 + c;
  }

  function Position(digest: Digest): int32
  {
    Abs(Wrap(FirstWord(digest)))
  }

  /** `h <<= 8; h |= b` adds the byte, because the shift leaves the low bits clear. */
  lemma ShiftOrAdds(h: nat, b: int8)
    ensures Or(h * 0x100, Octet(b)) == h * 0x100 + Octet(b)
  {
    assert Pow2(8) == 0x100;
    OrAdds(h, Octet(b), 8);
  }

  /** The fold of MD5Hash.hash; four shifts stay far below the 64 bits of a long. */
  method FoldDigest(digest: Digest) returns (h: int)
    ensures h == FirstWord(digest)
    ensures 0 <= h < 0x1_0000_0000
  {
    h := 0;
    for i := 0 to 4
      invariant h >= 0
      invariant i == 0 ==> h == 0
      invariant i == 1 ==> h == Octet(digest[0])
      invariant i == 2 ==> h == Octet(digest[0]) * 0x100 + Octet(digest[1])
      invariant i == 3 ==> h == Octet(digest[0]) * 0x1_0000 + Octet(digest[1]) * 0x100 + Octet(digest[2])
      invariant i == 4 ==> h == FirstWord(digest)
    {
      hide Or, Octet;
      ShiftOrAdds(h, digest[i]);
      h := h * 0x100;
      h := Or(h, Octet(digest[i]));
    }
  }

  /** The position is the first word as a signed int without its sign, except for the one that has no opposite. */
  lemma PositionOf(d: Digest)
    ensures var w := FirstWord(d);
            Position(d) as int == if w < 0x8000_0000 then w else if w == 0x8000_0000 then -w else 0x1_0000_0000 - w
  {
    assert FirstWord(d) % 0x1_0000_0000 == FirstWord(d);
  }

  /** Two digests share a ring position exactly when their first words are equal or negatives of each other. */
  lemma PositionCollisions(d: Digest, e: Digest)
    ensures Position(d) == Position(e) <==>
            FirstWord(d) == FirstWord(e) || FirstWord(d) + FirstWord(e) == 0x1_0000_0000
    ensures Position(d) == Position(e) <==> SamePosition(d, e)
    ensures Position(d) < 0 <==> FirstWord(d) == 0x8000_0000
    ensures Position(d) < 0 ==> Position(d) == -0x8000_0000
  {
    PositionOf(d);
    PositionOf(e);
  }

  // ----- Building the ring -----

  type Locate = string -> int32

  /** The positions the ring uses, for any digest function. */
  function LocateBy(md5: string -> Digest): Locate
  {
    s => Position(md5(s))
  }

  function Label(node: string, i: nat): string
  {
    node + Decimal(i)
  }

  /** Different replicas of different nodes do get the same label, so positions collide whatever the hash is. */
  lemma LabelsCollide()
    ensures Label("10.0.0.1", 10) == Label("10.0.0.11", 0)
  {
    assert Digits(10) == Digits(1) + ['0'];
    assert Digits(1) == "1" && Digits(0) == "0";
  }

  /** Some replica of one node has the label of some replica of the other. */
  ghost predicate SharesLabel(a: string, b: string, replicas: nat)
  {
    exists i: nat, j: nat :: i < replicas && j < replicas && Label(a, i) == Label(b, j)
  }

  /** One address is the other followed by a number whose tenfold is still a replica number. */
  ghost predicate Extends(a: string, b: string, replicas: nat)
  {
    exists n: nat :: n >= 1 && b == a + Digits(n) && 10 * n < replicas
  }

  /** Labels of two nodes collide exactly when one address extends the other by a small enough number. */
  lemma LabelsCollideIff(a: string, b: string, replicas: nat)
    requires a != b
    ensures SharesLabel(a, b, replicas) <==> Extends(a, b, replicas) || Extends(b, a, replicas)
  {
    if i: nat, j: nat :| i < replicas && j < replicas && Label(a, i) == Label(b, j) {
      if |a| < |b| {
        SharedLabelExtends(a, i, b, j);
      } else {
        SharedLabelExtends(b, j, a, i);
      }
    }
    if Extends(a, b, replicas) {
      ExtensionShares(a, b, replicas);
    }
    if Extends(b, a, replicas) {
      ExtensionShares(b, a, replicas);
      var i: nat, j: nat :| i < replicas && j < replicas && Label(b, i) == Label(a, j);
    }
  }

  lemma ExtensionShares(a: string, b: string, replicas: nat)
    requires Extends(a, b, replicas)
    ensures SharesLabel(a, b, replicas)
  {
    var n: nat :| n >= 1 && b == a + Digits(n) && 10 * n < replicas;
    assert Digits(10 * n) == Digits(n) + ['0'];
    assert Digits(0) == "0";
    assert Label(a, 10 * n) == Label(b, 0);
  }

  lemma SharedLabelExtends(a: string, i: nat, b: string, j: nat)
    requires Label(a, i) == Label(b, j) && a != b && |a| <= |b|
    ensures exists n: nat :: n >= 1 && b == a + Digits(n) && 10 * n <= i
  {
    var text := Label(a, i);
    assert a == text[..|a|] && b == text[..|b|];
    assert text[|a|..] == Digits(i);
    var k := |b| - |a|;
    assert text[|a|..][..k] == text[|a|..|b|];
    var n := PrefixOfDigits(i, k);
    assert b == a + text[|a|..|b|];
  }

  /** A proper prefix of a number is a number at most a tenth of it. */
  lemma {:induction false} PrefixOfDigits(i: nat, k: nat) returns (n: nat)
    requires 0 < k < |Digits(i)|
    ensures n >= 1 && Digits(i)[..k] == Digits(n) && 10 * n <= i
  {
    var front := Digits(i / 10);
    assert Digits(i) == front + [('0' as int + i % 10) as char];
    if k == |front| {
      n := i / 10;
    } else {
      n := PrefixOfDigits(i / 10, k);
    }
  }

  /** The ring after the first `replicas` puts of `node`. */
  function Place(at: Locate, circle: map<int32, string>, node: string, replicas: nat): map<int32, string>
  {
    if replicas == 0 then circle
    else Place(at, circle, node, replicas - 1)[at(Label(node, replicas - 1)) := node]
  }

  function Build(at: Locate, nodes: seq<string>, replicas: nat): map<int32, string>
  {
    if nodes == [] then map[]
    else Place(at, Build(at, nodes[..|nodes| - 1], replicas), nodes[|nodes| - 1], replicas)
  }

  ghost predicate WritesAt(at: Locate, node: string, replicas: nat, p: int32)
  {
    exists i: nat :: i < replicas && at(Label(node, i)) == p
  }

  lemma {:induction false} PlaceAt(at: Locate, circle: map<int32, string>, node: string, replicas: nat, p: int32)
    ensures p in Place(at, circle, node, replicas) <==> p in circle || WritesAt(at, node, replicas, p)
    ensures p in Place(at, circle, node, replicas) ==>
              Place(at, circle, node, replicas)[p] == if WritesAt(at, node, replicas, p) then node else circle[p]
  {
    if replicas > 0 {
      PlaceAt(at, circle, node, replicas - 1, p);
      if WritesAt(at, node, replicas, p) && at(Label(node, replicas - 1)) != p {
        var i: nat :| i < replicas && at(Label(node, i)) == p;
        assert WritesAt(at, node, replicas - 1, p);
      }
    }
  }

  /** The last writer of a position wins: `circle.put` in iteration order. */
  lemma BuildAt(at: Locate, nodes: seq<string>, last: string, replicas: nat, p: int32)
    ensures var was, now := Build(at, nodes, replicas), Build(at, nodes + [last], replicas);
            && (p in now <==> p in was || WritesAt(at, last, replicas, p))
            && (p in now ==> now[p] == if WritesAt(at, last, replicas, p) then last else was[p])
  {
    assert (nodes + [last])[..|nodes|] == nodes;
    PlaceAt(at, Build(at, nodes, replicas), last, replicas, p);
  }

  /** The node is the last of the sequence that writes the position. */
  ghost predicate LastWriter(at: Locate, nodes: seq<string>, replicas: nat, p: int32, k: int)
  {
    && 0 <= k < |nodes| && WritesAt(at, nodes[k], replicas, p)
    && forall j :: k < j < |nodes| ==> !WritesAt(at, nodes[j], replicas, p)
  }

  /** A position is occupied when some node writes it, and held by the last one in the sequence that does. */
  lemma {:induction false} BuildHolder(at: Locate, nodes: seq<string>, replicas: nat, p: int32)
    ensures p in Build(at, nodes, replicas) <==> exists k :: LastWriter(at, nodes, replicas, p, k)
    ensures forall k :: LastWriter(at, nodes, replicas, p, k) ==> Build(at, nodes, replicas)[p] == nodes[k]
  {
    hide WritesAt;
    if nodes != [] {
      var n := |nodes| - 1;
      var rest, last := nodes[..n], nodes[n];
      BuildHolder(at, rest, replicas, p);
      BuildAt(at, rest, last, replicas, p);
      assert nodes == rest + [last];
      if WritesAt(at, last, replicas, p) {
        assert LastWriter(at, nodes, replicas, p, n);
      } else {
        forall k
          ensures LastWriter(at, nodes, replicas, p, k) <==> LastWriter(at, rest, replicas, p, k)
        {
          assert forall j :: 0 <= j < n ==> nodes[j] == rest[j];
        }
      }
    }
  }

  // ----- Lookup -----

  ghost predicate IsLeast(s: set<int32>, m: int32)
  {
    m in s && forall x :: x in s ==> m <= x
  }

  lemma {:induction false} LeastExists(s: set<int32>) returns (m: int32)
    requires s != {}
    ensures IsLeast(s, m)
    decreases s
  {
    var x :| x in s;
    m := x;
    if s != {x} {
      var y := LeastExists(s - {x});
      assert s == (s - {x}) + {x};
      m := if x < y then x else y;
    }
  }

  /** TreeMap.firstKey */
  function Least(s: set<int32>): (m: int32)
    requires s != {}
    ensures IsLeast(s, m)
  {
    assert exists m :: IsLeast(s, m) by { var m := LeastExists(s); }
    var m :| m in s && forall x :: x in s ==> m <= x;
    m
  }

  /** `p` is the first position at or after `h`, or the smallest one when there is none. */
  predicate FirstClockwise(positions: set<int32>, h: int32, p: int32)
  {
    && p in positions
    && if p >= h
       then forall q :: q in positions && q >= h ==> p <= q
       else forall q :: q in positions ==> p <= q < h
  }

  lemma FirstClockwiseUnique(positions: set<int32>, h: int32, p: int32, q: int32)
    requires FirstClockwise(positions, h, p) && FirstClockwise(positions, h, q)
    ensures p == q
  {
    assert p in positions && q in positions;
  }

  lemma FirstClockwiseExists(positions: set<int32>, h: int32) returns (p: int32)
    requires positions != {}
    ensures FirstClockwise(positions, h, p)
  {
    var tail := set q | q in positions && q >= h;
    if tail == {} {
      p := LeastExists(positions);
      forall q | q in positions ensures q < h { assert q !in tail; }
    } else {
      p := LeastExists(tail);
      assert p in tail;
      forall q | q in positions && q >= h ensures p <= q { assert q in tail; }
    }
  }

  /** The node whose virtual node comes first clockwise from `h`. */
  function Owner(circle: map<int32, string>, h: int32): (owner: Option<string>)
    ensures owner.None? <==> circle == map[]
    ensures owner.Some? ==> exists p :: FirstClockwise(circle.Keys, h, p) && owner.value == circle[p]
  {
    if circle == map[] then None
    else
      assert circle.Keys != {};
      assert exists p :: FirstClockwise(circle.Keys, h, p) by { var p := FirstClockwiseExists(circle.Keys, h); }
      assert forall p, q :: FirstClockwise(circle.Keys, h, p) && FirstClockwise(circle.Keys, h, q) ==> p == q by {
        forall p, q | FirstClockwise(circle.Keys, h, p) && FirstClockwise(circle.Keys, h, q)
          ensures p == q { FirstClockwiseUnique(circle.Keys, h, p, q); }
      }
      var p :| p in circle.Keys && FirstClockwise(circle.Keys, h, p);
      Some(circle[p])
  }

  lemma OwnerAt(circle: map<int32, string>, h: int32, p: int32)
    requires FirstClockwise(circle.Keys, h, p)
    ensures Owner(circle, h) == Some(circle[p])
  {
    var q :| FirstClockwise(circle.Keys, h, q) && Owner(circle, h) == Some(circle[q]);
    FirstClockwiseUnique(circle.Keys, h, p, q);
  }

  /** The node at the least position. */
  function Head(circle: map<int32, string>): (head: Option<string>)
    ensures head.None? <==> circle == map[]
    ensures head.Some? ==> exists p :: p in circle && (forall q :: q in circle ==> p <= q) && head == Some(circle[p])
  {
    if circle == map[] then None else assert circle.Keys != {}; Some(circle[Least(circle.Keys)])
  }

  lemma HeadAt(circle: map<int32, string>) returns (p: int32)
    requires circle != map[]
    ensures p in circle && IsLeast(circle.Keys, p) && Head(circle) == Some(circle[p])
  {
    assert circle.Keys != {};
    p := Least(circle.Keys);
  }

  lemma AtLeast(s: set<int32>, p: int32, q: int32)
    requires IsLeast(s, p) && q in s
    ensures p <= q
  {
  }

  /** ConsistentHash<String> */
  class ConsistentHash {
    const at: Locate
    const numberOfReplicas: int
    var circle: map<int32, string>

    constructor (at: Locate, numberOfReplicas: int, nodes: seq<string>)
      ensures this.at == at && this.numberOfReplicas == numberOfReplicas
      ensures circle == Build(at, nodes, Replicas())
    {
      this.at := at;
      this.numberOfReplicas := numberOfReplicas;
      this.circle := map[];
      new;
      for i := 0 to |nodes|
        invariant this.at == at && this.numberOfReplicas == numberOfReplicas
        invariant circle == Build(at, nodes[..i], Replicas())
      {
        Add(nodes[i]);
        assert nodes[..i + 1][..i] == nodes[..i];
      }
      assert nodes[..|nodes|] == nodes;
    }

    function Replicas(): nat
    {
      if numberOfReplicas < 0 then 0 else numberOfReplicas
    }

    method Add(node: string)
      modifies this
      ensures circle == Place(at, old(circle), node, Replicas())
    {
      var i := 0;
      while i < numberOfReplicas
        invariant 0 <= i <= Replicas()
        invariant circle == Place(at, old(circle), node, i)
      {
        circle := circle[at(Label(node, i)) := node];
        i := i + 1;
      }
    }

    method GetNode(key: string) returns (node: Option<string>)
      ensures node == Owner(circle, at(key))
    {
      if circle == map[] {
        return None;
      }
      var hash := at(key);
      ghost var h := hash;
      if hash !in circle {
        var tailMap := set p | p in circle && p >= hash;
        assert circle.Keys != {};
        hash := if tailMap == {} then Least(circle.Keys) else Least(tailMap);
        forall q | q in circle && q >= h ensures q in tailMap {}
      }
      OwnerAt(circle, h, hash);
      return Some(circle[hash]);
    }

    method GetHeadNode() returns (node: Option<string>)
      ensures node == Head(circle)
      ensures circle == map[] ==> node == None
      ensures circle != map[] ==>
                exists p :: p in circle && (forall q :: q in circle ==> p <= q) && node == Some(circle[p])
    {
      if circle == map[] {
        return None;
      }
      assert circle.Keys != {};
      return Some(circle[Least(circle.Keys)]);
    }
  }

  // ----- Inserting one node anywhere in the iteration order -----

  /** The bigger ring keeps every position of the smaller one and differs only where `joined` now sits. */
  lemma {:induction false} InsertedRing(at: Locate, before: seq<string>, joined: string, after: seq<string>,
                                        replicas: nat, p: int32)
    ensures var small, big := Build(at, before + after, replicas), Build(at, before + [joined] + after, replicas);
            && (p in small ==> p in big)
            && (p in big && big[p] != joined ==> p in small && small[p] == big[p])
    decreases |after|
  {
    if after == [] {
      assert before + after == before && before + [joined] + after == before + [joined];
      BuildAt(at, before, joined, replicas, p);
    } else {
      var rest, last := after[..|after| - 1], after[|after| - 1];
      InsertedRing(at, before, joined, rest, replicas, p);
      assert before + after == (before + rest) + [last];
      assert before + [joined] + after == (before + [joined] + rest) + [last];
      BuildAt(at, before + rest, last, replicas, p);
      BuildAt(at, before + [joined] + rest, last, replicas, p);
    }
  }

  /** A lookup answers as before or moves to the node that joined; read backwards, a leaver moves only its own keys. */
  lemma MinimalDisruption(at: Locate, before: seq<string>, joined: string, after: seq<string>, replicas: nat, h: int32)
    ensures var was, now := Owner(Build(at, before + after, replicas), h),
                            Owner(Build(at, before + [joined] + after, replicas), h);
            now == was || now == Some(joined)
  {
    var small, big := Build(at, before + after, replicas), Build(at, before + [joined] + after, replicas);
    forall p ensures p in small ==> p in big {
      InsertedRing(at, before, joined, after, replicas, p);
    }
    if big == map[] {
      assert small.Keys == {};
    } else {
      assert Owner(big, h).Some?;
      var p :| FirstClockwise(big.Keys, h, p) && Owner(big, h).value == big[p];
      InsertedRing(at, before, joined, after, replicas, p);
      if big[p] != joined {
        assert FirstClockwise(small.Keys, h, p);
        OwnerAt(small, h, p);
      }
    }
  }

  // ----- Rings rebuilt from membership sets -----

  function RingOf(at: Locate, view: set<string>, replicas: nat): map<int32, string>
  {
    Build(at, Ascending(view), replicas)
  }

  ghost predicate GreatestWriter(at: Locate, view: set<string>, replicas: nat, p: int32, node: string)
  {
    && node in view
    && WritesAt(at, node, replicas, p)
    && forall x :: x in view && WritesAt(at, x, replicas, p) ==> x == node || Before(x, node)
  }

  /** A position is held by the greatest member that writes it, and occupied when any member does. */
  lemma {:induction false} RingOfAt(at: Locate, view: set<string>, replicas: nat, p: int32)
    ensures p in RingOf(at, view, replicas) <==> exists x :: x in view && WritesAt(at, x, replicas, p)
    ensures p in RingOf(at, view, replicas) ==>
              GreatestWriter(at, view, replicas, p, RingOf(at, view, replicas)[p])
    decreases view
  {
    if view != {} {
      var last := Greatest(view);
      var rest := view - {last};
      RingOfAt(at, rest, replicas, p);
      BuildAt(at, Ascending(rest), last, replicas, p);
      assert forall x :: x in view <==> x in rest || x == last;
    }
  }

  /** Adding any number of members: an owner that was already a member was already the owner. */
  lemma OwnerSurvivesShrinking(at: Locate, small: set<string>, big: set<string>, replicas: nat, h: int32)
    requires small <= big
    ensures var owner := Owner(RingOf(at, big, replicas), h);
            owner.Some? && owner.value in small ==> Owner(RingOf(at, small, replicas), h) == owner
  {
    var ring, ring' := RingOf(at, small, replicas), RingOf(at, big, replicas);
    var owner := Owner(ring', h);
    if owner.Some? && owner.value in small {
      var p :| FirstClockwise(ring'.Keys, h, p) && owner.value == ring'[p];
      RingOfAt(at, big, replicas, p);
      RingOfAt(at, small, replicas, p);
      forall q | q in ring ensures q in ring' {
        RingOfAt(at, small, replicas, q);
        RingOfAt(at, big, replicas, q);
      }
      assert FirstClockwise(ring.Keys, h, p);
      OwnerAt(ring, h, p);
      if ring[p] != ring'[p] {
        assert ring[p] in big;
        assert Before(ring[p], ring'[p]) && Before(ring'[p], ring[p]);
        BeforeTransitive(ring[p], ring'[p], ring[p]);
        BeforeIrreflexive(ring[p]);
      }
    }
  }

  lemma OwnerIsMember(at: Locate, view: set<string>, replicas: nat, h: int32)
    ensures Owner(RingOf(at, view, replicas), h).Some? <==> view != {} && replicas > 0
    ensures Owner(RingOf(at, view, replicas), h).Some? ==> Owner(RingOf(at, view, replicas), h).value in view
  {
    var ring := RingOf(at, view, replicas);
    if ring != map[] {
      assert Owner(ring, h).Some?;
      var p :| FirstClockwise(ring.Keys, h, p) && Owner(ring, h).value == ring[p];
      RingOfAt(at, view, replicas, p);
    }
    if x :| x in view && replicas > 0 {
      assert WritesAt(at, x, replicas, at(Label(x, 0)));
      RingOfAt(at, view, replicas, at(Label(x, 0)));
    }
  }

  /**
   * Any change of membership, whatever joined and left: a key changes owner only if its old owner left
   * or its new owner joined.
   */
  lemma KeysMoveOnlyWithMembers(at: Locate, view: set<string>, view': set<string>, replicas: nat, h: int32)
    ensures var was, now := Owner(RingOf(at, view, replicas), h), Owner(RingOf(at, view', replicas), h);
            was == now || (was.Some? && was.value !in view') || (now.Some? && now.value !in view)
  {
    OwnerIsMember(at, view, replicas, h);
    OwnerIsMember(at, view', replicas, h);
    OwnerIsMember(at, view + view', replicas, h);
    OwnerSurvivesShrinking(at, view, view + view', replicas, h);
    OwnerSurvivesShrinking(at, view', view + view', replicas, h);
  }

  // ----- The ring on MD5 digests -----

  /** The two digests put their labels at one position. */
  predicate SamePosition(d: Digest, e: Digest)
  {
    FirstWord(d) == FirstWord(e) || FirstWord(d) + FirstWord(e) == 0x1_0000_0000
  }

  /** `q` does not come before `p` on the way clockwise from `h`. */
  predicate NotBefore(h: int32, p: int32, q: int32)
  {
    if p >= h then q < h || p <= q else p <= q < h
  }

  /** Clockwise from `h` the positions are in a line that starts with `h` itself. */
  lemma ClockwiseOrder(h: int32, p: int32, q: int32, r: int32)
    ensures NotBefore(h, p, q) || NotBefore(h, q, p)
    ensures NotBefore(h, p, q) && NotBefore(h, q, p) ==> p == q
    ensures NotBefore(h, p, q) && NotBefore(h, q, r) ==> NotBefore(h, p, r)
    ensures NotBefore(h, h, p)
    ensures h <= p < 0x7fff_ffff ==> NotBefore(h, p, p + 1)
  {
  }

  /**
   * The owner of a key, down to the digest bytes: a replica of it is first clockwise from the key among all replicas of
   * all members, and of the members with a replica at that same position it is the greatest.
   */
  lemma OwnerByDigest(md5: string -> Digest, view: set<string>, replicas: nat, key: string)
    returns (owner: string, i: nat)
    requires view != {} && replicas > 0
    ensures Owner(RingOf(LocateBy(md5), view, replicas), LocateBy(md5)(key)) == Some(owner)
    ensures owner in view && i < replicas
    ensures forall x, j: nat :: x in view && j < replicas ==>
              NotBefore(Position(md5(key)), Position(md5(Label(owner, i))), Position(md5(Label(x, j))))
    ensures forall x, j: nat ::
              x in view && j < replicas && SamePosition(md5(Label(x, j)), md5(Label(owner, i))) ==>
              x == owner || Before(x, owner)
  {
    var at := LocateBy(md5);
    var ring, h := RingOf(at, view, replicas), at(key);
    OwnerIsMember(at, view, replicas, h);
    var p :| FirstClockwise(ring.Keys, h, p) && Owner(ring, h) == Some(ring[p]);
    owner := ring[p];
    RingOfAt(at, view, replicas, p);
    i :| i < replicas && at(Label(owner, i)) == p;
    forall x, j: nat | x in view && j < replicas
      ensures NotBefore(h, p, Position(md5(Label(x, j))))
      ensures SamePosition(md5(Label(x, j)), md5(Label(owner, i))) ==> x == owner || Before(x, owner)
    {
      var q := at(Label(x, j));
      assert WritesAt(at, x, replicas, q);
      RingOfAt(at, view, replicas, q);
      PositionCollisions(md5(Label(x, j)), md5(Label(owner, i)));
    }
  }

  /** The head, down to the digest bytes: a replica of it has the least position of all, and no greater member is there. */
  lemma HeadByDigest(md5: string -> Digest, view: set<string>, replicas: nat) returns (head: string, i: nat)
    requires view != {} && replicas > 0
    ensures Head(RingOf(LocateBy(md5), view, replicas)) == Some(head)
    ensures head in view && i < replicas
    ensures forall x, j: nat :: x in view && j < replicas ==>
              Position(md5(Label(head, i))) <= Position(md5(Label(x, j)))
    ensures forall x, j: nat ::
              x in view && j < replicas && SamePosition(md5(Label(x, j)), md5(Label(head, i))) ==>
              x == head || Before(x, head)
  {
    hide Head, FirstWord, Label, IsLeast, RingOf, Position;
    var at := LocateBy(md5);
    var ring := RingOf(at, view, replicas);
    OwnerIsMember(at, view, replicas, 0);
    var p := HeadAt(ring);
    head := ring[p];
    RingOfAt(at, view, replicas, p);
    i :| i < replicas && at(Label(head, i)) == p;
    forall x, j: nat | x in view && j < replicas
      ensures p <= Position(md5(Label(x, j)))
      ensures SamePosition(md5(Label(x, j)), md5(Label(head, i))) ==> x == head || Before(x, head)
    {
      var q := at(Label(x, j));
      assert WritesAt(at, x, replicas, q);
      RingOfAt(at, view, replicas, q);
      AtLeast(ring.Keys, p, q);
      PositionCollisions(md5(Label(x, j)), md5(Label(head, i)));
    }
  }
}
