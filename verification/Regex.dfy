/**
 * Backtracking regular expressions, as java.util.regex matches them: a greedy repetition tries the longest run
 * first, a lazy one the shortest, and the first way through the rest of the pattern wins.
 */
module Regex {
  import opened Common

  /** Character classes. */
  datatype Class = Only(c: char) | Digit | Any | Host | KeyStart | KeyRest {

    predicate Has(x: char)
    {
      match this
      case Only(c) => x == c
      case Digit => '0' <= x <= '9'
      case Any => !LineBreak(x)
      case Host => Alphanumeric(x) || x == '-' || x == '%' || x == '.' || x == '_' || x == ':'
      case KeyStart => Alphanumeric(x) || x == '_' || x == '.'
      case KeyRest => Alphanumeric(x) || x == '_' || x == '.' || x == '-'
    }
  }

  predicate Alphanumeric(x: char)
  {
    '0' <= x <= '9' || 'a' <= x <= 'z' || 'A' <= x <= 'Z'
  }

  /** The line terminators that a dot does not match. */
  predicate LineBreak(x: char)
  {
    x as int == 0x0A || x as int == 0x0D || x as int == 0x85 || x as int == 0x2028 || x as int == 0x2029
  }

  /** The classes by code points. */
  lemma ClassesAre(x: char)
    ensures Digit.Has(x) <==> 48 <= x as int <= 57
    ensures KeyStart.Has(x) <==>
            48 <= x as int <= 57 || 65 <= x as int <= 90 || 97 <= x as int <= 122 || x as int == 95 || x as int == 46
    ensures KeyRest.Has(x) <==> KeyStart.Has(x) || x as int == 45
    ensures Host.Has(x) <==> KeyRest.Has(x) || x as int == 37 || x as int == 58
    ensures Any.Has(x) <==> x as int != 10 && x as int != 13 && x as int != 133 && x as int != 8232 && x as int != 8233
    ensures forall c: char :: Only(c).Has(x) <==> x == c
  {
  }

  predicate OneLine(s: string)
  {
    forall i :: 0 <= i < |s| ==> !LineBreak(s[i])
  }

  /** A repetition of a class, a position to report (where a group starts or ends), or the end of the pattern. */
  datatype Pattern =
    | Rep(cls: Class, min: nat, max: Option<nat>, greedy: bool, next: Pattern)
    | Mark(next: Pattern)
    | Done(atEnd: bool)

  /** One character, and zero or more of them, greedily. */
  function One(c: char, next: Pattern): Pattern
  {
    Rep(Only(c), 1, Some(1), true, next)
  }

  function Star(cls: Class, next: Pattern): Pattern
  {
    Rep(cls, 0, None, true, next)
  }

  function Plus(cls: Class, next: Pattern): Pattern
  {
    Rep(cls, 1, None, true, next)
  }

  /** Where the run of characters of the class from i on ends, or its limit. */
  function Reach(cls: Class, max: Option<nat>, s: string, i: nat): (end: nat)
    requires i <= |s|
    ensures i <= end <= |s| && (max.Some? ==> end <= i + max.value)
    ensures forall j :: i <= j < end ==> cls.Has(s[j])
    ensures end == |s| || (max.Some? && end == i + max.value) || !cls.Has(s[end])
    decreases |s| - i
  {
    if i == |s| || max == Some(0) || !cls.Has(s[i]) then i
    else Reach(cls, if max.Some? then Some(max.value - 1) else None, s, i + 1)
  }

  /** The reported positions of the first match that starts at i, in the order of preference. */
  function Match(p: Pattern, s: string, i: nat): Option<seq<nat>>
    requires i <= |s|
    decreases p, 0
  {
    match p
    case Done(atEnd) => if atEnd && i < |s| then None else Some([])
    case Mark(next) =>
      (match Match(next, s, i) case Some(m) => Some([i] + m) case None => None)
    case Rep(cls, min, max, greedy, next) =>
      var end := Reach(cls, max, s, i);
      if end < i + min then None
      else if greedy then Longest(next, s, i + min, end)
      else Shortest(next, s, i + min, end)
  }

  function Longest(next: Pattern, s: string, lo: nat, hi: nat): Option<seq<nat>>
    requires lo <= hi <= |s|
    decreases next, hi - lo + 1
  {
    var m := Match(next, s, hi);
    if m.Some? then m else if lo == hi then None else Longest(next, s, lo, hi - 1)
  }

  function Shortest(next: Pattern, s: string, lo: nat, hi: nat): Option<seq<nat>>
    requires lo <= hi <= |s|
    decreases next, hi - lo + 1
  {
    var m := Match(next, s, lo);
    if m.Some? then m else if lo == hi then None else Shortest(next, s, lo + 1, hi)
  }

  /** Matcher.find: the first start from i on that matches. */
  function Find(p: Pattern, s: string, i: nat): Option<seq<nat>>
    requires i <= |s|
    decreases |s| - i
  {
    var m := Match(p, s, i);
    if m.Some? || i == |s| then m else Find(p, s, i + 1)
  }

  /** How many positions a pattern reports. */
  function Marks(p: Pattern): nat
  {
    match p
    case Done(_) => 0
    case Mark(next) => 1 + Marks(next)
    case Rep(_, _, _, _, next) => Marks(next)
  }

  // ----- How repetitions choose -----

  lemma {:induction false} LongestWins(next: Pattern, s: string, lo: nat, hi: nat, end: nat)
    requires lo <= end <= hi <= |s| && Match(next, s, end).Some?
    requires forall k :: end < k <= hi ==> Match(next, s, k).None?
    ensures Longest(next, s, lo, hi) == Match(next, s, end)
    decreases hi
  {
    if end < hi {
      LongestWins(next, s, lo, hi - 1, end);
    }
  }

  lemma {:induction false} LongestSplits(next: Pattern, s: string, lo: nat, hi: nat) returns (end: nat)
    requires lo <= hi <= |s|
    ensures lo <= end <= hi && Longest(next, s, lo, hi) == Match(next, s, end)
    ensures forall k :: end < k <= hi ==> Match(next, s, k).None?
    decreases hi
  {
    end := hi;
    if Match(next, s, hi).None? && lo < hi {
      end := LongestSplits(next, s, lo, hi - 1);
    }
  }

  lemma {:induction false} ShortestSplits(next: Pattern, s: string, lo: nat, hi: nat) returns (end: nat)
    requires lo <= hi <= |s|
    ensures lo <= end <= hi && Shortest(next, s, lo, hi) == Match(next, s, end)
    decreases hi - lo
  {
    end := lo;
    if Match(next, s, lo).None? && lo < hi {
      end := ShortestSplits(next, s, lo + 1, hi);
    }
  }

  /** Whatever its order of preference, a repetition that matches takes a run of its class and then the rest. */
  lemma Splits(p: Pattern, s: string, i: nat) returns (end: nat)
    requires p.Rep? && i <= |s| && Match(p, s, i).Some?
    ensures i + p.min <= end <= Reach(p.cls, p.max, s, i)
    ensures Match(p, s, i) == Match(p.next, s, end)
    ensures p.greedy ==> forall k :: end < k <= Reach(p.cls, p.max, s, i) ==> Match(p.next, s, k).None?
  {
    if p.greedy {
      end := LongestSplits(p.next, s, i + p.min, Reach(p.cls, p.max, s, i));
    } else {
      end := ShortestSplits(p.next, s, i + p.min, Reach(p.cls, p.max, s, i));
    }
  }

  /** A greedy repetition takes the longest run from which the rest matches. */
  lemma GreedyTakes(p: Pattern, s: string, i: nat, end: nat)
    requires p.Rep? && p.greedy && i <= |s|
    requires i + p.min <= end <= Reach(p.cls, p.max, s, i) && Match(p.next, s, end).Some?
    requires forall k :: end < k <= Reach(p.cls, p.max, s, i) ==> Match(p.next, s, k).None?
    ensures Match(p, s, i) == Match(p.next, s, end)
  {
    LongestWins(p.next, s, i + p.min, Reach(p.cls, p.max, s, i), end);
  }

  /** A lazy repetition takes the shortest run if the rest matches after it. */
  lemma LazyTakesLeast(p: Pattern, s: string, i: nat)
    requires p.Rep? && !p.greedy && i <= |s| && i + p.min <= Reach(p.cls, p.max, s, i)
    requires Match(p.next, s, i + p.min).Some?
    ensures Match(p, s, i) == Match(p.next, s, i + p.min)
  {
  }

  /** If the rest matches after any run of the class, the repetition matches in some way. */
  lemma SomeRunMatches(p: Pattern, s: string, i: nat, end: nat)
    requires p.Rep? && i <= |s| && i + p.min <= end <= Reach(p.cls, p.max, s, i) && Match(p.next, s, end).Some?
    ensures Match(p, s, i).Some?
  {
    SomeLengthMatches(p.next, s, i + p.min, Reach(p.cls, p.max, s, i), end);
  }

  lemma {:induction false} SomeLengthMatches(next: Pattern, s: string, lo: nat, hi: nat, end: nat)
    requires lo <= end <= hi <= |s| && Match(next, s, end).Some?
    ensures Longest(next, s, lo, hi).Some? && Shortest(next, s, lo, hi).Some?
    decreases hi - lo
  {
    if lo < hi {
      if end < hi {
        SomeLengthMatches(next, s, lo, hi - 1, end);
      }
      if lo < end {
        SomeLengthMatches(next, s, lo + 1, hi, end);
      }
    }
  }

  lemma NeverMatches(p: Pattern, s: string, i: nat)
    requires p.Rep? && i <= |s|
    requires forall k :: i + p.min <= k <= Reach(p.cls, p.max, s, i) ==> Match(p.next, s, k).None?
    ensures Match(p, s, i).None?
  {
    if Match(p, s, i).Some? {
      var end := Splits(p, s, i);
    }
  }

  lemma {:induction false} ReachesFar(cls: Class, max: Option<nat>, s: string, i: nat, end: nat)
    requires i <= end <= |s| && (max.Some? ==> end <= i + max.value)
    requires forall j :: i <= j < end ==> cls.Has(s[j])
    ensures Reach(cls, max, s, i) >= end
    decreases end - i
  {
    if i < end {
      ReachesFar(cls, if max.Some? then Some(max.value - 1) else None, s, i + 1, end);
    }
  }

  lemma MarkMatches(p: Pattern, s: string, i: nat)
    requires p.Mark? && i <= |s|
    ensures Match(p, s, i).Some? <==> Match(p.next, s, i).Some?
    ensures Match(p, s, i).Some? ==> Match(p, s, i).value == [i] + Match(p.next, s, i).value
  {
  }

  /** A position at the very end of the pattern. */
  lemma LastMarkMatches(p: Pattern, s: string, i: nat)
    requires p.Mark? && p.next.Done? && i <= |s|
    ensures Match(p, s, i) == if p.next.atEnd && i < |s| then None else Some([i])
  {
    assert [i] + [] == [i];
  }

  /** A single character matches itself. */
  lemma OneMatches(c: char, next: Pattern, s: string, i: nat)
    requires i <= |s|
    ensures Match(One(c, next), s, i) == if i < |s| && s[i] == c then Match(next, s, i + 1) else None
  {
    assert Reach(Only(c), Some(1), s, i) == if i < |s| && s[i] == c then i + 1 else i;
  }

  /** A match reports all its positions, in order. */
  lemma {:induction false} MarksInOrder(p: Pattern, s: string, i: nat)
    requires i <= |s| && Match(p, s, i).Some?
    ensures var m := Match(p, s, i).value;
            && |m| == Marks(p)
            && (forall k :: 0 <= k < |m| ==> i <= m[k] <= |s|)
            && (forall j, k :: 0 <= j < k < |m| ==> m[j] <= m[k])
    decreases p
  {
    match p
    case Done(_) =>
    case Mark(next) =>
      MarksInOrder(next, s, i);
    case Rep(_, _, _, _, next) =>
      var end := Splits(p, s, i);
      MarksInOrder(next, s, end);
  }

  lemma {:induction false} FoundInOrder(p: Pattern, s: string, i: nat)
    requires i <= |s| && Find(p, s, i).Some?
    ensures var m := Find(p, s, i).value;
            && |m| == Marks(p)
            && (forall k :: 0 <= k < |m| ==> i <= m[k] <= |s|)
            && (forall j, k :: 0 <= j < k < |m| ==> m[j] <= m[k])
    decreases |s| - i
  {
    if Match(p, s, i).Some? {
      MarksInOrder(p, s, i);
    } else {
      FoundInOrder(p, s, i + 1);
    }
  }

  /** What is found is matched from somewhere on. */
  lemma {:induction false} FoundSomewhere(p: Pattern, s: string, i: nat) returns (start: nat)
    requires i <= |s| && Find(p, s, i).Some?
    ensures i <= start <= |s| && Match(p, s, start) == Find(p, s, i)
    decreases |s| - i
  {
    start := i;
    if Match(p, s, i).None? {
      start := FoundSomewhere(p, s, i + 1);
    }
  }

  /** Whatever matches from somewhere on is not missed. */
  lemma {:induction false} MatchIsFound(p: Pattern, s: string, i: nat, start: nat)
    requires i <= start <= |s| && Match(p, s, start).Some?
    ensures Find(p, s, i).Some?
    decreases start - i
  {
    if i < start {
      MatchIsFound(p, s, i + 1, start);
    }
  }

  /** Starts that do not match are passed over. */
  lemma {:induction false} FindPassesOver(p: Pattern, s: string, i: nat, start: nat)
    requires i <= start <= |s| && forall k :: i <= k < start ==> Match(p, s, k).None?
    ensures Find(p, s, i) == Find(p, s, start)
    decreases start - i
  {
    if i < start {
      FindPassesOver(p, s, i + 1, start);
    }
  }

  lemma {:induction false} NeverFound(p: Pattern, s: string, i: nat)
    requires i <= |s| && forall k :: i <= k <= |s| ==> Match(p, s, k).None?
    ensures Find(p, s, i).None?
    decreases |s| - i
  {
    if i < |s| {
      NeverFound(p, s, i + 1);
    }
  }

  /** Digits up to something that is not one: if the rest cannot start at a digit, the whole run is taken. */
  lemma AllOfRun(p: Pattern, s: string, i: nat, end: nat)
    requires p.Rep? && p.greedy && p.max.None? && i + p.min <= end <= |s|
    requires forall j :: i <= j < end ==> p.cls.Has(s[j])
    requires end == |s| || !p.cls.Has(s[end])
    requires forall k :: i + p.min <= k < end ==> Match(p.next, s, k).None?
    ensures Match(p, s, i) == Match(p.next, s, end)
  {
    hide Match;
    ReachesFar(p.cls, None, s, i, end);
    if Match(p.next, s, end).Some? {
      GreedyTakes(p, s, i, end);
    } else {
      NeverMatches(p, s, i);
    }
  }
}
