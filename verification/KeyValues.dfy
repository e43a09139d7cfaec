/** StringUtils.parseKeyValuePair: items of a key, an equals sign and a value. */
module KeyValues {
  import opened Common
  import opened Regex
  import opened Text

  datatype Entry = Entry(key: string, value: string)

  function EntryText(e: Entry): string
  {
    e.key + ['='] + e.value
  }

  const VALUE := Mark(Star(Any, Mark(Done(true))))
  const KEY_END := Mark(One('=', VALUE))

  /** `([_.a-zA-Z0-9][-_.a-zA-Z0-9]*)[=](.*)` against a whole item. */
  const KVP_PATTERN := Mark(Rep(KeyStart, 1, Some(1), true, Star(KeyRest, KEY_END)))

  /** An item as a key and a value. */
  function KeyValue(item: string): Option<Entry>
  {
    match Match(KVP_PATTERN, item, 0)
    case None => None
    case Some(m) =>
      MarksInOrder(KVP_PATTERN, item, 0);
      assert Marks(KVP_PATTERN) == 4;
      Some(Entry(item[m[0]..m[1]], item[m[2]..m[3]]))
  }

  /** The map after the first items are put into it in turn. */
  function MapOf(items: seq<string>): map<string, string>
  {
    if items == [] then map[]
    else
      var before := MapOf(items[..|items| - 1]);
      var e := KeyValue(items[|items| - 1]);
      if e.Some? then before[e.value.key := e.value.value] else before
  }

  // ----- What an item is -----

  predicate WellFormedKey(key: string)
  {
    key != "" && KeyStart.Has(key[0]) && forall i :: 0 <= i < |key| ==> KeyRest.Has(key[i])
  }

  /** The entries that can be printed as an item and read back. */
  predicate Readable(e: Entry)
  {
    WellFormedKey(e.key) && OneLine(e.value)
  }

  lemma ValueMatches(s: string, i: nat)
    requires i <= |s|
    ensures Match(VALUE, s, i) == if OneLine(s[i..]) then Some([i, |s|]) else None
  {
    hide Match;
    MarkMatches(VALUE, s, i);
    var end := Reach(Any, None, s, i);
    forall k | i <= k <= |s|
      ensures Match(VALUE.next.next, s, k) == if k < |s| then None else Some([k])
    {
      LastMarkMatches(VALUE.next.next, s, k);
    }
    if end == |s| {
      assert OneLine(s[i..]);
      GreedyTakes(VALUE.next, s, i, |s|);
      assert [i] + [|s|] == [i, |s|];
    } else {
      assert s[i..][end - i] == s[end];
      NeverMatches(VALUE.next, s, i);
    }
  }

  lemma KeyEndMatches(s: string, i: nat)
    requires i <= |s|
    ensures Match(KEY_END, s, i) ==
            if i < |s| && s[i] == '=' && OneLine(s[i + 1..]) then Some([i, i + 1, |s|]) else None
  {
    hide Match;
    MarkMatches(KEY_END, s, i);
    OneMatches('=', VALUE, s, i);
    if i < |s| {
      ValueMatches(s, i + 1);
      assert [i] + [i + 1, |s|] == [i, i + 1, |s|];
    }
  }

  lemma KeyValueOf(e: Entry)
    requires Readable(e)
    ensures KeyValue(EntryText(e)) == Some(e)
  {
    hide Match;
    var s, n := EntryText(e), |e.key|;
    var rest := KVP_PATTERN.next.next;
    assert forall j :: 0 <= j < n ==> s[j] == e.key[j];
    assert s[n] == '=' && s[..n] == e.key && s[n + 1..] == e.value;
    forall k | 0 <= k <= n
      ensures Match(KEY_END, s, k) == if k == n then Some([n, n + 1, |s|]) else None
    {
      KeyEndMatches(s, k);
    }
    AllOfRun(rest, s, 1, n);
    ReachesFar(KeyStart, Some(1), s, 0, 1);
    GreedyTakes(KVP_PATTERN.next, s, 0, 1);
    MarkMatches(KVP_PATTERN, s, 0);
    assert [0] + [n, n + 1, |s|] == [0, n, n + 1, |s|];
    assert s[0..n] == e.key && s[n + 1..|s|] == e.value;
  }

  lemma KeyValueParts(item: string)
    requires KeyValue(item).Some?
    ensures Readable(KeyValue(item).value) && EntryText(KeyValue(item).value) == item
  {
    hide Match;
    MarkMatches(KVP_PATTERN, item, 0);
    var one := Splits(KVP_PATTERN.next, item, 0);
    var n := Splits(KVP_PATTERN.next.next, item, one);
    KeyEndMatches(item, n);
    assert Match(KVP_PATTERN, item, 0) == Some([0] + [n, n + 1, |item|]);
    assert [0] + [n, n + 1, |item|] == [0, n, n + 1, |item|];
    assert item[0..n] + ['='] + item[n + 1..|item|] == item;
    assert item[n + 1..] == item[n + 1..|item|];
  }

  /** An item is an entry exactly when it is the entry printed, with a well-formed key and a value on one line. */
  lemma KeyValueIff(item: string, e: Entry)
    ensures KeyValue(item) == Some(e) <==> Readable(e) && item == EntryText(e)
  {
    hide KeyValue;
    if KeyValue(item) == Some(e) {
      KeyValueParts(item);
    }
    if Readable(e) {
      KeyValueOf(e);
    }
  }

  // ----- What the map holds -----

  /** Some item gives the key a value. */
  ghost predicate GivesKey(item: string, key: string)
  {
    exists value: string :: Readable(Entry(key, value)) && item == EntryText(Entry(key, value))
  }

  /** The entry is printed as the item at `i`, and no later item gives its key a value. */
  ghost predicate LastGiven(items: seq<string>, i: int, e: Entry)
  {
    && 0 <= i < |items| && Readable(e) && items[i] == EntryText(e)
    && forall j :: i < j < |items| ==> !GivesKey(items[j], e.key)
  }

  lemma GivesKeyIff(item: string, key: string)
    ensures GivesKey(item, key) <==> KeyValue(item).Some? && KeyValue(item).value.key == key
  {
    hide KeyValue, Readable, EntryText;
    if GivesKey(item, key) {
      var value: string :| Readable(Entry(key, value)) && item == EntryText(Entry(key, value));
      KeyValueIff(item, Entry(key, value));
    }
    if KeyValue(item).Some? {
      KeyValueIff(item, KeyValue(item).value);
      assert KeyValue(item).value == Entry(KeyValue(item).value.key, KeyValue(item).value.value);
    }
  }

  /** The map gives each key the value of the last item that is an entry with that key. */
  lemma {:induction false} MapOfHolds(items: seq<string>, e: Entry)
    ensures e.key in MapOf(items) && MapOf(items)[e.key] == e.value <==> exists i :: LastGiven(items, i, e)
  {
    hide KeyValue, GivesKey, Readable, EntryText;
    if items != [] {
      var n := |items| - 1;
      var before, last := items[..n], items[n];
      MapOfHolds(before, e);
      GivesKeyIff(last, e.key);
      KeyValueIff(last, e);
      if GivesKey(last, e.key) {
        assert KeyValue(last) == Some(e) ==> LastGiven(items, n, e);
        assert forall i :: LastGiven(items, i, e) ==> i == n;
      } else {
        assert !LastGiven(items, n, e);
        forall i
          ensures LastGiven(items, i, e) <==> LastGiven(before, i, e)
        {
          assert LastGiven(items, i, e) ==> forall j :: i < j < n ==> before[j] == items[j];
          assert LastGiven(before, i, e) ==> forall j :: i < j <= n ==> items[j] == if j < n then before[j] else last;
        }
      }
    }
  }

  ghost predicate LastWins(pairs: map<string, string>, items: seq<string>)
  {
    forall e: Entry :: e.key in pairs && pairs[e.key] == e.value <==> exists i :: LastGiven(items, i, e)
  }

  method ParseKeyValuePair(str: string, itemSeparator: char) returns (pairs: map<string, string>)
    ensures pairs == MapOf(Split(str, itemSeparator))
    ensures LastWins(pairs, Split(str, itemSeparator))
  {
    var tmp := Split(str, itemSeparator);
    pairs := map[];
    for i := 0 to |tmp|
      invariant pairs == MapOf(tmp[..i])
    {
      assert tmp[..i + 1][..i] == tmp[..i];
      var e := KeyValue(tmp[i]);
      if e.None? {
        continue;
      }
      pairs := pairs[e.value.key := e.value.value];
    }
    assert tmp[..|tmp|] == tmp;
    forall e: Entry
      ensures e.key in pairs && pairs[e.key] == e.value <==> exists i :: LastGiven(tmp, i, e)
    {
      MapOfHolds(tmp, e);
    }
  }
}
