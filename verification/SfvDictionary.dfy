/** What a parsed dictionary means: it is the fold of the members read, its keys are
    distinct, in order of first occurrence, and each has the value read last. */
module SfvDictionary {
  import opened Wrappers
  import opened SfvTypes
  import opened SfvGrammar

  type Entry = (string, Member)

  /** The member sequence of a text; `known` keys count against the limit. */
  function Entries(s: string, known: set<string>, limits: Limits): Option<seq<Entry>>
    decreases |s|
  {
    if s == "" then Some([])
    else if !Within(|known| + 1, limits.maxDictionaryMembers) then None
    else
      match ParseMember(s, limits)
      case Fail => None
      case Done(entry, afterMember) =>
        match Separate(afterMember)
        case TrailingComma => None
        case Last => Some([entry])
        case Next(rest) =>
          var entries :- Entries(rest, known + {entry.0}, limits);
          Some([entry] + entries)
  }

  function StoreAll(d: Dictionary, entries: seq<Entry>): Dictionary
    decreases |entries|
  {
    if entries == [] then d else StoreAll(Store(d, entries[0].0, entries[0].1), entries[1..])
  }

  function KeySet(d: Dictionary): set<string> {
    set k | k in d.keys
  }

  lemma {:induction false} KeyCount(d: Dictionary)
    requires IsOrdered(d)
    ensures |KeySet(d)| == |d.keys|
  {
    KeyCountOf(d.keys);
  }

  lemma {:induction false} KeyCountOf(keys: seq<string>)
    requires forall i, j :: 0 <= i < j < |keys| ==> keys[i] != keys[j]
    ensures |set k | k in keys| == |keys|
  {
    if keys != [] {
      var last := |keys| - 1;
      KeyCountOf(keys[..last]);
      assert (set k | k in keys) == (set k | k in keys[..last]) + {keys[last]};
    }
  }

  lemma StoreIsOrdered(d: Dictionary, key: string, value: Member)
    requires IsOrdered(d)
    ensures IsOrdered(Store(d, key, value))
    ensures KeySet(Store(d, key, value)) == KeySet(d) + {key}
  {
    var stored := Store(d, key, value);
    if key in d.values {
      assert key in d.keys;
      assert stored.keys == d.keys;
    } else {
      KeysAppend(d.keys, key);
      assert forall i :: 0 <= i < |d.keys| ==> d.keys[i] != key;
    }
  }

  lemma KeysAppend(keys: seq<string>, key: string)
    ensures forall k :: k in keys + [key] <==> k in keys || k == key
    ensures (set k | k in keys + [key]) == (set k | k in keys) + {key}
  {
    var longer := keys + [key];
    assert longer[|keys|] == key;
    assert forall i :: 0 <= i < |keys| ==> longer[i] == keys[i];
  }

  /** The parser's dictionary is the fold of the member sequence. */
  lemma {:induction false} DictionaryIsFold(s: string, d: Dictionary, limits: Limits)
    requires IsOrdered(d)
    ensures ParseDictionaryFrom(s, d, limits) ==
            match Entries(s, KeySet(d), limits)
            case None => None
            case Some(entries) => Some(StoreAll(d, entries))
    decreases |s|
  {
    hide ParseMember, Separate, Store, IsOrdered, KeySet;
    KeyCount(d);
    if s != "" && ParseMember(s, limits).Done? {
      var (key, value) := ParseMember(s, limits).value;
      var stored := Store(d, key, value);
      StoreIsOrdered(d, key, value);
      var separation := Separate(ParseMember(s, limits).rest);
      if separation.Next? {
        DictionaryIsFold(separation.rest, stored, limits);
        var entries := Entries(separation.rest, KeySet(stored), limits);
        assert entries.Some? ==> ([(key, value)] + entries.value)[1..] == entries.value;
      } else {
        assert StoreAll(d, [(key, value)]) == stored;
      }
    }
  }

  function Names(entries: seq<Entry>): (names: seq<string>)
    ensures |names| == |entries|
    ensures forall i :: 0 <= i < |entries| ==> names[i] == entries[i].0
  {
    if entries == [] then [] else [entries[0].0] + Names(entries[1..])
  }

  /** Index of the first, and of the last, occurrence. */
  function First(names: seq<string>, key: string): (i: nat)
    requires key in names
    ensures i < |names| && names[i] == key && forall j :: 0 <= j < i ==> names[j] != key
  {
    if names[0] == key then 0 else 1 + First(names[1..], key)
  }

  function Last(names: seq<string>, key: string): (i: nat)
    requires key in names
    ensures i < |names| && names[i] == key && forall j :: i < j < |names| ==> names[j] != key
  {
    var n := |names| - 1;
    if names[n] == key then n else Last(names[..n], key)
  }

  lemma AppendName(names: seq<string>, last: string, key: string)
    requires key in names + [last]
    ensures First(names + [last], key) == if key in names then First(names, key) else |names|
    ensures Last(names + [last], key) == if key == last then |names| else Last(names, key)
  {
    var longer := names + [last];
    assert forall i :: 0 <= i < |names| ==> longer[i] == names[i];
    assert longer[|names|] == last;
    if key in names {
      var i, j := First(names, key), First(longer, key);
      assert longer[i] == key && names[j] == key;
    }
    if key != last {
      var i, j := Last(names, key), Last(longer, key);
      assert longer[i] == key && names[j] == key;
    }
  }

  lemma {:induction false} StoreAllAppend(d: Dictionary, entries: seq<Entry>, last: Entry)
    ensures StoreAll(d, entries + [last]) == Store(StoreAll(d, entries), last.0, last.1)
    decreases |entries|
  {
    hide Store;
    if entries == [] {
      assert StoreAll(d, [last]) == StoreAll(Store(d, last.0, last.1), [last][1..]);
    } else {
      assert (entries + [last])[1..] == entries[1..] + [last];
      StoreAllAppend(Store(d, entries[0].0, entries[0].1), entries[1..], last);
    }
  }

  /** Distinct keys, exactly those read, in order of first occurrence, each with the
      value read last. */
  ghost predicate IsFold(d: Dictionary, entries: seq<Entry>) {
    var names := Names(entries);
    && IsOrdered(d)
    && (forall key :: key in d.values <==> key in names)
    && (forall key :: key in d.values ==> d.values[key] == entries[Last(names, key)].1)
    && InOrder(d.keys, names)
  }

  lemma FoldStep(d: Dictionary, entries: seq<Entry>, last: Entry)
    requires IsFold(d, entries)
    ensures IsFold(Store(d, last.0, last.1), entries + [last])
  {
    hide Names, First, Last, IsOrdered, Store, InOrder;
    NamesAppend(entries, last);
    StoreIsOrdered(d, last.0, last.1);
    FoldStepValues(d, entries, last);
    FoldStepOrder(d, Names(entries), last);
  }

  lemma NamesAppend(entries: seq<Entry>, last: Entry)
    ensures Names(entries + [last]) == Names(entries) + [last.0]
  {
  }

  lemma FoldStepValues(d: Dictionary, entries: seq<Entry>, last: Entry)
    requires IsFold(d, entries)
    ensures var e := Store(d, last.0, last.1);
            var names := Names(entries) + [last.0];
            forall key :: key in e.values <==> key in names
    ensures var e := Store(d, last.0, last.1);
            var names := Names(entries) + [last.0];
            forall key :: key in e.values ==> e.values[key] == (entries + [last])[Last(names, key)].1
  {
    hide Names, First, Last, IsOrdered, InOrder;
    var e := Store(d, last.0, last.1);
    var names := Names(entries) + [last.0];
    KeysAppend(Names(entries), last.0);
    forall key | key in e.values
      ensures e.values[key] == (entries + [last])[Last(names, key)].1
    {
      assert key in names;
      AppendName(Names(entries), last.0, key);
    }
  }

  /** Keys in order of first occurrence among the names. */
  ghost predicate InOrder(keys: seq<string>, names: seq<string>) {
    && (forall a :: 0 <= a < |keys| ==> keys[a] in names)
    && (forall a, b :: 0 <= a < b < |keys| ==> First(names, keys[a]) < First(names, keys[b]))
  }

  lemma InOrderLonger(keys: seq<string>, names: seq<string>, last: string)
    requires InOrder(keys, names)
    ensures InOrder(keys, names + [last])
  {
    hide First, Last;
    KeysAppend(names, last);
    forall a | 0 <= a < |keys|
      ensures First(names + [last], keys[a]) == First(names, keys[a])
    {
      AppendName(names, last, keys[a]);
    }
  }

  lemma InOrderAppend(keys: seq<string>, names: seq<string>, last: string)
    requires InOrder(keys, names) && last !in names
    ensures InOrder(keys + [last], names + [last])
  {
    hide First, Last;
    InOrderLonger(keys, names, last);
    KeysAppend(names, last);
    AppendName(names, last, last);
    var longer := keys + [last];
    forall a, b | 0 <= a < b < |longer|
      ensures First(names + [last], longer[a]) < First(names + [last], longer[b])
    {
      AppendName(names, last, keys[a]);
      if b < |keys| {
        assert longer[b] == keys[b];
      }
    }
  }

  lemma FoldStepOrder(d: Dictionary, names: seq<string>, last: Entry)
    requires IsOrdered(d) && (forall key :: key in d.values <==> key in names) && InOrder(d.keys, names)
    ensures InOrder(Store(d, last.0, last.1).keys, names + [last.0])
  {
    hide InOrder, IsOrdered;
    if last.0 in d.values {
      InOrderLonger(d.keys, names, last.0);
    } else {
      InOrderAppend(d.keys, names, last.0);
    }
  }

  lemma NothingFolded()
    ensures IsFold(EMPTY_DICTIONARY, [])
  {
  }

  lemma {:induction false} FoldMeaning(entries: seq<Entry>)
    ensures IsFold(StoreAll(EMPTY_DICTIONARY, entries), entries)
  {
    hide IsFold, Store, First, Last, Names, IsOrdered;
    if entries == [] {
      NothingFolded();
    } else {
      var n := |entries| - 1;
      FoldMeaning(entries[..n]);
      StoreAllAppend(EMPTY_DICTIONARY, entries[..n], entries[n]);
      assert entries[..n] + [entries[n]] == entries;
      FoldStep(StoreAll(EMPTY_DICTIONARY, entries[..n]), entries[..n], entries[n]);
    }
  }

  /** The parsed dictionary is the fold of the members read, under any limits. */
  lemma DictionaryMeaning(s: string, limits: Limits)
    requires ParseDictionary(s, limits).Some?
    ensures Entries(s, {}, limits).Some?
    ensures IsFold(ParseDictionary(s, limits).value, Entries(s, {}, limits).value)
  {
    hide ParseDictionaryFrom, Entries, StoreAll, IsFold;
    DictionaryIsFold(s, EMPTY_DICTIONARY, limits);
    assert KeySet(EMPTY_DICTIONARY) == {};
    FoldMeaning(Entries(s, {}, limits).value);
  }
}
