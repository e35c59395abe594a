/** Nested tags (namespace, key, values), the ways they are built from request
    data, and their flat list form. */
module TagTree {
  import opened Common

  type Nested = map<string, map<string, seq<string>>>

  /** A structured tag; an empty string stands for a missing key. */
  datatype Item = Item(namespace: Option<string>, key: string, value: Option<string>)

  /** A nested dictionary as received, in its own order; a null inner dictionary
      or value list counts as empty. */
  datatype KeyValues = KeyValues(key: string, values: seq<string>)
  datatype Section = Section(namespace: Option<string>, keys: seq<KeyValues>)

  datatype TagError = EmptyKey

  /** None, "" and "null" are one namespace, stored as "null". */
  function DeserializeNamespace(n: Option<string>): string {
    if n == None || n == Some("") || n == Some("null") then "null" else n.value
  }

  function SerializeNamespace(n: string): Option<string> {
    if n == "" || n == "null" then None else Some(n)
  }

  /* ---------- building, one event at a time ---------- */

  /** What a builder does: open a namespace, open a key, offer a value. */
  datatype Event = Open(ns: string) | OpenKey(ns: string, key: string) | Offer(ns: string, key: string, value: string)

  function Keys(n: Nested, ns: string): map<string, seq<string>> {
    if ns in n then n[ns] else map[]
  }

  function Values(n: Nested, ns: string, key: string): seq<string> {
    if key in Keys(n, ns) then Keys(n, ns)[key] else []
  }

  function Put(n: Nested, ns: string, key: string, values: seq<string>): Nested {
    n[ns := Keys(n, ns)[key := values]]
  }

  function AddNew(values: seq<string>, v: string): seq<string> {
    if v in values then values else values + [v]
  }

  function Apply(n: Nested, e: Event): Nested {
    match e
    case Open(ns) => n[ns := Keys(n, ns)]
    case OpenKey(ns, key) => Put(n, ns, key, Values(n, ns, key))
    case Offer(ns, key, v) => Put(n, ns, key, AddNew(Values(n, ns, key), v))
  }

  function Build(n: Nested, events: seq<Event>): Nested
    decreases |events|
  {
    if events == [] then n else Apply(Build(n, events[..|events| - 1]), events[|events| - 1])
  }

  lemma {:induction false} BuildAppend(n: Nested, a: seq<Event>, b: seq<Event>)
    ensures Build(n, a + b) == Build(Build(n, a), b)
    decreases |b|
  {
    if b == [] {
      assert a + b == a;
    } else {
      assert (a + b)[..|a + b| - 1] == a + b[..|b| - 1];
      BuildAppend(n, a, b[..|b| - 1]);
    }
  }

  /** The values offered for one key, in order. */
  function Offered(events: seq<Event>, ns: string, key: string): seq<string>
    decreases |events|
  {
    if events == [] then []
    else
      var e := events[|events| - 1];
      Offered(events[..|events| - 1], ns, key) + if e.Offer? && e.ns == ns && e.key == key then [e.value] else []
  }

  /** `values` followed by the new ones among `offered`, each once. */
  function Extended(values: seq<string>, offered: seq<string>): seq<string>
    decreases |offered|
  {
    if offered == [] then values
    else AddNew(Extended(values, offered[..|offered| - 1]), offered[|offered| - 1])
  }

  predicate Names(e: Event, ns: string, key: string) {
    !e.Open? && e.ns == ns && e.key == key
  }

  lemma ApplyAt(n: Nested, e: Event, ns: string, key: string)
    ensures var b := Apply(n, e);
            && (ns in b <==> ns in n || e.ns == ns)
            && (key in Keys(b, ns) <==> key in Keys(n, ns) || Names(e, ns, key))
            && Values(b, ns, key)
                 == if e.Offer? && Names(e, ns, key) then AddNew(Values(n, ns, key), e.value) else Values(n, ns, key)
  {}

  lemma OfferedSnoc(events: seq<Event>, e: Event, ns: string, key: string)
    ensures Offered(events + [e], ns, key)
         == Offered(events, ns, key) + if e.Offer? && Names(e, ns, key) then [e.value] else []
  {
    assert (events + [e])[..|events|] == events;
  }

  lemma ExtendedSnoc(values: seq<string>, offered: seq<string>, v: string)
    ensures Extended(values, offered + [v]) == AddNew(Extended(values, offered), v)
  {
    assert (offered + [v])[..|offered|] == offered;
  }

  /** What any sequence of events builds, read off key by key. */
  lemma {:induction false} BuildAt(n: Nested, events: seq<Event>, ns: string, key: string)
    ensures var b := Build(n, events);
            && (ns in b <==> ns in n || exists e :: e in events && e.ns == ns)
            && (key in Keys(b, ns) <==> key in Keys(n, ns) || exists e :: e in events && Names(e, ns, key))
            && Values(b, ns, key) == Extended(Values(n, ns, key), Offered(events, ns, key))
    decreases |events|
  {
    hide Apply, Keys, Values, AddNew, Names;
    if events != [] {
      var front, e := events[..|events| - 1], events[|events| - 1];
      BuildAt(n, front, ns, key);
      assert events == front + [e];
      ApplyAt(Build(n, front), e, ns, key);
      OfferedSnoc(front, e, ns, key);
      if e.Offer? && Names(e, ns, key) {
        ExtendedSnoc(Values(n, ns, key), Offered(front, ns, key), e.value);
      } else {
        assert Offered(front, ns, key) + [] == Offered(front, ns, key);
      }
    }
  }

  lemma SameNested(a: Nested, b: Nested)
    requires forall ns :: ns in a <==> ns in b
    requires forall ns, key :: key in Keys(a, ns) <==> key in Keys(b, ns)
    requires forall ns, key :: Values(a, ns, key) == Values(b, ns, key)
    ensures a == b
  {
    forall ns | ns in a ensures a[ns] == b[ns] {
      assert Keys(a, ns) == a[ns] && Keys(b, ns) == b[ns];
      forall key | key in a[ns] ensures key in b[ns] && a[ns][key] == b[ns][key] {
        assert key in Keys(b, ns) && Values(a, ns, key) == Values(b, ns, key);
      }
      forall key | key in b[ns] ensures key in a[ns] {
        assert key in Keys(a, ns);
      }
    }
  }

  lemma {:induction false} ExtendedFacts(values: seq<string>, offered: seq<string>)
    ensures values <= Extended(values, offered)
    ensures forall v :: v in Extended(values, offered) <==> v in values || v in offered
    ensures Distinct(values) ==> Distinct(Extended(values, offered))
    ensures (forall v :: v in offered ==> v in values) ==> Extended(values, offered) == values
    decreases |offered|
  {
    if offered != [] {
      var front := offered[..|offered| - 1];
      ExtendedFacts(values, front);
      assert offered == front + [offered[|offered| - 1]];
    }
  }

  lemma {:induction false} ExtendedFromNothing(offered: seq<string>)
    requires Distinct(offered)
    ensures Extended([], offered) == offered
    decreases |offered|
  {
    if offered != [] {
      var front, last := offered[..|offered| - 1], offered[|offered| - 1];
      assert last !in front && Distinct(front);
      ExtendedFromNothing(front);
      assert AddNew(front, last) == front + [last] == offered;
    }
  }

  /* ---------- what is built, without its events ---------- */

  lemma {:induction false} OfferedIff(events: seq<Event>, ns: string, key: string, v: string)
    ensures v in Offered(events, ns, key) <==> Offer(ns, key, v) in events
    decreases |events|
  {
    if events != [] {
      var front := events[..|events| - 1];
      OfferedIff(front, ns, key, v);
      assert events == front + [events[|events| - 1]];
    }
  }

  /** The values of a key are the earlier ones and after them those offered, none twice. */
  lemma BuiltValues(n: Nested, events: seq<Event>, ns: string, key: string)
    ensures var b := Build(n, events);
            && (forall v :: v in Values(b, ns, key) <==> v in Values(n, ns, key) || Offer(ns, key, v) in events)
            && Values(n, ns, key) <= Values(b, ns, key)
            && (Distinct(Values(n, ns, key)) ==> Distinct(Values(b, ns, key)))
  {
    BuildAt(n, events, ns, key);
    ExtendedFacts(Values(n, ns, key), Offered(events, ns, key));
    forall v ensures v in Offered(events, ns, key) <==> Offer(ns, key, v) in events {
      OfferedIff(events, ns, key, v);
    }
  }

  /** A namespace as it is given is stored under this name. */
  predicate StoredAs(given: Option<string>, ns: string) {
    if given.None? || |given.value| == 0 || given.value == "null" then ns == "null" else ns == given.value
  }

  /** One key of one namespace, read off the events. */
  lemma BuiltFromNothing(events: seq<Event>, ns: string, key: string)
    ensures var b := Build(map[], events);
            && (ns in b <==> exists e :: e in events && e.ns == ns)
            && (key in Keys(b, ns) <==> exists e :: e in events && Names(e, ns, key))
            && (forall v :: v in Values(b, ns, key) <==> Offer(ns, key, v) in events)
            && Distinct(Values(b, ns, key))
  {
    BuildAt(map[], events, ns, key);
    BuiltValues(map[], events, ns, key);
  }

  lemma SnocElements<T>(s: seq<T>)
    requires s != []
    ensures forall x :: x in s <==> x in s[..|s| - 1] || x == s[|s| - 1]
  {
    assert s == s[..|s| - 1] + [s[|s| - 1]];
  }

  predicate ListsNs(tags: seq<Item>, ns: string) {
    exists t :: t in tags && StoredAs(t.namespace, ns)
  }

  predicate ListsKey(tags: seq<Item>, ns: string, key: string) {
    exists t :: t in tags && StoredAs(t.namespace, ns) && t.key == key
  }

  predicate ListsValue(tags: seq<Item>, ns: string, key: string, v: string) {
    exists t :: t in tags && StoredAs(t.namespace, ns) && t.key == key && v != "" && t.value == Some(v)
  }

  ghost predicate StoresListAt(n: Nested, tags: seq<Item>, ns: string, key: string) {
    && (ns in n <==> ListsNs(tags, ns))
    && (key in Keys(n, ns) <==> ListsKey(tags, ns, key))
    && (forall v :: v in Values(n, ns, key) <==> ListsValue(tags, ns, key, v))
    && Distinct(Values(n, ns, key))
  }

  /** A list of tags is stored as exactly its namespaces, keys and non-empty values, none
      of them twice. */
  ghost predicate StoresList(n: Nested, tags: seq<Item>) {
    forall ns, key :: StoresListAt(n, tags, ns, key)
  }

  lemma ItemEventsAre(t: Item, ns: string, key: string)
    ensures (exists e :: e in ItemEvents(t) && e.ns == ns) <==> StoredAs(t.namespace, ns)
    ensures (exists e :: e in ItemEvents(t) && Names(e, ns, key)) <==> StoredAs(t.namespace, ns) && t.key == key
    ensures forall v :: Offer(ns, key, v) in ItemEvents(t)
              <==> StoredAs(t.namespace, ns) && t.key == key && v != "" && t.value == Some(v)
  {
    var m := DeserializeNamespace(t.namespace);
    assert StoredAs(t.namespace, ns) <==> ns == m;
    assert ItemEvents(t)[0] == OpenKey(m, t.key);
    if t.value.Some? && t.value.value != "" {
      assert ItemEvents(t)[1] == Offer(m, t.key, t.value.value);
    }
    hide StoredAs, DeserializeNamespace;
  }

  lemma {:induction false} ListEventsAre(tags: seq<Item>, ns: string, key: string)
    ensures (exists e :: e in ListEvents(tags) && e.ns == ns) <==> ListsNs(tags, ns)
    ensures (exists e :: e in ListEvents(tags) && Names(e, ns, key)) <==> ListsKey(tags, ns, key)
    ensures forall v :: Offer(ns, key, v) in ListEvents(tags) <==> ListsValue(tags, ns, key, v)
    decreases |tags|
  {
    hide ItemEvents, StoredAs, Names;
    if tags != [] {
      ListEventsAre(tags[..|tags| - 1], ns, key);
      SnocElements(tags);
      ItemEventsAre(tags[|tags| - 1], ns, key);
    }
  }

  lemma BuildStoresList(tags: seq<Item>)
    ensures StoresList(Build(map[], ListEvents(tags)), tags)
  {
    forall ns, key ensures StoresListAt(Build(map[], ListEvents(tags)), tags, ns, key) {
      ListEventsAre(tags, ns, key);
      BuiltFromNothing(ListEvents(tags), ns, key);
      hide ListsNs, ListsKey, ListsValue, Keys, Values, ListEvents, Build, Names, Distinct;
    }
  }

  /* ---------- writing into nested maps ---------- */

  lemma PutSame(n: Nested, ns: string, key: string)
    requires key in Keys(n, ns)
    ensures Put(n, ns, key, Values(n, ns, key)) == n
  {
    assert Keys(n, ns)[key := Values(n, ns, key)] == n[ns];
    assert n[ns := n[ns]] == n;
  }

  lemma PutPut(n: Nested, ns: string, key: string, a: seq<string>, b: seq<string>)
    ensures Put(Put(n, ns, key, a), ns, key, b) == Put(n, ns, key, b)
    ensures Values(Put(n, ns, key, a), ns, key) == a && ns in Put(n, ns, key, a) && key in Put(n, ns, key, a)[ns]
  {
    assert Keys(n, ns)[key := a][key := b] == Keys(n, ns)[key := b];
  }

  lemma OpenedPut(n: Nested, ns: string, key: string, a: seq<string>)
    ensures Put(Apply(n, Open(ns)), ns, key, a) == Put(n, ns, key, a)
    ensures Values(Apply(n, Open(ns)), ns, key) == Values(n, ns, key)
    ensures ns in n ==> Apply(n, Open(ns)) == n
  {
    if ns in n { assert n[ns := n[ns]] == n; }
  }

  /** setdefault for one key. */
  method OpenKeyIn(n: Nested, ns: string, key: string) returns (m: Nested)
    requires ns in n
    ensures m == Apply(n, OpenKey(ns, key)) && ns in m && key in m[ns]
  {
    m := n;
    if key !in m[ns] {
      m := m[ns := m[ns][key := []]];
    } else {
      PutSame(n, ns, key);
    }
  }

  /** Appends a value unless it is there. */
  method OfferTo(n: Nested, ns: string, key: string, v: string) returns (m: Nested)
    requires ns in n && key in n[ns]
    ensures m == Apply(n, Offer(ns, key, v)) && ns in m && key in m[ns]
  {
    m := n;
    if v !in m[ns][key] {
      m := m[ns := m[ns][key := m[ns][key] + [v]]];
    } else {
      PutSame(n, ns, key);
    }
  }

  /* ---------- from a list ---------- */

  function ItemEvents(t: Item): seq<Event> {
    var ns := DeserializeNamespace(t.namespace);
    [OpenKey(ns, t.key)] + if t.value.Some? && t.value.value != "" then [Offer(ns, t.key, t.value.value)] else []
  }

  function ListEvents(tags: seq<Item>): seq<Event>
    decreases |tags|
  {
    if tags == [] then [] else ListEvents(tags[..|tags| - 1]) + ItemEvents(tags[|tags| - 1])
  }

  method DeserializeTagsList(tags: seq<Item>) returns (r: Result<Nested, TagError>)
    ensures r.Ok? <==> forall t :: t in tags ==> t.key != ""
    ensures r.Ok? ==> r.value == Build(map[], ListEvents(tags))
    ensures r.Ok? ==> StoresList(r.value, tags)
  {
    hide Apply, StoresList;
    BuildStoresList(tags);
    var nested: Nested := map[];
    for i := 0 to |tags|
      invariant forall t :: t in tags[..i] ==> t.key != ""
      invariant nested == Build(map[], ListEvents(tags[..i]))
    {
      Snoc(tags, i);
      ghost var before := nested;
      var ns := DeserializeNamespace(tags[i].namespace);
      nested := OpenIn(nested, ns);
      var key := tags[i].key;
      if key == "" {
        return Err(EmptyKey);
      }
      nested := OpenKeyIn(nested, ns, key);
      OpenTwice(before, ns, key);
      BuildOne(before, OpenKey(ns, key));
      var value := tags[i].value;
      if value.Some? && value.value != "" {
        ghost var prior := nested;
        nested := OfferTo(nested, ns, key, value.value);
        BuildOne(prior, Offer(ns, key, value.value));
        BuildAppend(before, [OpenKey(ns, key)], [Offer(ns, key, value.value)]);
      } else {
        assert ItemEvents(tags[i]) == [OpenKey(ns, key)];
      }
      BuildAppend(map[], ListEvents(tags[..i]), ItemEvents(tags[i]));
    }
    assert tags[..|tags|] == tags;
    r := Ok(nested);
  }

  /** Opening a key opens its namespace. */
  lemma OpenTwice(n: Nested, ns: string, key: string)
    ensures Apply(Apply(n, Open(ns)), OpenKey(ns, key)) == Apply(n, OpenKey(ns, key))
  {
    OpenedPut(n, ns, key, Values(n, ns, key));
  }

  method OpenIn(n: Nested, ns: string) returns (m: Nested)
    ensures m == Apply(n, Open(ns)) && ns in m
  {
    m := n;
    if ns !in m {
      m := m[ns := map[]];
    } else {
      OpenedPut(n, ns, "", []);
    }
  }

  /* ---------- from a dictionary ---------- */

  function ValueEvents(ns: string, key: string, values: seq<string>): seq<Event>
    decreases |values|
  {
    if values == [] then []
    else
      var v := values[|values| - 1];
      ValueEvents(ns, key, values[..|values| - 1]) + if v != "" then [Offer(ns, key, v)] else []
  }

  function KeyEvents(ns: string, keys: seq<KeyValues>): seq<Event>
    decreases |keys|
  {
    if keys == [] then []
    else
      var k := keys[|keys| - 1];
      KeyEvents(ns, keys[..|keys| - 1]) + ([OpenKey(ns, k.key)] + ValueEvents(ns, k.key, k.values))
  }

  function DictEvents(d: seq<Section>): seq<Event>
    decreases |d|
  {
    if d == [] then []
    else
      var s := d[|d| - 1];
      var ns := DeserializeNamespace(s.namespace);
      DictEvents(d[..|d| - 1]) + ([Open(ns)] + KeyEvents(ns, s.keys))
  }

  predicate HoldsNs(d: seq<Section>, ns: string) {
    exists s :: s in d && StoredAs(s.namespace, ns)
  }

  predicate HoldsKey(d: seq<Section>, ns: string, key: string) {
    exists s :: s in d && StoredAs(s.namespace, ns) && InKeys(s.keys, key)
  }

  predicate HoldsValue(d: seq<Section>, ns: string, key: string, v: string) {
    exists s :: s in d && StoredAs(s.namespace, ns) && InValues(s.keys, key, v)
  }

  predicate InKeys(keys: seq<KeyValues>, key: string) {
    exists k :: k in keys && k.key == key
  }

  predicate InValues(keys: seq<KeyValues>, key: string, v: string) {
    exists k :: k in keys && k.key == key && v != "" && v in k.values
  }

  ghost predicate StoresDictAt(n: Nested, d: seq<Section>, ns: string, key: string) {
    && (ns in n <==> HoldsNs(d, ns))
    && (key in Keys(n, ns) <==> HoldsKey(d, ns, key))
    && (forall v :: v in Values(n, ns, key) <==> HoldsValue(d, ns, key, v))
    && Distinct(Values(n, ns, key))
  }

  /** A dictionary of tags is stored as exactly its namespaces, keys and non-empty values,
      none of them twice. */
  ghost predicate StoresDict(n: Nested, d: seq<Section>) {
    forall ns, key :: StoresDictAt(n, d, ns, key)
  }

  lemma {:induction false} ValueEventsAre(ns: string, key: string, values: seq<string>)
    ensures forall e :: e in ValueEvents(ns, key, values) <==> e.Offer? && e.ns == ns && e.key == key && e.value != "" && e.value in values
    decreases |values|
  {
    if values != [] {
      ValueEventsAre(ns, key, values[..|values| - 1]);
      SnocElements(values);
    }
  }

  lemma KeyAndValueEvents(m: string, k: KeyValues, ns: string, key: string)
    ensures var events := [OpenKey(m, k.key)] + ValueEvents(m, k.key, k.values);
            && (forall e :: e in events ==> e.ns == m)
            && ((exists e :: e in events && Names(e, ns, key)) <==> m == ns && k.key == key)
            && (forall v :: Offer(ns, key, v) in events <==> m == ns && k.key == key && v != "" && v in k.values)
  {
    ValueEventsAre(m, k.key, k.values);
    hide ValueEvents;
    assert ([OpenKey(m, k.key)] + ValueEvents(m, k.key, k.values))[0] == OpenKey(m, k.key);
    assert Names(OpenKey(m, k.key), ns, key) <==> m == ns && k.key == key;
  }

  lemma {:induction false} KeyEventsAre(m: string, keys: seq<KeyValues>, ns: string, key: string)
    ensures forall e :: e in KeyEvents(m, keys) ==> e.ns == m
    ensures (exists e :: e in KeyEvents(m, keys) && Names(e, ns, key)) <==> m == ns && InKeys(keys, key)
    ensures forall v :: Offer(ns, key, v) in KeyEvents(m, keys) <==> m == ns && InValues(keys, key, v)
    decreases |keys|
  {
    if keys != [] {
      var k := keys[|keys| - 1];
      KeyEventsAre(m, keys[..|keys| - 1], ns, key);
      SnocElements(keys);
      KeyAndValueEvents(m, k, ns, key);
      hide ValueEvents, Names;
    }
  }

  lemma SectionEventsAre(s: Section, ns: string, key: string)
    ensures var m := DeserializeNamespace(s.namespace);
            var events := [Open(m)] + KeyEvents(m, s.keys);
            && ((exists e :: e in events && e.ns == ns) <==> StoredAs(s.namespace, ns))
            && ((exists e :: e in events && Names(e, ns, key)) <==> StoredAs(s.namespace, ns) && InKeys(s.keys, key))
            && (forall v :: Offer(ns, key, v) in events <==> StoredAs(s.namespace, ns) && InValues(s.keys, key, v))
  {
    var m := DeserializeNamespace(s.namespace);
    assert StoredAs(s.namespace, ns) <==> ns == m;
    KeyEventsAre(m, s.keys, ns, key);
    assert ([Open(m)] + KeyEvents(m, s.keys))[0] == Open(m);
    hide StoredAs, DeserializeNamespace, KeyEvents, InKeys, InValues;
  }

  lemma {:induction false} DictEventsAre(d: seq<Section>, ns: string, key: string)
    ensures (exists e :: e in DictEvents(d) && e.ns == ns) <==> HoldsNs(d, ns)
    ensures (exists e :: e in DictEvents(d) && Names(e, ns, key)) <==> HoldsKey(d, ns, key)
    ensures forall v :: Offer(ns, key, v) in DictEvents(d) <==> HoldsValue(d, ns, key, v)
    decreases |d|
  {
    hide KeyEvents, StoredAs, Names, InKeys, InValues;
    if d != [] {
      DictEventsAre(d[..|d| - 1], ns, key);
      SnocElements(d);
      SectionEventsAre(d[|d| - 1], ns, key);
    }
  }

  lemma BuildStoresDict(d: seq<Section>)
    ensures StoresDict(Build(map[], DictEvents(d)), d)
  {
    forall ns, key ensures StoresDictAt(Build(map[], DictEvents(d)), d, ns, key) {
      DictEventsAre(d, ns, key);
      BuiltFromNothing(DictEvents(d), ns, key);
      hide HoldsNs, HoldsKey, HoldsValue, Keys, Values, DictEvents, Build, Names, Distinct;
    }
  }

  lemma BuildOne(n: Nested, e: Event)
    ensures Build(n, [e]) == Apply(n, e)
  {
    assert [e][..0] == [];
  }

  method DeserializeTagsDict(d: seq<Section>) returns (r: Result<Nested, TagError>)
    ensures r.Ok? <==> forall s, k :: s in d && k in s.keys ==> k.key != ""
    ensures r.Ok? ==> r.value == Build(map[], DictEvents(d))
    ensures r.Ok? ==> StoresDict(r.value, d)
  {
    hide Apply, StoresDict;
    BuildStoresDict(d);
    var nested: Nested := map[];
    for i := 0 to |d|
      invariant forall s, k :: s in d[..i] && k in s.keys ==> k.key != ""
      invariant nested == Build(map[], DictEvents(d[..i]))
    {
      Snoc(d, i);
      var ns := DeserializeNamespace(d[i].namespace);
      ghost var before := nested;
      nested := OpenIn(nested, ns);
      BuildOne(before, Open(ns));
      ghost var start := nested;
      var keys := d[i].keys;
      for j := 0 to |keys|
        invariant forall k :: k in keys[..j] ==> k.key != ""
        invariant nested == Build(start, KeyEvents(ns, keys[..j])) && ns in nested
      {
        Snoc(keys, j);
        if keys[j].key == "" {
          assert d[i] in d && keys[j] in d[i].keys;
          return Err(EmptyKey);
        }
        ghost var prior := nested;
        nested := AddKey(nested, ns, keys[j]);
        BuildAppend(start, KeyEvents(ns, keys[..j]),
                    [OpenKey(ns, keys[j].key)] + ValueEvents(ns, keys[j].key, keys[j].values));
      }
      assert keys[..|keys|] == keys;
      BuildAppend(before, [Open(ns)], KeyEvents(ns, keys));
      BuildAppend(map[], DictEvents(d[..i]), [Open(ns)] + KeyEvents(ns, keys));
    }
    assert d[..|d|] == d;
    r := Ok(nested);
  }

  /** One key of a section with its list of values. */
  method AddKey(n: Nested, ns: string, k: KeyValues) returns (nested: Nested)
    requires ns in n
    ensures nested == Build(n, [OpenKey(ns, k.key)] + ValueEvents(ns, k.key, k.values)) && ns in nested
  {
    hide Apply;
    nested := OpenKeyIn(n, ns, k.key);
    BuildOne(n, OpenKey(ns, k.key));
    ghost var start := nested;
    for i := 0 to |k.values|
      invariant ns in nested && k.key in nested[ns]
      invariant nested == Build(start, ValueEvents(ns, k.key, k.values[..i]))
    {
      Snoc(k.values, i);
      var v := k.values[i];
      ghost var prior := nested;
      if v != "" {
        nested := OfferTo(nested, ns, k.key, v);
        BuildOne(prior, Offer(ns, k.key, v));
        BuildAppend(start, ValueEvents(ns, k.key, k.values[..i]), [Offer(ns, k.key, v)]);
      } else {
        assert ValueEvents(ns, k.key, k.values[..i + 1]) == ValueEvents(ns, k.key, k.values[..i]);
      }
    }
    assert k.values[..|k.values|] == k.values;
    BuildAppend(n, [OpenKey(ns, k.key)], ValueEvents(ns, k.key, k.values));
  }
}
