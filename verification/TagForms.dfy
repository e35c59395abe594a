/** The forms of nested tags agree: canonicalisation is idempotent, flattening and
    rebuilding loses only empty namespaces, and combining is a fold. */
module TagForms {
  import opened Common
  import opened TagTree

  /* ---------- reading event sequences ---------- */

  lemma {:induction false} OfferedAppend(a: seq<Event>, b: seq<Event>, ns: string, key: string)
    ensures Offered(a + b, ns, key) == Offered(a, ns, key) + Offered(b, ns, key)
    decreases |b|
  {
    if b == [] {
      assert a + b == a;
    } else {
      var front, e := b[..|b| - 1], b[|b| - 1];
      OfferedAppend(a, front, ns, key);
      assert a + b == (a + front) + [e];
      OfferedSnoc(a + front, e, ns, key);
      assert b == front + [e];
      OfferedSnoc(front, e, ns, key);
    }
  }

  /** The events mention a namespace, or a key of it. */
  predicate TouchesNs(events: seq<Event>, ns: string) {
    exists e :: e in events && e.ns == ns
  }

  predicate TouchesKey(events: seq<Event>, ns: string, key: string) {
    exists e :: e in events && Names(e, ns, key)
  }

  lemma TouchesAppend(a: seq<Event>, b: seq<Event>, ns: string, key: string)
    ensures TouchesNs(a + b, ns) <==> TouchesNs(a, ns) || TouchesNs(b, ns)
    ensures TouchesKey(a + b, ns, key) <==> TouchesKey(a, ns, key) || TouchesKey(b, ns, key)
  {
    assert forall e :: e in a + b <==> e in a || e in b;
  }

  /** Events that respect the rules: no empty namespace, key or value. */
  predicate Proper(events: seq<Event>) {
    forall e :: e in events ==> e.ns != "" && (!e.Open? ==> e.key != "") && (e.Offer? ==> e.value != "")
  }

  lemma {:induction false} OfferedProper(events: seq<Event>, ns: string, key: string)
    requires Proper(events)
    ensures "" !in Offered(events, ns, key)
    decreases |events|
  {
    if events != [] {
      OfferedProper(events[..|events| - 1], ns, key);
    }
  }

  /** Values are distinct and not empty, and neither are keys and namespaces. */
  ghost predicate Canonical(n: Nested) {
    && (forall ns :: ns in n ==> ns != "")
    && (forall ns, key :: key in Keys(n, ns) ==> key != "" && Distinct(Values(n, ns, key)) && "" !in Values(n, ns, key))
  }

  /** Whatever is built from proper events is canonical. */
  lemma BuiltIsCanonical(events: seq<Event>)
    requires Proper(events)
    ensures Canonical(Build(map[], events))
  {
    var b := Build(map[], events);
    forall ns | ns in b ensures ns != "" {
      BuildAt(map[], events, ns, "");
    }
    forall ns, key | key in Keys(b, ns)
      ensures key != "" && Distinct(Values(b, ns, key)) && "" !in Values(b, ns, key)
    {
      BuildAt(map[], events, ns, key);
      OfferedProper(events, ns, key);
      ExtendedFacts([], Offered(events, ns, key));
    }
  }

  lemma {:induction false} ListEventsProper(tags: seq<Item>)
    requires forall t :: t in tags ==> t.key != ""
    ensures Proper(ListEvents(tags))
    decreases |tags|
  {
    if tags != [] {
      ListEventsProper(tags[..|tags| - 1]);
      assert tags[|tags| - 1] in tags;
    }
  }

  lemma {:induction false} ValueEventsProper(ns: string, key: string, values: seq<string>)
    requires ns != "" && key != ""
    ensures Proper(ValueEvents(ns, key, values))
    decreases |values|
  {
    if values != [] { ValueEventsProper(ns, key, values[..|values| - 1]); }
  }

  lemma {:induction false} KeyEventsProper(ns: string, keys: seq<KeyValues>)
    requires ns != "" && forall k :: k in keys ==> k.key != ""
    ensures Proper(KeyEvents(ns, keys))
    decreases |keys|
  {
    if keys != [] {
      var k := keys[|keys| - 1];
      assert k in keys;
      KeyEventsProper(ns, keys[..|keys| - 1]);
      ValueEventsProper(ns, k.key, k.values);
    }
  }

  lemma {:induction false} DictEventsProper(d: seq<Section>)
    requires forall s, k :: s in d && k in s.keys ==> k.key != ""
    ensures Proper(DictEvents(d))
    decreases |d|
  {
    if d != [] {
      var s := d[|d| - 1];
      assert s in d;
      DictEventsProper(d[..|d| - 1]);
      KeyEventsProper(DeserializeNamespace(s.namespace), s.keys);
    }
  }

  /** Both ways of receiving tags end in canonical form. */
  lemma ReceivedIsCanonical(tags: seq<Item>, d: seq<Section>)
    ensures (forall t :: t in tags ==> t.key != "") ==> Canonical(Build(map[], ListEvents(tags)))
    ensures (forall s, k :: s in d && k in s.keys ==> k.key != "") ==> Canonical(Build(map[], DictEvents(d)))
  {
    if forall t :: t in tags ==> t.key != "" {
      ListEventsProper(tags);
      BuiltIsCanonical(ListEvents(tags));
    }
    if forall s, k :: s in d && k in s.keys ==> k.key != "" {
      DictEventsProper(d);
      BuiltIsCanonical(DictEvents(d));
    }
  }

  /* ---------- flattening and rebuilding ---------- */

  type Pair = (string, string)

  /** The structured tags of one key: one without a value if it has none. */
  function FlatItems(n: Nested, p: Pair): seq<Item> {
    var values := Values(n, p.0, p.1);
    if values == [] then [Item(SerializeNamespace(p.0), p.1, None)]
    else ValueItems(p.0, p.1, values)
  }

  function ValueItems(ns: string, key: string, values: seq<string>): seq<Item>
    decreases |values|
  {
    if values == [] then []
    else ValueItems(ns, key, values[..|values| - 1]) + [Item(SerializeNamespace(ns), key, Some(values[|values| - 1]))]
  }

  function Flatten(n: Nested, order: seq<Pair>): seq<Item>
    decreases |order|
  {
    if order == [] then [] else Flatten(n, order[..|order| - 1]) + FlatItems(n, order[|order| - 1])
  }

  /** `order` lists every key of every namespace once. */
  ghost predicate Enumerates(order: seq<Pair>, n: Nested) {
    Distinct(order) && forall ns, key :: (ns, key) in order <==> key in Keys(n, ns)
  }

  /** Everything but the namespaces without keys. */
  function Pruned(n: Nested): Nested {
    map ns | ns in n && n[ns] != map[] :: n[ns]
  }

  /** The values of a key as they may be stored: none, a single text, or a list. */
  datatype Stored = NoValues | OneText(text: string) | ListOf(values: seq<string>)

  type StoredTags = map<string, map<string, Stored>>

  function ValuesOf(v: Stored): seq<string> {
    match v
    case NoValues => []
    case OneText(s) => [s]
    case ListOf(values) => values
  }

  /** The same tags with a list for every key. */
  function Listing(stored: StoredTags): Nested {
    map ns | ns in stored :: map key | key in stored[ns] :: ValuesOf(stored[ns][key])
  }

  /** The tags of one key. */
  method SerializeKey(ns: string, key: string, v: Stored) returns (flat: seq<Item>)
    ensures flat == if ValuesOf(v) == [] then [Item(SerializeNamespace(ns), key, None)] else ValueItems(ns, key, ValuesOf(v))
  {
    if v == NoValues || (v.ListOf? && v.values == []) {
      return [Item(SerializeNamespace(ns), key, None)];
    }
    if v.OneText? {
      assert ValueItems(ns, key, [v.text][..0]) == [];
      return [Item(SerializeNamespace(ns), key, Some(v.text))];
    }
    flat := [];
    for i := 0 to |v.values|
      invariant flat == ValueItems(ns, key, v.values[..i])
    {
      Snoc(v.values, i);
      flat := flat + [Item(SerializeNamespace(ns), key, Some(v.values[i]))];
    }
    assert v.values[..|v.values|] == v.values;
  }

  lemma NoPairs(n: Nested)
    ensures Distinct<Pair>([]) && Flatten(n, []) == []
  {}

  lemma OnePairMore(n: Nested, order: seq<Pair>, p: Pair)
    requires Distinct(order) && p !in order
    ensures Distinct(order + [p]) && Flatten(n, order + [p]) == Flatten(n, order) + FlatItems(n, p)
  {
    assert (order + [p])[..|order|] == order;
  }

  lemma KeyListed(stored: StoredTags, ns: string, key: string)
    requires ns in stored && key in stored[ns]
    ensures FlatItems(Listing(stored), (ns, key))
         == if ValuesOf(stored[ns][key]) == [] then [Item(SerializeNamespace(ns), key, None)]
            else ValueItems(ns, key, ValuesOf(stored[ns][key]))
  {}

  /** A structured tag that a stored key is listed as. */
  predicate ListedAs(t: Item, ns: string, key: string, v: Stored) {
    && t.namespace == (if |ns| == 0 || ns == "null" then None else Some(ns))
    && t.key == key
    && match v
       case NoValues => t.value == None
       case OneText(s) => t.value == Some(s)
       case ListOf(values) => if |values| == 0 then t.value == None else t.value.Some? && t.value.value in values
  }

  lemma {:induction false} ValueItemsAre(ns: string, key: string, values: seq<string>)
    ensures forall t :: t in ValueItems(ns, key, values)
              <==> t.namespace == SerializeNamespace(ns) && t.key == key && t.value.Some? && t.value.value in values
    decreases |values|
  {
    if values != [] {
      ValueItemsAre(ns, key, values[..|values| - 1]);
      SnocElements(values);
    }
  }

  lemma FlatItemsAre(stored: StoredTags, ns: string, key: string, t: Item)
    requires ns in stored && key in stored[ns]
    ensures t in FlatItems(Listing(stored), (ns, key)) <==> ListedAs(t, ns, key, stored[ns][key])
  {
    KeyListed(stored, ns, key);
    ValueItemsAre(ns, key, ValuesOf(stored[ns][key]));
  }

  lemma {:induction false} FlattenElements(n: Nested, order: seq<Pair>, t: Item)
    ensures t in Flatten(n, order) <==> exists p :: p in order && t in FlatItems(n, p)
    decreases |order|
  {
    hide FlatItems;
    if order != [] {
      FlattenElements(n, order[..|order| - 1], t);
      SnocElements(order);
    }
  }

  /** The list holds the tags of every stored key, and no others. */
  ghost predicate ListsAll(flat: seq<Item>, stored: StoredTags) {
    forall t :: t in flat <==> exists ns, key :: ns in stored && key in stored[ns] && ListedAs(t, ns, key, stored[ns][key])
  }

  lemma FlattenListsAll(stored: StoredTags, order: seq<Pair>)
    requires Enumerates(order, Listing(stored))
    ensures ListsAll(Flatten(Listing(stored), order), stored)
  {
    var n := Listing(stored);
    assert forall ns, key :: key in Keys(n, ns) <==> ns in stored && key in stored[ns];
    hide Listing, Flatten, FlatItems, ListedAs, Keys;
    forall t ensures t in Flatten(n, order)
                <==> exists ns, key :: ns in stored && key in stored[ns] && ListedAs(t, ns, key, stored[ns][key])
    {
      FlattenElements(n, order, t);
      forall ns, key | ns in stored && key in stored[ns]
        ensures t in FlatItems(n, (ns, key)) <==> ListedAs(t, ns, key, stored[ns][key])
      {
        FlatItemsAre(stored, ns, key, t);
      }
      if p :| p in order && t in FlatItems(n, p) {
        assert (p.0, p.1) in order;
      }
      if ns, key :| ns in stored && key in stored[ns] && ListedAs(t, ns, key, stored[ns][key]) {
        assert (ns, key) in order;
      }
    }
  }

  /** The flat list, in whatever order the dictionaries iterate. */
  method SerializeTags(stored: StoredTags) returns (flat: seq<Item>)
    ensures exists order :: Enumerates(order, Listing(stored)) && flat == Flatten(Listing(stored), order)
    ensures ListsAll(flat, stored)
  {
    hide ListsAll, Distinct, Flatten, FlatItems, ValueItems;
    flat := [];
    ghost var n := Listing(stored);
    NoPairs(n);
    ghost var order: seq<Pair> := [];
    var spaces := stored.Keys;
    while spaces != {}
      invariant spaces <= stored.Keys && Distinct(order) && flat == Flatten(n, order)
      invariant forall ns, key :: (ns, key) in order <==> ns !in spaces && key in Keys(n, ns)
    {
      var ns :| ns in spaces;
      var keys := stored[ns].Keys;
      while keys != {}
        invariant keys <= stored[ns].Keys && Distinct(order) && flat == Flatten(n, order)
        invariant forall m, key :: (m, key) in order <==>
                    (m !in spaces && key in Keys(n, m)) || (m == ns && key in n[ns] && key !in keys)
      {
        var key :| key in keys;
        assert (ns, key) !in order;
        OnePairMore(n, order, (ns, key));
        var items := SerializeKey(ns, key, stored[ns][key]);
        KeyListed(stored, ns, key);
        flat := flat + items;
        order := order + [(ns, key)];
        keys := keys - {key};
      }
      spaces := spaces - {ns};
    }
    FlattenListsAll(stored, order);
  }

  lemma {:induction false} ListEventsAppend(a: seq<Item>, b: seq<Item>)
    ensures ListEvents(a + b) == ListEvents(a) + ListEvents(b)
    decreases |b|
  {
    if b == [] {
      assert a + b == a;
    } else {
      assert (a + b)[..|a + b| - 1] == a + b[..|b| - 1];
      ListEventsAppend(a, b[..|b| - 1]);
    }
  }

  /** The two events of a tag with a value. */
  lemma OneItemEvents(n: string, k: string, v: string, ns: string, key: string)
    requires n != "" && v != ""
    ensures var e := ItemEvents(Item(SerializeNamespace(n), k, Some(v)));
            && Offered(e, ns, key) == (if ns == n && key == k then [v] else [])
            && (TouchesNs(e, ns) <==> ns == n)
            && (TouchesKey(e, ns, key) <==> ns == n && key == k)
  {
    var e := ItemEvents(Item(SerializeNamespace(n), k, Some(v)));
    assert e == [OpenKey(n, k), Offer(n, k, v)] == [OpenKey(n, k)] + [Offer(n, k, v)];
    assert [OpenKey(n, k)][..0] == [];
    OfferedSnoc([OpenKey(n, k)], Offer(n, k, v), ns, key);
    assert Offered([OpenKey(n, k)], ns, key) == [];
    assert e[0] in e;
  }

  /** The events of the tags of one key with the given values. */
  lemma {:induction false} ValueItemsEvents(n: string, k: string, values: seq<string>, ns: string, key: string)
    requires n != "" && "" !in values
    ensures var e := ListEvents(ValueItems(n, k, values));
            && Offered(e, ns, key) == (if ns == n && key == k then values else [])
            && (TouchesNs(e, ns) <==> values != [] && ns == n)
            && (TouchesKey(e, ns, key) <==> values != [] && ns == n && key == k)
    decreases |values|
  {
    hide ItemEvents, TouchesNs, TouchesKey;
    if values == [] {
      NothingTouched(ns, key);
    } else {
      var front, v := values[..|values| - 1], values[|values| - 1];
      assert v in values && values == front + [v];
      var t := Item(SerializeNamespace(n), k, Some(v));
      ValueItemsEvents(n, k, front, ns, key);
      OneItemEvents(n, k, v, ns, key);
      ListEventsSnoc(ValueItems(n, k, front), t);
      OfferedAppend(ListEvents(ValueItems(n, k, front)), ItemEvents(t), ns, key);
      TouchesAppend(ListEvents(ValueItems(n, k, front)), ItemEvents(t), ns, key);
    }
  }

  lemma ListEventsSnoc(tags: seq<Item>, t: Item)
    ensures ListEvents(tags + [t]) == ListEvents(tags) + ItemEvents(t)
  {
    assert (tags + [t])[..|tags|] == tags;
  }

  lemma NothingTouched(ns: string, key: string)
    ensures !TouchesNs([], ns) && !TouchesKey([], ns, key)
  {}

  lemma FlatItemsEvents(n: Nested, p: Pair, ns: string, key: string)
    requires Canonical(n) && p.1 in Keys(n, p.0)
    ensures var e := ListEvents(FlatItems(n, p));
            && Offered(e, ns, key) == (if (ns, key) == p then Values(n, ns, key) else [])
            && (TouchesNs(e, ns) <==> ns == p.0)
            && (TouchesKey(e, ns, key) <==> (ns, key) == p)
  {
    var values := Values(n, p.0, p.1);
    assert p.0 != "" && "" !in values;
    if values == [] {
      BareItemEvents(p.0, p.1, ns, key);
    } else {
      ValueItemsEvents(p.0, p.1, values, ns, key);
    }
  }

  /** The event of a tag without a value. */
  lemma BareItemEvents(n: string, k: string, ns: string, key: string)
    requires n != ""
    ensures var e := ListEvents([Item(SerializeNamespace(n), k, None)]);
            && Offered(e, ns, key) == []
            && (TouchesNs(e, ns) <==> ns == n)
            && (TouchesKey(e, ns, key) <==> ns == n && key == k)
  {
    var t := Item(SerializeNamespace(n), k, None);
    ListEventsSnoc([], t);
    assert [] + [t] == [t];
    var e := [OpenKey(n, k)];
    assert ListEvents([t]) == e && e[0] in e;
    assert e[..0] == [];
  }

  predicate ListsNs(order: seq<Pair>, ns: string) {
    exists p :: p in order && p.0 == ns
  }

  lemma {:induction false} FlattenEvents(n: Nested, order: seq<Pair>, ns: string, key: string)
    requires Canonical(n) && Distinct(order) && forall p :: p in order ==> p.1 in Keys(n, p.0)
    ensures var e := ListEvents(Flatten(n, order));
            && Offered(e, ns, key) == (if (ns, key) in order then Values(n, ns, key) else [])
            && (TouchesNs(e, ns) <==> ListsNs(order, ns))
            && (TouchesKey(e, ns, key) <==> (ns, key) in order)
    decreases |order|
  {
    hide Canonical, FlatItems, TouchesNs, TouchesKey, Values;
    if order == [] {
      NothingTouched(ns, key);
    } else {
      var front, p := order[..|order| - 1], order[|order| - 1];
      assert order == front + [p] && p !in front && Distinct(front);
      assert ListsNs(order, ns) <==> ListsNs(front, ns) || p.0 == ns;
      hide ListsNs;
      FlattenEvents(n, front, ns, key);
      FlatItemsEvents(n, p, ns, key);
      ListEventsAppend(Flatten(n, front), FlatItems(n, p));
      OfferedAppend(ListEvents(Flatten(n, front)), ListEvents(FlatItems(n, p)), ns, key);
      TouchesAppend(ListEvents(Flatten(n, front)), ListEvents(FlatItems(n, p)), ns, key);
    }
  }

  /** The rebuilt tags, read off at one key. */
  lemma RebuiltAt(n: Nested, order: seq<Pair>, ns: string, key: string)
    requires Canonical(n) && Enumerates(order, n)
    ensures var b := Build(map[], ListEvents(Flatten(n, order)));
            && (ns in b <==> ns in Pruned(n))
            && (key in Keys(b, ns) <==> key in Keys(n, ns))
            && Values(b, ns, key) == Values(n, ns, key)
  {
    hide Flatten, Pruned;
    forall p | p in order ensures p.1 in Keys(n, p.0) {
      assert (p.0, p.1) in order;
    }
    FlattenEvents(n, order, ns, key);
    BuildAt(map[], ListEvents(Flatten(n, order)), ns, key);
    NonEmptyNamespaces(n, order, ns);
    assert (ns, key) in order <==> key in Keys(n, ns);
    if key in Keys(n, ns) {
      ExtendedFromNothing(Values(n, ns, key));
    }
  }

  /** Flattening canonical tags and rebuilding them from the list gives them back,
      minus the namespaces without keys, in every iteration order. */
  lemma FlattenRebuilds(n: Nested, order: seq<Pair>)
    requires Canonical(n) && Enumerates(order, n)
    ensures Build(map[], ListEvents(Flatten(n, order))) == Pruned(n)
  {
    hide Canonical, Enumerates, Flatten;
    var b := Build(map[], ListEvents(Flatten(n, order)));
    forall ns ensures ns in b <==> ns in Pruned(n) {
      RebuiltAt(n, order, ns, "");
    }
    forall ns, key
      ensures key in Keys(b, ns) <==> key in Keys(Pruned(n), ns)
      ensures Values(b, ns, key) == Values(Pruned(n), ns, key)
    {
      RebuiltAt(n, order, ns, key);
      assert Keys(Pruned(n), ns) == Keys(n, ns);
    }
    SameNested(b, Pruned(n));
  }

  lemma HasAKey(m: map<string, seq<string>>)
    requires m != map[]
    ensures exists key :: key in m
  {}

  lemma NonEmptyNamespaces(n: Nested, order: seq<Pair>, ns: string)
    requires Enumerates(order, n)
    ensures ListsNs(order, ns) <==> ns in Pruned(n)
  {
    if ns in Pruned(n) {
      HasAKey(n[ns]);
      var key :| key in n[ns];
      assert key in Keys(n, ns) && (ns, key) in order;
    }
    if p :| p in order && p.0 == ns {
      assert (p.0, p.1) in order;
      assert p.1 in n[ns];
    }
  }

  /* ---------- canonicalising twice ---------- */

  /** `d` is the dictionary `n` in some order. */
  ghost predicate Spells(d: seq<Section>, n: Nested) {
    && (forall s :: s in d ==> SpellsSection(s, n))
    && (forall i, j :: 0 <= i < j < |d| ==> d[i].namespace != d[j].namespace)
    && (forall ns :: ns in n ==> HasSection(d, ns))
  }

  ghost predicate SpellsKeys(ks: seq<KeyValues>, m: map<string, seq<string>>) {
    && (forall i :: 0 <= i < |ks| ==> ks[i].key in m && m[ks[i].key] == ks[i].values)
    && (forall i, j :: 0 <= i < j < |ks| ==> ks[i].key != ks[j].key)
    && (forall key :: key in m ==> exists i :: 0 <= i < |ks| && ks[i].key == key)
  }

  lemma {:induction false} ValueEventsAt(n: string, k: string, values: seq<string>, ns: string, key: string)
    requires "" !in values
    ensures var e := ValueEvents(n, k, values);
            && Offered(e, ns, key) == (if ns == n && key == k then values else [])
            && (forall x :: x in e ==> x.ns == n && Names(x, n, k))
    decreases |values|
  {
    if values != [] {
      var front, v := values[..|values| - 1], values[|values| - 1];
      assert v in values && values == front + [v];
      ValueEventsAt(n, k, front, ns, key);
      OfferedSnoc(ValueEvents(n, k, front), Offer(n, k, v), ns, key);
    }
  }

  lemma OneKeyEvents(n: string, k: KeyValues, ns: string, key: string)
    requires "" !in k.values
    ensures var e := [OpenKey(n, k.key)] + ValueEvents(n, k.key, k.values);
            && Offered(e, ns, key) == (if ns == n && key == k.key then k.values else [])
            && (TouchesNs(e, ns) <==> ns == n)
            && (TouchesKey(e, ns, key) <==> ns == n && key == k.key)
  {
    ValueEventsAt(n, k.key, k.values, ns, key);
    var e := [OpenKey(n, k.key)] + ValueEvents(n, k.key, k.values);
    OfferedAppend([OpenKey(n, k.key)], ValueEvents(n, k.key, k.values), ns, key);
    assert [OpenKey(n, k.key)][..0] == [];
    assert Offered([OpenKey(n, k.key)], ns, key) == [];
    assert e[0] in e && e[0] == OpenKey(n, k.key);
  }

  /** The value list of a key in a list with distinct keys. */
  function Listed(ks: seq<KeyValues>, key: string): seq<string>
    decreases |ks|
  {
    if ks == [] then [] else if ks[|ks| - 1].key == key then ks[|ks| - 1].values else Listed(ks[..|ks| - 1], key)
  }

  predicate HasKey(ks: seq<KeyValues>, key: string) {
    exists k :: k in ks && k.key == key
  }

  lemma LastKey(ks: seq<KeyValues>, key: string)
    requires ks != [] && forall i, j :: 0 <= i < j < |ks| ==> ks[i].key != ks[j].key
    ensures var front, k := ks[..|ks| - 1], ks[|ks| - 1];
            && (HasKey(ks, key) <==> HasKey(front, key) || k.key == key)
            && !(HasKey(front, key) && k.key == key)
  {
    var front, k := ks[..|ks| - 1], ks[|ks| - 1];
    assert ks == front + [k];
    assert forall x :: x in front ==> x.key != k.key;
  }

  lemma {:induction false} KeyEventsAt(n: string, ks: seq<KeyValues>, ns: string, key: string)
    requires forall k :: k in ks ==> "" !in k.values
    requires forall i, j :: 0 <= i < j < |ks| ==> ks[i].key != ks[j].key
    ensures var e := KeyEvents(n, ks);
            && Offered(e, ns, key) == (if ns == n && HasKey(ks, key) then Listed(ks, key) else [])
            && (TouchesNs(e, ns) ==> ns == n)
            && (TouchesKey(e, ns, key) <==> ns == n && HasKey(ks, key))
    decreases |ks|
  {
    hide TouchesNs, TouchesKey;
    if ks == [] {
      NothingTouched(ns, key);
    } else {
      var front, k := ks[..|ks| - 1], ks[|ks| - 1];
      assert ks == front + [k] && k in ks;
      LastKey(ks, key);
      hide HasKey;
      KeyEventsAt(n, front, ns, key);
      OneKeyEvents(n, k, ns, key);
      var e := [OpenKey(n, k.key)] + ValueEvents(n, k.key, k.values);
      OfferedAppend(KeyEvents(n, front), e, ns, key);
      TouchesAppend(KeyEvents(n, front), e, ns, key);
    }
  }

  lemma {:induction false} ListedIs(ks: seq<KeyValues>, i: nat)
    requires forall i, j :: 0 <= i < j < |ks| ==> ks[i].key != ks[j].key
    requires i < |ks|
    ensures Listed(ks, ks[i].key) == ks[i].values && HasKey(ks, ks[i].key)
    decreases |ks|
  {
    assert ks[i] in ks;
    if i < |ks| - 1 { ListedIs(ks[..|ks| - 1], i); }
  }

  lemma SpelledKeys(ks: seq<KeyValues>, m: map<string, seq<string>>, key: string)
    requires SpellsKeys(ks, m)
    ensures HasKey(ks, key) <==> key in m
    ensures key in m ==> Listed(ks, key) == m[key]
  {
    if key in m {
      var i :| 0 <= i < |ks| && ks[i].key == key;
      ListedIs(ks, i);
    }
  }

  predicate HasSection(d: seq<Section>, ns: string) {
    exists s :: s in d && s.namespace == Some(ns)
  }

  ghost predicate SpellsSection(s: Section, n: Nested) {
    s.namespace.Some? && s.namespace.value in n && SpellsKeys(s.keys, n[s.namespace.value])
  }

  lemma {:induction false} DictEventsAt(d: seq<Section>, n: Nested, ns: string, key: string)
    requires Canonical(n) && forall s :: s in d ==> SpellsSection(s, n)
    requires forall i, j :: 0 <= i < j < |d| ==> d[i].namespace != d[j].namespace
    ensures var e := DictEvents(d);
            && Offered(e, ns, key) == (if HasSection(d, ns) then Values(n, ns, key) else [])
            && (TouchesNs(e, ns) <==> HasSection(d, ns))
            && (TouchesKey(e, ns, key) <==> HasSection(d, ns) && key in Keys(n, ns))
    decreases |d|
  {
    hide TouchesNs, TouchesKey, SpellsSection, Canonical, Keys, Values;
    if d == [] {
      NothingTouched(ns, key);
    } else {
      var front, s := d[..|d| - 1], d[|d| - 1];
      assert d == front + [s];
      LastSection(d, ns);
      hide HasSection;
      DictEventsAt(front, n, ns, key);
      SectionEvents(s, n, ns, key);
      var m := DeserializeNamespace(s.namespace);
      OfferedAppend(DictEvents(front), [Open(m)] + KeyEvents(m, s.keys), ns, key);
      TouchesAppend(DictEvents(front), [Open(m)] + KeyEvents(m, s.keys), ns, key);
    }
  }

  lemma LastSection(d: seq<Section>, ns: string)
    requires d != [] && forall i, j :: 0 <= i < j < |d| ==> d[i].namespace != d[j].namespace
    ensures var front, s := d[..|d| - 1], d[|d| - 1];
            && (HasSection(d, ns) <==> HasSection(front, ns) || s.namespace == Some(ns))
            && !(HasSection(front, ns) && s.namespace == Some(ns))
  {
    var front, s := d[..|d| - 1], d[|d| - 1];
    assert d == front + [s];
    assert forall x :: x in front ==> x.namespace != s.namespace;
  }

  lemma OpenEvents(m: string, ns: string, key: string)
    ensures Offered([Open(m)], ns, key) == []
    ensures TouchesNs([Open(m)], ns) <==> ns == m
    ensures !TouchesKey([Open(m)], ns, key)
  {
    assert [Open(m)][..0] == [];
    assert [Open(m)][0] in [Open(m)];
  }

  lemma SectionEvents(s: Section, n: Nested, ns: string, key: string)
    requires Canonical(n) && SpellsSection(s, n)
    ensures var m := DeserializeNamespace(s.namespace);
            var e := [Open(m)] + KeyEvents(m, s.keys);
            && Offered(e, ns, key) == (if s.namespace == Some(ns) then Values(n, ns, key) else [])
            && (TouchesNs(e, ns) <==> s.namespace == Some(ns))
            && (TouchesKey(e, ns, key) <==> s.namespace == Some(ns) && key in Keys(n, ns))
  {
    hide TouchesNs, TouchesKey, HasKey, Listed;
    var m := DeserializeNamespace(s.namespace);
    assert m == s.namespace.value;
    forall k | k in s.keys ensures "" !in k.values {
      assert k.key in Keys(n, m) && Values(n, m, k.key) == k.values;
    }
    KeyEventsAt(m, s.keys, ns, key);
    SpelledKeys(s.keys, n[m], key);
    hide Canonical, SpellsKeys;
    OfferedAppend([Open(m)], KeyEvents(m, s.keys), ns, key);
    TouchesAppend([Open(m)], KeyEvents(m, s.keys), ns, key);
    OpenEvents(m, ns, key);
  }

  /** Canonical tags, received again in any order, stay as they are. */
  lemma CanonicalisingIsIdempotent(d: seq<Section>, n: Nested)
    requires Canonical(n) && Spells(d, n)
    ensures Build(map[], DictEvents(d)) == n
  {
    var b := Build(map[], DictEvents(d));
    forall ns ensures ns in b <==> ns in n {
      RespeltAt(d, n, ns, "");
    }
    forall ns, key
      ensures key in Keys(b, ns) <==> key in Keys(n, ns)
      ensures Values(b, ns, key) == Values(n, ns, key)
    {
      RespeltAt(d, n, ns, key);
    }
    SameNested(b, n);
  }

  lemma RespeltAt(d: seq<Section>, n: Nested, ns: string, key: string)
    requires Canonical(n) && Spells(d, n)
    ensures var b := Build(map[], DictEvents(d));
            && (ns in b <==> ns in n)
            && (key in Keys(b, ns) <==> key in Keys(n, ns))
            && Values(b, ns, key) == Values(n, ns, key)
  {
    DictEventsAt(d, n, ns, key);
    BuildAt(map[], DictEvents(d), ns, key);
    assert ns in n <==> HasSection(d, ns);
    if key in Keys(n, ns) {
      ExtendedFromNothing(Values(n, ns, key));
    }
  }

  /* ---------- combining ---------- */

  /** Items with a missing or empty part are skipped; namespaces are taken as given. */
  function CombineEvents(items: seq<Item>): seq<Event>
    decreases |items|
  {
    if items == [] then []
    else
      var t := items[|items| - 1];
      CombineEvents(items[..|items| - 1])
        + if Complete(t) then [Offer(t.namespace.value, t.key, t.value.value)] else []
  }

  predicate Complete(t: Item) {
    t.namespace.Some? && t.namespace.value != "" && t.key != "" && t.value.Some? && t.value.value != ""
  }

  /** The item names this value of this key, and no part of it is missing or empty. */
  predicate Gives(t: Item, ns: string, key: string, v: string) {
    t.namespace == Some(ns) && t.key == key && t.value == Some(v) && |ns| > 0 && |key| > 0 && |v| > 0
  }

  predicate GivesNs(items: seq<Item>, ns: string) {
    exists t :: t in items && t.value.Some? && Gives(t, ns, t.key, t.value.value)
  }

  predicate GivesKey(items: seq<Item>, ns: string, key: string) {
    exists t :: t in items && t.value.Some? && Gives(t, ns, key, t.value.value)
  }

  predicate GivesValue(items: seq<Item>, ns: string, key: string, v: string) {
    exists t :: t in items && Gives(t, ns, key, v)
  }

  ghost predicate CombinesAt(n: Nested, existing: Nested, items: seq<Item>, ns: string, key: string) {
    && (ns in n <==> ns in existing || GivesNs(items, ns))
    && (key in Keys(n, ns) <==> key in Keys(existing, ns) || GivesKey(items, ns, key))
    && (forall v :: v in Values(n, ns, key) <==> v in Values(existing, ns, key) || GivesValue(items, ns, key, v))
    && Values(existing, ns, key) <= Values(n, ns, key)
    && (Distinct(Values(existing, ns, key)) ==> Distinct(Values(n, ns, key)))
  }

  /** Combining adds exactly the values that the items give, behind those there are. */
  ghost predicate Combines(n: Nested, existing: Nested, items: seq<Item>) {
    forall ns, key :: CombinesAt(n, existing, items, ns, key)
  }

  lemma OneCombineEvent(t: Item, ns: string, key: string)
    ensures var events := if Complete(t) then [Offer(t.namespace.value, t.key, t.value.value)] else [];
            && ((exists e :: e in events && e.ns == ns) <==> t.value.Some? && Gives(t, ns, t.key, t.value.value))
            && ((exists e :: e in events && Names(e, ns, key)) <==> t.value.Some? && Gives(t, ns, key, t.value.value))
            && (forall v :: Offer(ns, key, v) in events <==> Gives(t, ns, key, v))
  {
    var events := if Complete(t) then [Offer(t.namespace.value, t.key, t.value.value)] else [];
    if Complete(t) {
      var e := Offer(t.namespace.value, t.key, t.value.value);
      assert events[0] == e && (Names(e, ns, key) <==> e.ns == ns && e.key == key);
    }
  }

  lemma {:induction false} CombineEventsAre(items: seq<Item>, ns: string, key: string)
    ensures (exists e :: e in CombineEvents(items) && e.ns == ns) <==> GivesNs(items, ns)
    ensures (exists e :: e in CombineEvents(items) && Names(e, ns, key)) <==> GivesKey(items, ns, key)
    ensures forall v :: Offer(ns, key, v) in CombineEvents(items) <==> GivesValue(items, ns, key, v)
    decreases |items|
  {
    if items != [] {
      CombineEventsAre(items[..|items| - 1], ns, key);
      SnocElements(items);
      OneCombineEvent(items[|items| - 1], ns, key);
      hide Complete, Gives, Names;
    }
  }

  lemma BuildCombines(existing: Nested, items: seq<Item>)
    ensures Combines(Build(existing, CombineEvents(items)), existing, items)
  {
    forall ns, key ensures CombinesAt(Build(existing, CombineEvents(items)), existing, items, ns, key) {
      CombineEventsAre(items, ns, key);
      BuildAt(existing, CombineEvents(items), ns, key);
      BuiltValues(existing, CombineEvents(items), ns, key);
      hide GivesNs, GivesKey, GivesValue, Keys, Values, CombineEvents, Build, Names, Distinct;
    }
  }

  method CombineTags(items: seq<Item>, existing: Nested) returns (result: Nested)
    ensures result == Build(existing, CombineEvents(items))
    ensures Combines(result, existing, items)
  {
    hide Apply, Combines;
    BuildCombines(existing, items);
    result := existing;
    for i := 0 to |items|
      invariant result == Build(existing, CombineEvents(items[..i]))
    {
      Snoc(items, i);
      var t := items[i];
      if Complete(t) {
        var ns, key, value := t.namespace.value, t.key, t.value.value;
        ghost var before := result;
        var existingValues := Values(result, ns, key);
        if value !in existingValues {
          result := Put(result, ns, key, existingValues + [value]);
        }
        OfferIs(before, ns, key, value);
        BuildOne(before, Offer(ns, key, value));
        BuildAppend(existing, CombineEvents(items[..i]), [Offer(ns, key, value)]);
      } else {
        assert CombineEvents(items[..i + 1]) == CombineEvents(items[..i]);
      }
    }
    assert items[..|items|] == items;
  }

  lemma OfferIs(n: Nested, ns: string, key: string, v: string)
    ensures Apply(n, Offer(ns, key, v)) == if v in Values(n, ns, key) then n else Put(n, ns, key, Values(n, ns, key) + [v])
  {
    if v in Values(n, ns, key) { PutSame(n, ns, key); }
  }

  lemma {:induction false} CombineEventsAppend(a: seq<Item>, b: seq<Item>)
    ensures CombineEvents(a + b) == CombineEvents(a) + CombineEvents(b)
    decreases |b|
  {
    if b == [] {
      assert a + b == a;
    } else {
      assert (a + b)[..|a + b| - 1] == a + b[..|b| - 1];
      CombineEventsAppend(a, b[..|b| - 1]);
    }
  }

  /** Combining a concatenation is combining in turn. */
  lemma CombineIsAFold(n: Nested, a: seq<Item>, b: seq<Item>)
    ensures Build(n, CombineEvents(a + b)) == Build(Build(n, CombineEvents(a)), CombineEvents(b))
  {
    CombineEventsAppend(a, b);
    BuildAppend(n, CombineEvents(a), CombineEvents(b));
  }

  /** Existing values stay, in place and in order; nothing becomes a duplicate. */
  lemma CombineKeeps(n: Nested, items: seq<Item>, ns: string, key: string)
    ensures var b := Build(n, CombineEvents(items));
            && Values(n, ns, key) <= Values(b, ns, key)
            && (Distinct(Values(n, ns, key)) ==> Distinct(Values(b, ns, key)))
  {
    BuildAt(n, CombineEvents(items), ns, key);
    ExtendedFacts(Values(n, ns, key), Offered(CombineEvents(items), ns, key));
  }

  /** Combining the same items again changes nothing. */
  lemma CombineIsIdempotent(n: Nested, items: seq<Item>)
    ensures var b := Build(n, CombineEvents(items));
            Build(b, CombineEvents(items)) == b
  {
    var e := CombineEvents(items);
    var b := Build(n, e);
    var c := Build(b, e);
    forall ns ensures ns in c <==> ns in b {
      BuildAt(n, e, ns, "");
      BuildAt(b, e, ns, "");
    }
    forall ns, key
      ensures key in Keys(c, ns) <==> key in Keys(b, ns)
      ensures Values(c, ns, key) == Values(b, ns, key)
    {
      BuildAt(n, e, ns, key);
      BuildAt(b, e, ns, key);
      ExtendedFacts(Values(n, ns, key), Offered(e, ns, key));
      ExtendedFacts(Values(b, ns, key), Offered(e, ns, key));
    }
    SameNested(c, b);
  }

  /** On complete items, combining into nothing is receiving them as a list. */
  lemma {:induction false} CombineIsDeserialize(items: seq<Item>)
    requires forall t :: t in items ==> Complete(t)
    ensures Build(map[], CombineEvents(items)) == Build(map[], ListEvents(items))
    decreases |items|
  {
    hide Apply;
    if items != [] {
      var front, t := items[..|items| - 1], items[|items| - 1];
      assert t in items && forall x :: x in front ==> x in items;
      CombineIsDeserialize(front);
      var n := Build(map[], CombineEvents(front));
      var o, v := OpenKey(t.namespace.value, t.key), Offer(t.namespace.value, t.key, t.value.value);
      BuildAppend(map[], CombineEvents(front), [v]);
      BuildAppend(map[], ListEvents(front), [o] + [v]);
      BuildAppend(n, [o], [v]);
      assert ItemEvents(t) == [o] + [v];
      BuildOne(n, v);
      BuildOne(n, o);
      BuildOne(Apply(n, o), v);
      OpenThenOffer(n, t.namespace.value, t.key, t.value.value);
    }
  }

  lemma OpenThenOffer(n: Nested, ns: string, key: string, v: string)
    ensures Apply(Apply(n, OpenKey(ns, key)), Offer(ns, key, v)) == Apply(n, Offer(ns, key, v))
  {
    PutPut(n, ns, key, Values(n, ns, key), AddNew(Values(n, ns, key), v));
  }
}
