/** Ordering and paging of a workspace list: two stable sorts, one after the other,
    against the ORDER BY of two columns, and pages cut from the result. */
module GroupOrdering {
  import opened Common

  datatype Workspace = Workspace(id: string, name: Option<string>, hostCount: Option<int>, updated: Option<string>)

  /** The key a sort compares workspaces by. */
  datatype Key = Text(text: string) | Number(number: int)

  /** The comparison of texts, character by character. */
  predicate TextLess(a: string, b: string) {
    if b == [] then false
    else if a == [] then true
    else a[0] < b[0] || (a[0] == b[0] && TextLess(a[1..], b[1..]))
  }

  /** `a` stops at n where `b` goes on, or has the lower character there; before n they
      are alike. */
  predicate LessAt(a: string, b: string, n: nat) {
    n <= |a| && n < |b| && a[..n] == b[..n] && (n < |a| ==> a[n] < b[n])
  }

  /** The first difference decides. */
  lemma {:induction false} TextLessIff(a: string, b: string)
    ensures TextLess(a, b) <==> exists n: nat :: LessAt(a, b, n)
  {
    if a == [] || b == [] || a[0] != b[0] {
      if TextLess(a, b) {
        assert LessAt(a, b, 0);
      }
    } else {
      TextLessIff(a[1..], b[1..]);
      if n: nat :| LessAt(a[1..], b[1..], n) {
        assert a[..n + 1] == [a[0]] + a[1..][..n] && b[..n + 1] == [b[0]] + b[1..][..n];
        assert LessAt(a, b, n + 1);
      }
      if n: nat :| LessAt(a, b, n) {
        assert n > 0;
        assert a[1..][..n - 1] == a[..n][1..] && b[1..][..n - 1] == b[..n][1..];
        assert LessAt(a[1..], b[1..], n - 1);
      }
    }
  }

  predicate KeyLess(a: Key, b: Key) {
    match (a, b)
    case (Text(s), Text(t)) => TextLess(s, t)
    case (Number(m), Number(n)) => m < n
    case (Text(_), Number(_)) => true
    case (Number(_), Text(_)) => false
  }

  lemma {:induction false} TextLessIsTotal(a: string, b: string)
    ensures TextLess(a, b) || a == b || TextLess(b, a)
    ensures !(TextLess(a, b) && (a == b || TextLess(b, a)))
  {
    if a != [] && b != [] && a[0] == b[0] {
      TextLessIsTotal(a[1..], b[1..]);
      assert a == [a[0]] + a[1..] && b == [b[0]] + b[1..];
    }
  }

  lemma {:induction false} TextLessIsTransitive(a: string, b: string, c: string)
    requires TextLess(a, b) && TextLess(b, c)
    ensures TextLess(a, c)
  {
    if a != [] && a[0] == b[0] == c[0] {
      TextLessIsTransitive(a[1..], b[1..], c[1..]);
    }
  }

  lemma KeyLessIsTotal(a: Key, b: Key)
    ensures KeyLess(a, b) || a == b || KeyLess(b, a)
    ensures !(KeyLess(a, b) && (a == b || KeyLess(b, a)))
  {
    if a.Text? && b.Text? {
      TextLessIsTotal(a.text, b.text);
    }
  }

  lemma KeyLessIsTransitive(a: Key, b: Key, c: Key)
    requires KeyLess(a, b) && KeyLess(b, c)
    ensures KeyLess(a, c)
  {
    if a.Text? && b.Text? && c.Text? {
      TextLessIsTransitive(a.text, b.text, c.text);
    }
  }

  /** The order of a sort in the given direction. */
  predicate Before(a: Key, b: Key, reverse: bool) {
    if reverse then KeyLess(b, a) else KeyLess(a, b)
  }

  lemma BeforeIsTransitive(a: Key, b: Key, c: Key, reverse: bool)
    requires Before(a, b, reverse) && Before(b, c, reverse)
    ensures Before(a, c, reverse)
  {
    if reverse { KeyLessIsTransitive(c, b, a); } else { KeyLessIsTransitive(a, b, c); }
  }

  /* ---------- stable sorting ---------- */

  /** a stands before b somewhere in s. */
  predicate Precedes(s: seq<Workspace>, a: Workspace, b: Workspace) {
    exists p, q :: 0 <= p < q < |s| && s[p] == a && s[q] == b
  }

  /** `out` is `s` sorted by the key, in the given direction, and stably: equal
      keys keep their order, also when the direction is reversed. */
  ghost predicate StablySorted(s: seq<Workspace>, out: seq<Workspace>, key: Workspace -> Key, reverse: bool) {
    && multiset(out) == multiset(s)
    && (forall i, j :: 0 <= i < j < |out| ==> !Before(key(out[j]), key(out[i]), reverse))
    && (forall i, j :: 0 <= i < j < |out| && key(out[i]) == key(out[j]) ==> Precedes(s, out[i], out[j]))
  }

  /** list.sort(key, reverse) */
  method Sort(s: seq<Workspace>, key: Workspace -> Key, reverse: bool) returns (out: seq<Workspace>)
    ensures StablySorted(s, out, key, reverse)
  {
    out := [];
    for n := 0 to |s|
      invariant StablySorted(s[..n], out, key, reverse)
    {
      assert s[..n + 1] == s[..n] + [s[n]];
      var at := |out|;
      while at > 0 && Before(key(s[n]), key(out[at - 1]), reverse)
        invariant 0 <= at <= |out|
        invariant forall i :: at <= i < |out| ==> Before(key(s[n]), key(out[i]), reverse)
      {
        at := at - 1;
      }
      InsertKeepsSorted(s[..n], out, s[n], at, key, reverse);
      out := out[..at] + [s[n]] + out[at..];
    }
    assert s[..|s|] == s;
  }

  lemma PrecedesStays(s: seq<Workspace>, x: Workspace, a: Workspace, b: Workspace)
    requires Precedes(s, a, b)
    ensures Precedes(s + [x], a, b)
  {
    var p, q :| 0 <= p < q < |s| && s[p] == a && s[q] == b;
    assert (s + [x])[p] == a && (s + [x])[q] == b;
  }

  /** Inserting the next element before exactly those that must come after it. */
  lemma InsertKeepsSorted(s: seq<Workspace>, out: seq<Workspace>, x: Workspace, at: nat, key: Workspace -> Key, reverse: bool)
    requires StablySorted(s, out, key, reverse) && at <= |out|
    requires forall i :: at <= i < |out| ==> Before(key(x), key(out[i]), reverse)
    requires at > 0 ==> !Before(key(x), key(out[at - 1]), reverse)
    ensures StablySorted(s + [x], out[..at] + [x] + out[at..], key, reverse)
  {
    hide Precedes, Before;
    var r := out[..at] + [x] + out[at..];
    InsertedRows(s, out, x, at);
    forall i, j | 0 <= i < j < |r|
      ensures !Before(key(r[j]), key(r[i]), reverse)
      ensures key(r[i]) == key(r[j]) ==> Precedes(s + [x], r[i], r[j])
    {
      InsertedPair(s, out, x, at, key, reverse, i, j);
    }
  }

  lemma InsertedRows(s: seq<Workspace>, out: seq<Workspace>, x: Workspace, at: nat)
    requires multiset(out) == multiset(s) && at <= |out|
    ensures multiset(out[..at] + [x] + out[at..]) == multiset(s + [x])
  {
    assert out == out[..at] + out[at..];
  }

  lemma InsertedPair(s: seq<Workspace>, out: seq<Workspace>, x: Workspace, at: nat, key: Workspace -> Key, reverse: bool, i: nat, j: nat)
    requires StablySorted(s, out, key, reverse) && at <= |out| && i < j <= |out|
    requires forall i :: at <= i < |out| ==> Before(key(x), key(out[i]), reverse)
    requires at > 0 ==> !Before(key(x), key(out[at - 1]), reverse)
    ensures var r := out[..at] + [x] + out[at..];
            !Before(key(r[j]), key(r[i]), reverse) && (key(r[i]) == key(r[j]) ==> Precedes(s + [x], r[i], r[j]))
  {
    hide Precedes, Before;
    var r := out[..at] + [x] + out[at..];
    if i == at {
      assert r[j] == out[j - 1];
      BeforeIsAsymmetric(key(x), key(r[j]), reverse);
    } else if j == at {
      InsertedIsLast(s, out, x, i, at, key, reverse);
    } else {
      var i', j' := if i < at then i else i - 1, if j < at then j else j - 1;
      assert r[i] == out[i'] && r[j] == out[j'];
      if key(r[i]) == key(r[j]) {
        PrecedesStays(s, x, r[i], r[j]);
      }
    }
  }

  lemma BeforeIsAsymmetric(a: Key, b: Key, reverse: bool)
    ensures Before(a, b, reverse) ==> a != b && !Before(b, a, reverse)
    ensures Before(a, b, reverse) || a == b || Before(b, a, reverse)
  {
    KeyLessIsTotal(a, b);
  }

  lemma InsertedIsLast(s: seq<Workspace>, out: seq<Workspace>, x: Workspace, i: nat, at: nat, key: Workspace -> Key, reverse: bool)
    requires StablySorted(s, out, key, reverse) && i < at <= |out|
    requires !Before(key(x), key(out[at - 1]), reverse)
    ensures !Before(key(x), key(out[i]), reverse) && Precedes(s + [x], out[i], x)
  {
    var last := out[at - 1];
    assert !Before(key(last), key(out[i]), reverse) by {
      BeforeIsAsymmetric(key(last), key(last), reverse);
    }
    BeforeIsAsymmetric(key(x), key(last), reverse);
    if Before(key(last), key(x), reverse) && Before(key(x), key(out[i]), reverse) {
      BeforeIsTransitive(key(last), key(x), key(out[i]), reverse);
    }
    assert out[i] in multiset(s);
    var p :| 0 <= p < |s| && s[p] == out[i];
    assert (s + [x])[p] == out[i] && (s + [x])[|s|] == x;
  }

  /* ---------- the order of two columns ---------- */

  function IdKey(): Workspace -> Key {
    (w: Workspace) => Text(w.id)
  }

  predicate DistinctIds(s: seq<Workspace>) {
    forall i, j :: 0 <= i < j < |s| ==> s[i].id != s[j].id
  }

  /** ORDER BY key (in its direction), id. */
  predicate RowLess(a: Workspace, b: Workspace, key: Workspace -> Key, reverse: bool) {
    Before(key(a), key(b), reverse) || (key(a) == key(b) && TextLess(a.id, b.id))
  }

  predicate InOrder(s: seq<Workspace>, key: Workspace -> Key, reverse: bool) {
    forall i, j :: 0 <= i < j < |s| ==> RowLess(s[i], s[j], key, reverse)
  }

  /** Any stable sort by id followed by any stable sort by the key gives the order
      of the two columns: the key in its direction, the id always ascending. */
  lemma TwoSortsAreTwoColumns(s: seq<Workspace>, byId: seq<Workspace>, out: seq<Workspace>, key: Workspace -> Key, reverse: bool)
    requires DistinctIds(s)
    requires StablySorted(s, byId, IdKey(), false) && StablySorted(byId, out, key, reverse)
    ensures multiset(out) == multiset(s) && InOrder(out, key, reverse)
  {
    IdSortIsStrict(s, byId);
    forall i, j | 0 <= i < j < |out| ensures RowLess(out[i], out[j], key, reverse) {
      KeyLessIsTotal(key(out[i]), key(out[j]));
      if key(out[i]) == key(out[j]) {
        assert Precedes(byId, out[i], out[j]);
      }
    }
  }

  lemma IdSortIsStrict(s: seq<Workspace>, byId: seq<Workspace>)
    requires DistinctIds(s) && StablySorted(s, byId, IdKey(), false)
    ensures forall i, j :: 0 <= i < j < |byId| ==> TextLess(byId[i].id, byId[j].id)
  {
    forall i, j | 0 <= i < j < |byId| ensures TextLess(byId[i].id, byId[j].id) {
      KeyLessIsTotal(IdKey()(byId[i]), IdKey()(byId[j]));
      assert byId[i].id == byId[j].id ==> Precedes(s, byId[i], byId[j]);
    }
  }

  lemma RowLessIsStrict(a: Workspace, b: Workspace, key: Workspace -> Key, reverse: bool)
    ensures !(RowLess(a, b, key, reverse) && (a == b || RowLess(b, a, key, reverse)))
  {
    KeyLessIsTotal(key(a), key(b));
    TextLessIsTotal(a.id, b.id);
  }

  lemma SameFirst(s: seq<Workspace>, t: seq<Workspace>, key: Workspace -> Key, reverse: bool)
    requires s != [] && t != [] && multiset(s) == multiset(t)
    requires InOrder(s, key, reverse) && InOrder(t, key, reverse)
    ensures s[0] == t[0]
  {
    hide RowLess;
    assert s[0] in multiset(t) && t[0] in multiset(s);
    var p :| 0 <= p < |t| && t[p] == s[0];
    var q :| 0 <= q < |s| && s[q] == t[0];
    assert p > 0 ==> RowLess(t[0], s[0], key, reverse);
    assert q > 0 ==> RowLess(s[0], t[0], key, reverse);
    RowLessIsStrict(s[0], t[0], key, reverse);
  }

  lemma RestOf(s: seq<Workspace>)
    requires s != []
    ensures s == [s[0]] + s[1..] && multiset(s[1..]) == multiset(s) - multiset{s[0]}
  {
    assert s == [s[0]] + s[1..];
  }

  lemma RestInOrder(s: seq<Workspace>, key: Workspace -> Key, reverse: bool)
    requires s != [] && InOrder(s, key, reverse)
    ensures InOrder(s[1..], key, reverse)
  {
    hide RowLess;
  }

  /** There is only one such list: whoever sorts the same rows by the two columns
      gets the same answer. */
  lemma {:induction false} OrderIsUnique(s: seq<Workspace>, t: seq<Workspace>, key: Workspace -> Key, reverse: bool)
    requires multiset(s) == multiset(t) && InOrder(s, key, reverse) && InOrder(t, key, reverse)
    ensures s == t
  {
    hide RowLess, InOrder;
    assert |s| == |multiset(s)| == |multiset(t)| == |t|;
    if s != [] {
      SameFirst(s, t, key, reverse);
      RestOf(s);
      RestOf(t);
      RestInOrder(s, key, reverse);
      RestInOrder(t, key, reverse);
      OrderIsUnique(s[1..], t[1..], key, reverse);
    }
  }

  /* ---------- pages ---------- */

  /** l[start:end] of Python for start and end of at least 0. */
  function Slice<T>(l: seq<T>, start: nat, end: nat): seq<T> {
    var e := if end < |l| then end else |l|;
    if start <= e then l[start..e] else []
  }

  /** Page number `page`, counted from 1. */
  function Page<T>(l: seq<T>, page: nat, perPage: nat): seq<T>
    requires page >= 1 && perPage >= 1
  {
    Slice(l, (page - 1) * perPage, (page - 1) * perPage + perPage)
  }

  function FirstPages<T>(l: seq<T>, pages: nat, perPage: nat): seq<T>
    requires perPage >= 1
  {
    if pages == 0 then [] else FirstPages(l, pages - 1, perPage) + Page(l, pages, perPage)
  }

  /** The first pages, one after the other, are the first rows of the list. */
  lemma {:induction false} PagesAreAPrefix<T>(l: seq<T>, pages: nat, perPage: nat)
    requires perPage >= 1
    ensures FirstPages(l, pages, perPage) == Slice(l, 0, pages * perPage)
  {
    if pages > 0 {
      PagesAreAPrefix(l, pages - 1, perPage);
      assert pages * perPage == (pages - 1) * perPage + perPage;
    }
  }

  /** With enough pages every row is on exactly one of them and in its place;
      whatever pages follow are empty. */
  lemma PagesPartition<T>(l: seq<T>, pages: nat, perPage: nat)
    requires perPage >= 1
    ensures FirstPages(l, pages, perPage) == l <==> |l| <= pages * perPage
    ensures |l| <= pages * perPage ==> Page(l, pages + 1, perPage) == []
  {
    PagesAreAPrefix(l, pages, perPage);
  }

  /* ---------- the listing ---------- */

  datatype Field = ByName | ByHostCount | ByUpdated | Unsorted

  function FieldOf(orderBy: Option<string>): Field {
    match orderBy
    case None => ByName
    case Some(f) =>
      if f == "" || f == "name" then ByName
      else if f == "host_count" then ByHostCount
      else if f == "updated" then ByUpdated
      else Unsorted
  }

  /** Without a direction, counts and times (of change or of creation) descend. */
  function Descending(orderBy: Option<string>, orderHow: Option<string>, lower: string -> string): bool {
    if orderHow.Some? && orderHow.value != "" then lower(orderHow.value) == "desc"
    else orderBy.Some? && orderBy.value in {"host_count", "updated", "created", "desc"}
  }

  /** The primary key; a constant for fields that are not sorted by. */
  function PrimaryKey(f: Field, lower: string -> string): Workspace -> Key {
    match f
    case ByName => (w: Workspace) => Text(if w.name.Some? && w.name.value != "" then lower(w.name.value) else "")
    case ByHostCount => (w: Workspace) => Number(if w.hostCount.Some? then w.hostCount.value else 0)
    case ByUpdated => (w: Workspace) => Text(if w.updated.Some? then w.updated.value else "")
    case Unsorted => (w: Workspace) => Number(0)
  }

  /** `full` holds all the rows, in the order asked for. */
  predicate IsListing(full: seq<Workspace>, rows: seq<Workspace>, orderBy: Option<string>, orderHow: Option<string>, lower: string -> string) {
    && multiset(full) == multiset(rows)
    && InOrder(full, PrimaryKey(FieldOf(orderBy), lower), Descending(orderBy, orderHow, lower))
  }

  /* ---------- the listing on its columns ---------- */

  function Count(w: Workspace): int {
    if w.hostCount.Some? then w.hostCount.value else 0
  }

  function Time(w: Workspace): string {
    if w.updated.Some? then w.updated.value else ""
  }

  function LowerName(w: Workspace, lower: string -> string): string {
    if w.name.None? || w.name.value == "" then "" else lower(w.name.value)
  }

  /** Down the list the counts never rise, or never fall, and among equal ones the ids
      ascend. */
  predicate CountsInOrder(s: seq<Workspace>, descend: bool) {
    forall i, j :: 0 <= i < j < |s| ==>
      || (if descend then Count(s[i]) > Count(s[j]) else Count(s[i]) < Count(s[j]))
      || (Count(s[i]) == Count(s[j]) && TextLess(s[i].id, s[j].id))
  }

  predicate TimesInOrder(s: seq<Workspace>, descend: bool) {
    forall i, j :: 0 <= i < j < |s| ==>
      || (if descend then TextLess(Time(s[j]), Time(s[i])) else TextLess(Time(s[i]), Time(s[j])))
      || (Time(s[i]) == Time(s[j]) && TextLess(s[i].id, s[j].id))
  }

  predicate NamesInOrder(s: seq<Workspace>, lower: string -> string, descend: bool) {
    forall i, j :: 0 <= i < j < |s| ==>
      || (if descend then TextLess(LowerName(s[j], lower), LowerName(s[i], lower))
          else TextLess(LowerName(s[i], lower), LowerName(s[j], lower)))
      || (LowerName(s[i], lower) == LowerName(s[j], lower) && TextLess(s[i].id, s[j].id))
  }

  predicate IdsInOrder(s: seq<Workspace>) {
    forall i, j :: 0 <= i < j < |s| ==> TextLess(s[i].id, s[j].id)
  }

  /** What the parameters ask for: a direction other than "desc" means ascending, and
      without one counts and times descend. */
  predicate AsOrdered(s: seq<Workspace>, orderBy: Option<string>, orderHow: Option<string>, lower: string -> string) {
    var given := orderHow.Some? && orderHow.value != "";
    && (orderBy == Some("host_count") ==> CountsInOrder(s, !given || lower(orderHow.value) == "desc"))
    && (orderBy == Some("updated") ==> TimesInOrder(s, !given || lower(orderHow.value) == "desc"))
    && (orderBy.None? || orderBy.value in {"", "name"} ==> NamesInOrder(s, lower, given && lower(orderHow.value) == "desc"))
    && (orderBy.Some? && orderBy.value !in {"", "name", "host_count", "updated"} ==> IdsInOrder(s))
  }

  lemma InOrderIff(s: seq<Workspace>, orderBy: Option<string>, orderHow: Option<string>, lower: string -> string)
    ensures InOrder(s, PrimaryKey(FieldOf(orderBy), lower), Descending(orderBy, orderHow, lower))
       <==> AsOrdered(s, orderBy, orderHow, lower)
  {
    ParametersMean(orderBy, orderHow, lower);
    FieldIff(s, lower, Descending(orderBy, orderHow, lower));
    hide FieldOf, Descending, InOrder, CountsInOrder, TimesInOrder, NamesInOrder, IdsInOrder;
  }

  lemma FieldIff(s: seq<Workspace>, lower: string -> string, descend: bool)
    ensures InOrder(s, PrimaryKey(ByHostCount, lower), descend) <==> CountsInOrder(s, descend)
    ensures InOrder(s, PrimaryKey(ByUpdated, lower), descend) <==> TimesInOrder(s, descend)
    ensures InOrder(s, PrimaryKey(ByName, lower), descend) <==> NamesInOrder(s, lower, descend)
    ensures InOrder(s, PrimaryKey(Unsorted, lower), descend) <==> IdsInOrder(s)
  {
    CountsIff(s, lower, descend);
    TimesIff(s, lower, descend);
    NamesIff(s, lower, descend);
  }

  lemma CountsIff(s: seq<Workspace>, lower: string -> string, descend: bool)
    ensures InOrder(s, PrimaryKey(ByHostCount, lower), descend) <==> CountsInOrder(s, descend)
    ensures InOrder(s, PrimaryKey(Unsorted, lower), descend) <==> IdsInOrder(s)
  {
    hide TextLess;
  }

  lemma TimesIff(s: seq<Workspace>, lower: string -> string, descend: bool)
    ensures InOrder(s, PrimaryKey(ByUpdated, lower), descend) <==> TimesInOrder(s, descend)
  {
    var key := PrimaryKey(ByUpdated, lower);
    assert forall w :: key(w) == Text(Time(w));
    hide TextLess, PrimaryKey, Time;
  }

  lemma NamesIff(s: seq<Workspace>, lower: string -> string, descend: bool)
    ensures InOrder(s, PrimaryKey(ByName, lower), descend) <==> NamesInOrder(s, lower, descend)
  {
    var key := PrimaryKey(ByName, lower);
    assert forall w :: key(w) == Text(LowerName(w, lower));
    hide TextLess, PrimaryKey, LowerName;
  }

  lemma ParametersMean(orderBy: Option<string>, orderHow: Option<string>, lower: string -> string)
    ensures FieldOf(orderBy) == ByHostCount <==> orderBy == Some("host_count")
    ensures FieldOf(orderBy) == ByUpdated <==> orderBy == Some("updated")
    ensures FieldOf(orderBy) == ByName <==> orderBy.None? || orderBy.value in {"", "name"}
    ensures orderHow.Some? && orderHow.value != "" ==> (Descending(orderBy, orderHow, lower) <==> lower(orderHow.value) == "desc")
    ensures (orderHow.None? || orderHow.value == "") && FieldOf(orderBy) in {ByHostCount, ByUpdated} ==> Descending(orderBy, orderHow, lower)
    ensures (orderHow.None? || orderHow.value == "") && FieldOf(orderBy) == ByName ==> !Descending(orderBy, orderHow, lower)
  {
  }

  /** A listing has all the rows in the order asked for, on its columns. */
  lemma ListingIff(full: seq<Workspace>, rows: seq<Workspace>, orderBy: Option<string>, orderHow: Option<string>, lower: string -> string)
    ensures IsListing(full, rows, orderBy, orderHow, lower)
       <==> multiset(full) == multiset(rows) && AsOrdered(full, orderBy, orderHow, lower)
  {
    InOrderIff(full, orderBy, orderHow, lower);
  }

  lemma UnsortedIsById(rows: seq<Workspace>, byId: seq<Workspace>, lower: string -> string, reverse: bool)
    requires DistinctIds(rows) && StablySorted(rows, byId, IdKey(), false)
    ensures multiset(byId) == multiset(rows) && InOrder(byId, PrimaryKey(Unsorted, lower), reverse)
  {
    IdSortIsStrict(rows, byId);
  }

  /** The list holds up to n rows, those that stand in `full` from `start` on. */
  predicate IsCut<T(==)>(list: seq<T>, full: seq<T>, start: nat, n: nat) {
    && |list| <= n
    && (|list| < n ==> start + |list| >= |full|)
    && forall i :: 0 <= i < |list| ==> start + i < |full| && list[i] == full[start + i]
  }

  lemma SliceIsCut<T>(full: seq<T>, start: nat, n: nat)
    ensures IsCut(Slice(full, start, start + n), full, start, n)
  {
  }

  lemma SliceInOrder(full: seq<Workspace>, start: nat, end: nat, orderBy: Option<string>, orderHow: Option<string>, lower: string -> string)
    requires AsOrdered(full, orderBy, orderHow, lower)
    ensures AsOrdered(Slice(full, start, end), orderBy, orderHow, lower)
  {
    var part := Slice(full, start, end);
    assert forall i, j :: 0 <= i < j < |part| ==>
      start + i < start + j < |full| && part[i] == full[start + i] && part[j] == full[start + j];
    hide TextLess, Slice, Count, Time, LowerName;
  }

  /** One page of the listing is that page of the only list that holds all the rows
      in the order of the two columns. */
  method ListGroups(rows: seq<Workspace>, page: nat, perPage: nat, orderBy: Option<string>, orderHow: Option<string>,
                    lower: string -> string) returns (list: seq<Workspace>, total: nat)
    requires page >= 1 && perPage >= 1 && DistinctIds(rows)
    ensures total == |rows|
    ensures exists full :: IsListing(full, rows, orderBy, orderHow, lower)
    ensures forall full :: IsListing(full, rows, orderBy, orderHow, lower) ==> list == Page(full, page, perPage)
    // on the columns: the page is cut from all the rows in the order asked for
    ensures AsOrdered(list, orderBy, orderHow, lower)
    ensures exists full ::
              && multiset(full) == multiset(rows) && AsOrdered(full, orderBy, orderHow, lower)
              && IsCut(list, full, (page - 1) * perPage, perPage)
  {
    hide InOrder, AsOrdered, IsCut, StablySorted, Slice, DistinctIds, FieldOf, Descending, PrimaryKey;
    total := |rows|;
    var reverse := Descending(orderBy, orderHow, lower);
    var key := PrimaryKey(FieldOf(orderBy), lower);
    var byId := Sort(rows, IdKey(), false);
    var sorted := byId;
    if FieldOf(orderBy) != Unsorted {
      sorted := Sort(byId, key, reverse);
      TwoSortsAreTwoColumns(rows, byId, sorted, key, reverse);
    } else {
      UnsortedIsById(rows, byId, lower, reverse);
    }
    assert IsListing(sorted, rows, orderBy, orderHow, lower);
    forall full | IsListing(full, rows, orderBy, orderHow, lower) ensures full == sorted {
      OrderIsUnique(full, sorted, key, reverse);
    }
    list := Slice(sorted, (page - 1) * perPage, (page - 1) * perPage + perPage);
    SliceIsCut(sorted, (page - 1) * perPage, perPage);
    ListingIff(sorted, rows, orderBy, orderHow, lower);
    SliceInOrder(sorted, (page - 1) * perPage, (page - 1) * perPage + perPage, orderBy, orderHow, lower);
  }
}
