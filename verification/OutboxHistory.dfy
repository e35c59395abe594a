/** What counts as a change of a host's groups: the change history that the
    object mapper hands to the listeners, and the group ids read out of it. */
module OutboxHistory {
  import opened Common

  /** A value found in an attribute history: a group dictionary (with or without
      an "id"), a tracked list, a plain list or tuple, or anything else. */
  datatype Hist =
    | Dict(id: Option<string>)
    | Mutable(items: seq<Hist>)
    | Plain(items: seq<Hist>)
    | Scalar

  predicate IsList(h: Hist) {
    h.Mutable? || h.Plain?
  }

  /** A list holding exactly one list is unwrapped once. */
  function Unwrap(h: Hist): (r: Hist)
    requires IsList(h)
    ensures IsList(r) && (r == h || r < h)
  {
    if |h.items| == 1 && IsList(h.items[0]) then h.items[0] else h
  }

  /** The ids extracted from a history list. */
  function ExtractGroupIds(h: Hist): set<string>
    requires IsList(h)
    decreases h, 0
  {
    var inner := Unwrap(h);
    set i, x | 0 <= i < |inner.items| && x in ItemIds(inner.items[i]) :: x
  }

  /** The ids one item of the unwrapped list contributes: a tracked list is
      searched one level deep, a plain list recursively. */
  function ItemIds(h: Hist): set<string>
    decreases h, 1
  {
    match h
    case Dict(id) => if id.Some? then {id.value} else {}
    case Mutable(items) => set i | 0 <= i < |items| && items[i].Dict? && items[i].id.Some? :: items[i].id.value
    case Plain(_) => ExtractGroupIds(h)
    case Scalar => {}
  }

  /** Reference definition: the id of every dictionary at any depth. */
  function AllIds(h: Hist): set<string> {
    match h
    case Dict(id) => if id.Some? then {id.value} else {}
    case Scalar => {}
    case _ => set i, x | 0 <= i < |h.items| && x in AllIds(h.items[i]) :: x
  }

  /** The ids the extraction does not reach: those in lists inside a tracked list. */
  function HiddenIds(h: Hist): set<string>
    requires IsList(h)
    decreases h, 0
  {
    var inner := Unwrap(h);
    set i, x | 0 <= i < |inner.items| && x in ItemHiddenIds(inner.items[i]) :: x
  }

  function ItemHiddenIds(h: Hist): set<string>
    decreases h, 1
  {
    match h
    case Mutable(items) => set i, x | 0 <= i < |items| && IsList(items[i]) && x in AllIds(items[i]) :: x
    case Plain(_) => HiddenIds(h)
    case _ => {}
  }

  lemma TrackedSplits(items: seq<Hist>)
    ensures AllIds(Mutable(items)) == ItemIds(Mutable(items)) + ItemHiddenIds(Mutable(items))
  {
    var h := Mutable(items);
    forall x | x in AllIds(h) ensures x in ItemIds(h) + ItemHiddenIds(h) {
      var i :| 0 <= i < |items| && x in AllIds(items[i]);
      assert IsList(items[i]) || items[i].Dict?;
    }
    forall x | x in ItemIds(h) ensures x in AllIds(h) {
      var i :| 0 <= i < |items| && items[i].Dict? && items[i].id == Some(x);
      assert x in AllIds(items[i]);
    }
  }

  lemma ItemSplits(h: Hist)
    ensures AllIds(h) == ItemIds(h) + ItemHiddenIds(h)
    decreases h, 1
  {
    match h
    case Plain(_) => ExtractionSplits(h);
    case Mutable(items) => TrackedSplits(items);
    case _ =>
  }

  lemma UnwrapKeepsIds(h: Hist)
    requires IsList(h)
    ensures AllIds(Unwrap(h)) == AllIds(h)
  {
    var inner := Unwrap(h);
    if inner != h {
      assert inner == h.items[0];
      assert forall x :: x in AllIds(inner) ==> x in AllIds(h.items[0]);
    }
  }

  /** Whatever mixture of wrappers the history uses, its ids are those extracted and
      those hidden in lists inside a tracked list. */
  lemma ExtractionSplits(h: Hist)
    requires IsList(h)
    ensures AllIds(h) == ExtractGroupIds(h) + HiddenIds(h)
    decreases h, 0
  {
    var inner := Unwrap(h);
    UnwrapKeepsIds(h);
    forall i | 0 <= i < |inner.items|
      ensures AllIds(inner.items[i]) == ItemIds(inner.items[i]) + ItemHiddenIds(inner.items[i])
    {
      ItemSplits(inner.items[i]);
    }
    forall x ensures x in AllIds(inner) <==> x in ExtractGroupIds(h) + HiddenIds(h) {
      if x in AllIds(inner) {
        var i :| 0 <= i < |inner.items| && x in AllIds(inner.items[i]);
        assert x in ItemIds(inner.items[i]) || x in ItemHiddenIds(inner.items[i]);
      }
      if x in ExtractGroupIds(h) {
        var i :| 0 <= i < |inner.items| && x in ItemIds(inner.items[i]);
        assert x in AllIds(inner.items[i]);
      }
      if x in HiddenIds(h) {
        var i :| 0 <= i < |inner.items| && x in ItemHiddenIds(inner.items[i]);
        assert x in AllIds(inner.items[i]);
      }
    }
  }

  /** The extraction finds all ids exactly when each hidden one also stands in the
      open, in particular when no list is inside a tracked list. */
  lemma ExtractIsCompleteIff(h: Hist)
    requires IsList(h)
    ensures ExtractGroupIds(h) == AllIds(h) <==> HiddenIds(h) <= ExtractGroupIds(h)
  {
    ExtractionSplits(h);
  }
}
