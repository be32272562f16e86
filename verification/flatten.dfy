/** pyhelper.py's `flatten`: lists, tuples and dictionaries are walked recursively,
    anything else is a leaf. In Python 2 a `str` has no `__iter__`, so strings are
    leaves too. */
module Flatten {
  import opened Results

  /** The values `flatten` distinguishes: a leaf, a list or tuple (both are indexed
      and sliced alike), or a dictionary as the list of its `items()`. */
  datatype PyObj<A> =
    | Leaf(a: A)
    | List(items: seq<PyObj<A>>)
    | Dict(entries: seq<(PyObj<A>, PyObj<A>)>)

  /** `flatten(o)`. Flattening a list takes `src_list[0]`, which raises `IndexError`
      for an empty list; a dictionary becomes the list of its key-value tuples. */
  function Flatten<A>(o: PyObj<A>): (r: Result<seq<A>>)
    ensures r.Err? ==> r.error == IndexError
    decreases o, 1
  {
    match o
    case Leaf(a) => Ok([a])
    case List(items) => FlattenItems(items)
    case Dict(entries) => FlattenEntries(entries)
  }

  /** `flatten` on a list: the first item, then the slice after it when there is one. */
  function FlattenItems<A>(items: seq<PyObj<A>>): (r: Result<seq<A>>)
    ensures r.Err? ==> r.error == IndexError
    decreases items, 0
  {
    if items == [] then Err(IndexError)
    else
      var head :- Flatten(items[0]);
      if |items| > 1 then
        var tail :- FlattenItems(items[1..]);
        Ok(head + tail)
      else Ok(head)
  }

  /** `flatten` on `d.items()`, a list of `(key, value)` tuples. */
  function FlattenEntries<A>(entries: seq<(PyObj<A>, PyObj<A>)>): (r: Result<seq<A>>)
    ensures r.Err? ==> r.error == IndexError
    decreases entries, 0
  {
    if entries == [] then Err(IndexError)
    else
      var head :- FlattenEntry(entries[0]);
      if |entries| > 1 then
        var tail :- FlattenEntries(entries[1..]);
        Ok(head + tail)
      else Ok(head)
  }

  /** `flatten((key, value))`: the key's leaves, then those of the one-element slice
      holding the value. */
  function FlattenEntry<A>(entry: (PyObj<A>, PyObj<A>)): (r: Result<seq<A>>)
    ensures r.Err? ==> r.error == IndexError
    decreases entry, 2
  {
    var key :- Flatten(entry.0);
    var value :- Flatten(entry.1);
    Ok(key + value)
  }

  // ------------------------------------------------------------ reference

  /** Every leaf, left to right, keys before their values. */
  function Leaves<A>(o: PyObj<A>): seq<A>
    decreases o, 1
  {
    match o
    case Leaf(a) => [a]
    case List(items) => ItemsLeaves(items)
    case Dict(entries) => EntriesLeaves(entries)
  }

  function ItemsLeaves<A>(items: seq<PyObj<A>>): seq<A>
    decreases items, 0
  {
    if items == [] then [] else Leaves(items[0]) + ItemsLeaves(items[1..])
  }

  function EntriesLeaves<A>(entries: seq<(PyObj<A>, PyObj<A>)>): seq<A>
    decreases entries, 0
  {
    if entries == [] then [] else EntryLeaves(entries[0]) + EntriesLeaves(entries[1..])
  }

  function EntryLeaves<A>(entry: (PyObj<A>, PyObj<A>)): seq<A>
    decreases entry, 2
  {
    Leaves(entry.0) + Leaves(entry.1)
  }

  /** Some list, tuple or dictionary inside `o`, or `o` itself, is empty. */
  predicate HasEmpty<A>(o: PyObj<A>)
    decreases o, 1
  {
    match o
    case Leaf(_) => false
    case List(items) => items == [] || ItemsHaveEmpty(items)
    case Dict(entries) => entries == [] || EntriesHaveEmpty(entries)
  }

  predicate ItemsHaveEmpty<A>(items: seq<PyObj<A>>)
    decreases items, 0
  {
    items != [] && (HasEmpty(items[0]) || ItemsHaveEmpty(items[1..]))
  }

  predicate EntriesHaveEmpty<A>(entries: seq<(PyObj<A>, PyObj<A>)>)
    decreases entries, 0
  {
    entries != [] && (EntryHasEmpty(entries[0]) || EntriesHaveEmpty(entries[1..]))
  }

  predicate EntryHasEmpty<A>(entry: (PyObj<A>, PyObj<A>))
    decreases entry, 2
  {
    HasEmpty(entry.0) || HasEmpty(entry.1)
  }

  // ------------------------------------------------------------ properties

  /** `flatten` fails exactly when an empty container is reachable, and otherwise
      returns all the leaves in order. */
  lemma {:induction false} FlattenLeaves<A>(o: PyObj<A>)
    ensures Flatten(o) == if HasEmpty(o) then Err(IndexError) else Ok(Leaves(o))
    decreases o, 1
  {
    match o
    case Leaf(_) =>
    case List(items) => FlattenItemsLeaves(items);
    case Dict(entries) => FlattenEntriesLeaves(entries);
  }

  lemma {:induction false} FlattenItemsLeaves<A>(items: seq<PyObj<A>>)
    ensures FlattenItems(items) ==
      if items == [] || ItemsHaveEmpty(items) then Err(IndexError) else Ok(ItemsLeaves(items))
    decreases items, 0
  {
    if items != [] {
      FlattenLeaves(items[0]);
      if |items| > 1 {
        FlattenItemsLeaves(items[1..]);
      } else {
        assert items[1..] == [];
        assert ItemsLeaves(items) == Leaves(items[0]) + ItemsLeaves([]);
        assert ItemsHaveEmpty(items) == HasEmpty(items[0]);
        assert FlattenItems(items) == (if Flatten(items[0]).Err? then Err(IndexError) else Ok(Flatten(items[0]).value));
        assert Leaves(items[0]) + [] == Leaves(items[0]);
      }
    }
  }

  lemma {:induction false} FlattenEntriesLeaves<A>(entries: seq<(PyObj<A>, PyObj<A>)>)
    ensures FlattenEntries(entries) ==
      if entries == [] || EntriesHaveEmpty(entries) then Err(IndexError) else Ok(EntriesLeaves(entries))
    decreases entries, 0
  {
    if entries != [] {
      FlattenEntryLeaves(entries[0]);
      if |entries| > 1 {
        FlattenEntriesLeaves(entries[1..]);
      } else {
        assert entries[1..] == [];
        assert EntriesLeaves(entries) == EntryLeaves(entries[0]) + EntriesLeaves([]);
        assert EntriesHaveEmpty(entries) == EntryHasEmpty(entries[0]);
        assert FlattenEntries(entries) == (if FlattenEntry(entries[0]).Err? then Err(IndexError) else Ok(FlattenEntry(entries[0]).value));
        assert EntryLeaves(entries[0]) + [] == EntryLeaves(entries[0]);
      }
    }
  }

  lemma {:induction false} FlattenEntryLeaves<A>(entry: (PyObj<A>, PyObj<A>))
    ensures FlattenEntry(entry) == if EntryHasEmpty(entry) then Err(IndexError) else Ok(EntryLeaves(entry))
    decreases entry, 2
  {
    FlattenLeaves(entry.0);
    FlattenLeaves(entry.1);
  }

  /** A list of leaves. */
  function Leafs<A>(xs: seq<A>): (r: seq<PyObj<A>>)
    ensures |r| == |xs| && forall i :: 0 <= i < |xs| ==> r[i] == Leaf(xs[i])
  {
    seq(|xs|, i requires 0 <= i < |xs| => Leaf(xs[i]))
  }

  /** A non-empty flat list flattens to itself. */
  lemma {:induction false} FlattenFlat<A>(xs: seq<A>)
    requires xs != []
    ensures Flatten(List(Leafs(xs))) == Ok(xs)
  {
    FlatLeaves(xs);
    FlattenLeaves(List(Leafs(xs)));
  }

  lemma {:induction false} FlatLeaves<A>(xs: seq<A>)
    ensures ItemsLeaves(Leafs(xs)) == xs
    ensures !ItemsHaveEmpty(Leafs(xs))
  {
    if xs != [] {
      FlatLeaves(xs[1..]);
      assert Leafs(xs)[1..] == Leafs(xs[1..]);
    }
  }

  /** Flattening is idempotent: the flattened result, as a list, flattens to itself. */
  lemma FlattenIdempotent<A>(o: PyObj<A>)
    requires Flatten(o).Ok? && Flatten(o).value != []
    ensures Flatten(List(Leafs(Flatten(o).value))) == Flatten(o)
  {
    FlattenFlat(Flatten(o).value);
  }

  /** A dictionary with no items cannot be flattened, even inside a list. */
  lemma EmptyDictFails<A>(x: A)
    ensures Flatten(List([Leaf(x), Dict([])])) == Err(IndexError)
    ensures Flatten(List([Leaf(x), List([Leaf(x), Leaf(x)])])) == Ok([x, x, x])
  {
    var bad: seq<PyObj<A>> := [Leaf(x), Dict([])];
    assert bad[1..] == [Dict([])];
    assert FlattenItems(bad[1..]) == Err(IndexError);
    var nested: seq<PyObj<A>> := [Leaf(x), Leaf(x)];
    assert nested[1..] == [Leaf(x)];
    assert FlattenItems(nested[1..]) == Ok([x]);
    assert [x] + [x] == [x, x];
    assert FlattenItems(nested) == Ok([x, x]);
    var outer: seq<PyObj<A>> := [Leaf(x), List(nested)];
    assert outer[1..] == [List(nested)];
    assert FlattenItems(outer[1..]) == Ok([x, x]);
    assert [x] + [x, x] == [x, x, x];
  }
}
