/**
 The record of namespace `ptnk`: `tagged_tuple<TypePairs...>`, a flat tuple
 whose slots are addressed by tag, and the `get<Name>` accessors. A record is
 its declared tag list together with its slot values (one abstract value type
 stands for every slot type). A record type with duplicated tags, and an
 access through a tag the record does not declare, are compile-time errors in
 the header; here both yield `None`.
 */
module Ptnk {
  import opened Wrappers
  import Detail

  datatype TaggedTuple<Tag(==, !new), V> = TaggedTuple(tags: seq<Tag>, slots: seq<V>) {

    /** One slot per declared tag, and the declared tags are unique (the `static_assert`). */
    ghost predicate Valid() {
      |slots| == |tags| && Detail.Distinct(tags)
    }
  }

  /**
   Builds a record from its tag list and a tuple of values (the constructors
   taking a `std::tuple`). The record type exists only when the tags are
   unique, and the tuple must have one value per tag; the slots then are the
   given values, in order.
   */
  function Construct<Tag(==, !new), V>(tags: seq<Tag>, values: seq<V>): (r: Option<TaggedTuple<Tag, V>>)
    ensures r.Some? <==> |values| == |tags| && Detail.Distinct(tags)
    ensures r.Some? ==> r.value.Valid() && r.value.tags == tags && r.value.slots == values
  {
    if |values| == |tags| && Detail.AreTagsUnique(tags) then Some(TaggedTuple(tags, values)) else None
  }

  /** The untagged tuple a record is (its `value_type` base). */
  function ToTuple<Tag(==, !new), V>(r: TaggedTuple<Tag, V>): (values: seq<V>)
    requires r.Valid()
    ensures |values| == |r.tags|
    ensures Construct(r.tags, values) == Some(r)
  {
    r.slots
  }

  /**
   `get<Name>` read access: the slot at `index_of<Name, tags...>()`. For a tag the
   record declares this is the slot declared with it; for any other tag the
   index is out of range and there is no slot.
   */
  function Get<Tag(==, !new), V>(r: TaggedTuple<Tag, V>, name: Tag): (v: Option<V>)
    requires r.Valid()
    ensures v.Some? <==> name in r.tags
    ensures forall p :: 0 <= p < |r.tags| && r.tags[p] == name ==> v == Some(r.slots[p])
  {
    var i := Detail.IndexOf(name, r.tags);
    if i < |r.slots| then Some(r.slots[i]) else None
  }

  /**
   Assignment through the reference returned by the mutable `get<Name>`: the
   slot of `name` takes `x`, every other slot keeps its value.
   */
  function Update<Tag(==, !new), V>(r: TaggedTuple<Tag, V>, name: Tag, x: V): (r': Option<TaggedTuple<Tag, V>>)
    requires r.Valid()
    ensures r'.Some? <==> name in r.tags
    ensures r'.Some? ==> r'.value.Valid() && r'.value.tags == r.tags
    ensures r'.Some? ==> Get(r'.value, name) == Some(x)
    ensures r'.Some? ==> forall t :: t != name ==> Get(r'.value, t) == Get(r, t)
    ensures r'.Some? ==> forall p :: 0 <= p < |r.tags| && r.tags[p] != name ==> r'.value.slots[p] == r.slots[p]
  {
    var i := Detail.IndexOf(name, r.tags);
    if i < |r.slots| then Some(TaggedTuple(r.tags, r.slots[i := x])) else None
  }

  /** Reading each declared tag of a freshly built record gives back the value given for its slot. */
  lemma GetAfterConstruct<Tag(!new), V>(tags: seq<Tag>, values: seq<V>, p: nat)
    requires Construct(tags, values).Some? && p < |tags|
    ensures Get(Construct(tags, values).value, tags[p]) == Some(values[p])
  {
    Detail.IndexOfDistinct(tags, p);
  }

  /** A tag the record does not declare has no slot: its index is at or past the arity. */
  lemma GetAbsent<Tag(!new), V>(r: TaggedTuple<Tag, V>, name: Tag, x: V)
    requires r.Valid() && name !in r.tags
    ensures Detail.IndexOf(name, r.tags) >= |r.slots|
    ensures Get(r, name) == None && Update(r, name, x).None?
  {
  }

  /** A second write through the same tag overrides the first. */
  lemma UpdateTwice<Tag(!new), V>(r: TaggedTuple<Tag, V>, name: Tag, x: V, y: V)
    requires r.Valid() && name in r.tags
    ensures Update(Update(r, name, x).value, name, y) == Update(r, name, y)
  {
    var i := Detail.IndexOf(name, r.tags);
    assert r.slots[i := x][i := y] == r.slots[i := y];
  }
}
