/**
 The helpers of namespace `ptnk::detail`: the type-level set used to detect
 duplicated tags, the uniqueness check built on it, and the linear tag lookup
 with its not-found sentinel. Tags are any type with equality; "the same tag"
 is Dafny equality, standing for nominal type identity.
 */
module Detail {

  /** No tag occurs at two positions, adjacent or not. */
  ghost predicate Distinct<T>(s: seq<T>) {
    forall i, j :: 0 <= i < j < |s| ==> s[i] != s[j]
  }

  /** The tags of a list, forgetting order and multiplicity. */
  ghost function Elements<T>(s: seq<T>): set<T> {
    set x | x in s
  }

  /** `k` is the first position of `x` in `s`. */
  ghost predicate IsFirstIndex<T>(s: seq<T>, x: T, k: int) {
    0 <= k < |s| && s[k] == x && forall j :: 0 <= j < k ==> s[j] != x
  }

  lemma {:induction false} DistinctCardinality<T>(s: seq<T>)
    ensures Distinct(s) ==> |Elements(s)| == |s|
  {
    if s != [] && Distinct(s) {
      var init, last := s[..|s| - 1], s[|s| - 1];
      assert Distinct(init);
      DistinctCardinality(init);
      var e := Elements(init);
      assert last !in e by {
        forall j | 0 <= j < |init| ensures init[j] != last {
          assert init[j] == s[j];
        }
      }
      assert Elements(s) == e + {last} by {
        assert s == init + [last];
      }
      assert |e + {last}| == |e| + 1;
    }
  }

  /**
   `TypeSet<Ts...>`: a set of tags held as the list of its members in the order
   they were added. The C++ type inherits `Base<T>` once per member, so a well
   formed set never lists a tag twice (`Valid`).
   */
  datatype TypeSet<T(==)> = TypeSet(members: seq<T>) {

    ghost predicate Valid() {
      Distinct(members)
    }

    /** `std::is_base_of_v<Base<T>, TypeSet>`: `t` is already a member. */
    predicate Contains(t: T) {
      t in members
    }

    /** `size()`: the number of members, which is the number of distinct tags held. */
    function Size(): (n: nat)
      ensures n == |members|
      ensures Valid() ==> n == |Elements(members)|
    {
      DistinctCardinality(members);
      |members|
    }

    /**
     `operator+`: adding a member already present yields the same set; adding an
     absent tag appends it after every existing member.
     */
    function Plus(t: T): (r: TypeSet<T>)
      ensures Contains(t) ==> r == this
      ensures !Contains(t) ==> r.Size() == Size() + 1 && r.members[..Size()] == members && r.members[Size()] == t
      ensures Elements(r.members) == Elements(members) + {t}
      ensures Valid() ==> r.Valid()
    {
      if Contains(t) then this else TypeSet(members + [t])
    }
  }

  /**
   The constant `tagset` of `are_tags_unique`: the left fold
   `(TypeSet<>{} + ... + Base<Tag>{})` over the tag list.
   */
  function TagSetOf<T(==)>(tags: seq<T>): (s: TypeSet<T>)
    ensures s.Valid()
    ensures Elements(s.members) == Elements(tags)
    ensures s.Size() <= |tags|
  {
    if tags == [] then TypeSet([])
    else
      var init, last := tags[..|tags| - 1], tags[|tags| - 1];
      assert tags == init + [last];
      TagSetOf(init).Plus(last)
  }

  /** `are_tags_unique`: true exactly when no tag repeats, at any two positions. */
  function AreTagsUnique<T(==)>(tags: seq<T>): (b: bool)
    ensures b <==> Distinct(tags)
    ensures |tags| <= 1 ==> b
  {
    TagSetOfSizeIffDistinct(tags);
    TagSetOf(tags).Size() == |tags|
  }

  /** A list grown at its end stays duplicate-free exactly when the new tag is not in it yet. */
  lemma DistinctSnoc<T>(init: seq<T>, last: T)
    ensures Distinct(init + [last]) <==> Distinct(init) && last !in init
  {
    var s := init + [last];
    if Distinct(s) {
      forall i, j | 0 <= i < j < |init| ensures init[i] != init[j] {
        assert init[i] == s[i] && init[j] == s[j];
      }
      forall j | 0 <= j < |init| ensures init[j] != last {
        assert init[j] == s[j] && last == s[|init|];
      }
    }
    if Distinct(init) && last !in init {
      forall i, j | 0 <= i < j < |s| ensures s[i] != s[j] {
        assert s[i] == init[i];
        if j < |init| {
          assert s[j] == init[j];
        }
      }
    }
  }

  /** The fold loses no element exactly when the input has no duplicate. */
  lemma {:induction false} TagSetOfSizeIffDistinct<T>(tags: seq<T>)
    ensures TagSetOf(tags).Size() == |tags| <==> Distinct(tags)
  {
    if tags != [] {
      var init, last := tags[..|tags| - 1], tags[|tags| - 1];
      assert tags == init + [last];
      TagSetOfSizeIffDistinct(init);
      DistinctSnoc(init, last);
      var s0 := TagSetOf(init);
      assert TagSetOf(tags) == s0.Plus(last);
      assert s0.Contains(last) <==> last in init by {
        assert last in Elements(s0.members) <==> last in Elements(init);
      }
    }
  }

  /** Members of `m` appear in the order in which they first occur in `tags`. */
  ghost predicate InFirstOccurrenceOrder<T>(m: seq<T>, tags: seq<T>) {
    forall i, j :: 0 <= i < j < |m| ==> IndexOf(m[i], tags) < IndexOf(m[j], tags)
  }

  /** Growing the input at its end keeps the order of tags already seen, and puts a new tag last. */
  lemma AppendKeepsOrder<T>(m: seq<T>, s: seq<T>, t: T)
    requires InFirstOccurrenceOrder(m, s)
    requires forall k :: 0 <= k < |m| ==> m[k] in s
    ensures InFirstOccurrenceOrder(m, s + [t])
    ensures t !in s ==> InFirstOccurrenceOrder(m + [t], s + [t])
  {
    forall k | 0 <= k < |m|
      ensures IndexOf(m[k], s + [t]) == IndexOf(m[k], s) < |s|
    {
      IndexOfExtend(m[k], s, t);
    }
    if t !in s {
      IndexOfExtend(t, s, t);
      var m' := m + [t];
      forall i, j | 0 <= i < j < |m'|
        ensures IndexOf(m'[i], s + [t]) < IndexOf(m'[j], s + [t])
      {
        assert m'[i] == m[i];
        if j < |m| {
          assert m'[j] == m[j];
        }
      }
    }
  }

  /** The fold keeps the tags in the order of their first occurrence in the input. */
  lemma {:induction false} TagSetOfFirstOccurrenceOrder<T>(tags: seq<T>)
    ensures InFirstOccurrenceOrder(TagSetOf(tags).members, tags)
  {
    if tags != [] {
      var init, last := tags[..|tags| - 1], tags[|tags| - 1];
      assert tags == init + [last];
      TagSetOfFirstOccurrenceOrder(init);
      var m0 := TagSetOf(init).members;
      forall k | 0 <= k < |m0| ensures m0[k] in init {
        assert m0[k] in Elements(m0);
      }
      AppendKeepsOrder(m0, init, last);
    }
  }

  /**
   `index_of_impl<Needle, Haystack...>(index, end)`: scans the remaining tags,
   where `index` is the position of the first of them; yields the position of
   the first match, or `end` when the needle is not among them.
   */
  function IndexOfImpl<T(==)>(needle: T, haystack: seq<T>, index: nat, end: nat): (r: nat)
    ensures needle in haystack ==> index <= r && IsFirstIndex(haystack, needle, r - index)
    ensures needle !in haystack ==> r == end
  {
    if haystack == [] then end
    else if haystack[0] == needle then index
    else
      assert haystack == [haystack[0]] + haystack[1..];
      IndexOfImpl(needle, haystack[1..], index + 1, end)
  }

  /**
   `index_of<Needle, Haystack...>()`: the first position of the needle, or the
   sentinel n + 1 (n the number of tags) when it is absent. The sentinel is
   two past the last position, not the one-past-the-end position n.
   */
  function IndexOf<T(==)>(needle: T, haystack: seq<T>): (r: nat)
    ensures needle in haystack ==> IsFirstIndex(haystack, needle, r)
    ensures needle !in haystack ==> r == |haystack| + 1
    ensures r < |haystack| <==> needle in haystack
  {
    IndexOfImpl(needle, haystack, 0, |haystack| + 1)
  }

  /** A tag found in a list is found at the same place once the list grows at its end. */
  lemma IndexOfExtend<T>(x: T, s: seq<T>, t: T)
    ensures x in s ==> IndexOf(x, s + [t]) == IndexOf(x, s)
    ensures x !in s && x == t ==> IndexOf(x, s + [t]) == |s|
  {
    var r, r' := IndexOf(x, s), IndexOf(x, s + [t]);
    if x in s {
      assert (s + [t])[r] == x;
    } else if x == t {
      assert (s + [t])[|s|] == x;
    }
  }

  /** With distinct tags, the tag declared at position p is found at p. */
  lemma IndexOfDistinct<T>(tags: seq<T>, p: nat)
    requires Distinct(tags) && p < |tags|
    ensures IndexOf(tags[p], tags) == p
  {
  }
}
