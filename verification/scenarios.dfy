/**
 Concrete instances of the header's behaviour on three field tags `A`, `B`,
 `C` and a foreign tag `D`, with integer slot values.
 */
module Scenarios {
  import opened Wrappers
  import Detail
  import Ptnk

  datatype Name = A | B | C | D

  /** `[A, B, C]`, `[]` and `[A]` are unique; `[A, B, A]` repeats `A` at non-adjacent positions. */
  lemma UniquenessExamples()
    ensures Detail.AreTagsUnique([A, B, C])
    ensures !Detail.AreTagsUnique([A, B, A])
    ensures Detail.AreTagsUnique<Name>([]) && Detail.AreTagsUnique([A])
  {
    assert [A, B, A][0] == [A, B, A][2];
  }

  /** A record type declaring `A` twice does not exist. */
  lemma RejectsDuplicatedTag()
    ensures Ptnk.Construct([A, A], [1, 2]).None?
  {
    assert [A, A][0] == [A, A][1];
  }

  /** Built from `(1, 2, 3)`, the record answers each tag with its own value; `D` has index 4 and no slot. */
  lemma SlotOrderAndMiss(r: Ptnk.TaggedTuple<Name, int>)
    requires Ptnk.Construct([A, B, C], [1, 2, 3]) == Some(r)
    ensures Ptnk.Get(r, C) == Some(3) && Ptnk.Get(r, A) == Some(1) && Ptnk.Get(r, B) == Some(2)
    ensures Detail.IndexOf(D, [A, B, C]) == 4 && Ptnk.Get(r, D) == None
  {
    assert r.tags[0] == A && r.tags[1] == B && r.tags[2] == C;
  }

  /** Writing `B` through its accessor is seen by the next read of `B`; `A` and `C` keep their values. */
  lemma WriteThenRead(r: Ptnk.TaggedTuple<Name, int>)
    requires r.Valid() && r.tags == [A, B, C] && r.slots == [1, 2, 3]
    ensures Ptnk.Update(r, B, 20).Some?
    ensures var r' := Ptnk.Update(r, B, 20).value;
      Ptnk.Get(r', B) == Some(20) && Ptnk.Get(r', A) == Some(1) && Ptnk.Get(r', C) == Some(3)
  {
    assert r.tags[0] == A && r.tags[1] == B && r.tags[2] == C;
  }
}
