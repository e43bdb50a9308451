# tagged_tuple in Dafny

A model of `ptnk::tagged_tuple`, a C++ header-only record whose fields are
looked up by a *tag* type instead of by position. In C++ all of it runs at
compile time through templates. The model keeps the logic and drops the
template machinery:

- `Detail` (namespace `ptnk::detail`): the type-level set `TypeSet` with its
  idempotent `operator+` (`Plus`) and `size()` (`Size`); the fold that builds
  the set of a tag list (`TagSetOf`); the uniqueness check `are_tags_unique`
  (`AreTagsUnique`); the recursive linear lookup `index_of_impl` / `index_of`
  (`IndexOfImpl`, `IndexOf`) with its not-found sentinel n + 1.
- `Ptnk` (namespace `ptnk`): the record `TaggedTuple` as its declared tag list
  paired with its slot values, built from a value tuple (`Construct`), viewed
  as its untagged tuple (`ToTuple`), read by tag (`Get`, the `get<Name>`
  overloads) and written by tag (`Update`, assignment through the reference the
  mutable `get<Name>` returns).
- `Scenarios`: the behaviour on concrete tags `A`, `B`, `C` and a foreign tag `D`.
- `Wrappers`: `Option`, used where the header refuses to compile.

A tag is any type with equality; two tags are the same when they are equal,
which stands for C++ type identity. Every slot has the one value type `V`.
The two compile-time failures of the header, a record type with duplicated
tags (the `static_assert`) and `get` with a tag the record does not declare
(an index outside the tuple), become `None` results. A record that exists
satisfies `TaggedTuple.Valid()`: one slot per tag, and no tag twice.

The comment at tagged_tuple.hpp:72 likens the not-found index to `std::end()`,
the one-past-the-end position n; the code returns n + 1
(tagged_tuple.hpp:75), and the model follows the code. Either value is out of
range for the tuple, so the accessor fails in both cases.

## Model

| member | source | states |
|---|---|---|
| `Detail.TypeSet.Plus` | tagged_tuple.hpp:41-49 | adding a tag already present returns the identical set; adding an absent tag appends it, the size grows by exactly one and the earlier members keep their positions; the members afterwards are the old ones plus the tag; a duplicate-free set stays duplicate-free |
| `Detail.TypeSet.Size` | tagged_tuple.hpp:50 | the size of a well-formed set is the number of distinct tags it holds |
| `Detail.TagSetOf` | tagged_tuple.hpp:56 | the left fold of `+` over a tag list from the empty set gives a duplicate-free set holding exactly the tags of the list, of size at most the list length |
| `Detail.TagSetOfFirstOccurrenceOrder` | tagged_tuple.hpp:56 | the fold lists the tags in the order of their first occurrence in the input |
| `Detail.TagSetOfSizeIffDistinct` | tagged_tuple.hpp:56-57 | the folded set has as many members as the list has tags if and only if no tag occurs at two positions |
| `Detail.AreTagsUnique` | tagged_tuple.hpp:54-58 | true if and only if the tags are pairwise distinct at any two positions, adjacent or not; the empty and one-tag lists are unique |
| `Detail.IndexOfImpl` | tagged_tuple.hpp:60-70 | scanning from position `index`, returns `index` plus the first position of the needle in the remaining tags, or `end` when it is not among them |
| `Detail.IndexOf` | tagged_tuple.hpp:72-76 | returns the smallest position holding the needle when it occurs, which is below n; returns n + 1 when it is absent; the result is below n exactly when the needle occurs |
| `Detail.IndexOfDistinct` | tagged_tuple.hpp:73-75 | with distinct tags, the lookup of the tag declared at position p yields p |
| `Ptnk.Construct` | tagged_tuple.hpp:94-101 | a record exists exactly when the tags are pairwise distinct and there is one value per tag (the `static_assert` at line 85); its slots are the given values in declaration order |
| `Ptnk.ToTuple` | tagged_tuple.hpp:82-88 | a record is a relabelled tuple: its untagged values, built back into a record with the same tags, give the same record |
| `Ptnk.Get` | tagged_tuple.hpp:105-111 | reading tag `name` yields a value exactly when the record declares `name`, and then it is the value of the slot declared with `name` |
| `Ptnk.Update` | tagged_tuple.hpp:105-111 | writing `x` through `name` succeeds exactly when `name` is declared; afterwards the tags are unchanged, reading `name` yields `x`, reading any other tag yields what it did before, and every other slot is unchanged |
| `Ptnk.GetAfterConstruct` | tagged_tuple.hpp:94-111 | after construction from a value tuple, reading the tag declared at position p yields the p-th value |
| `Ptnk.GetAbsent` | tagged_tuple.hpp:105-111 | for a tag the record does not declare, the looked-up index is at or beyond the arity, and neither reading nor writing has a slot |
| `Ptnk.UpdateTwice` | tagged_tuple.hpp:105-111 | a second write through the same tag overrides the first |
| `Scenarios.UniquenessExamples` | tagged_tuple.hpp:54-58 | `[A, B, C]`, `[]` and `[A]` are unique; `[A, B, A]` is not |
| `Scenarios.RejectsDuplicatedTag` | tagged_tuple.hpp:85 | a record declaring `A` twice is refused |
| `Scenarios.SlotOrderAndMiss` | tagged_tuple.hpp:105-111 | built from `(1, 2, 3)` over `[A, B, C]`, each tag reads its own value; the foreign tag `D` has index 4 and no slot |
| `Scenarios.WriteThenRead` | tagged_tuple.hpp:105-111 | a write through `B` is seen by the next read of `B`, while `A` and `C` keep their values |

## Left out

- The three reference categories of `get` (`&`, `const &`, `&&`, tagged_tuple.hpp:105-127) differ only in ownership and move semantics; the model has one read (`Get`) and one write (`Update`).
- The inherited `std::tuple` constructors, `swap` and `operator=` (tagged_tuple.hpp:89-91) belong to the standard library, which is not part of this model; copy and move construction from a tuple (tagged_tuple.hpp:94-101) are modelled together as `Construct`, since both give slots equal to the tuple's values.
- Heterogeneous slot types and `std::tuple_element` typing: every slot has one abstract value type. A value of the wrong type is an ordinary C++ type error and has no counterpart here; an arity mismatch between tags and values is modelled as `Construct` returning `None`.
- `type_pair`, `name_tag_traits` and the `name_tag_t` / `name_tag_value_t` aliases (tagged_tuple.hpp:15-36) only split a list of (tag, value type) pairs; the model takes the tag list directly.
- The diagnostic text of the `static_assert` (tagged_tuple.hpp:85) and the remark on incomplete types (tagged_tuple.hpp:14) have no behaviour to model.
- `std::size_t` arithmetic is modelled with unbounded naturals; `sizeof...(Haystack) + 1` cannot wrap for any list a compiler accepts.
- Compile time versus run time: the model states what the templates compute, not when; that lookups cost nothing at run time is not expressed.
