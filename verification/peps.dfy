/** The records the index generator works on. The parser that builds
    them is not part of this model: a PEP is reduced to the fields the
    generator reads. */
module Peps {
  import opened Sequences
  import opened Sorting

  /** An author as listed in a PEP header. Two authors are the same
      person when their `lastFirst` names agree; `email` may be empty. */
  datatype Author = Author(lastFirst: string, email: string)

  datatype Pep = Pep(
    number: nat,
    pepType: string,
    status: string,
    title: string,
    authors: seq<Author>)

  /** The order `sorted` puts PEPs in: by number. */
  predicate NumberOrder(a: Pep, b: Pep) {
    a.number <= b.number
  }

  /** `sorted(...)` applied to a collection of PEPs. */
  function SortPeps(s: seq<Pep>): (r: seq<Pep>)
    ensures multiset(r) == multiset(s)
    ensures forall p :: p in r <==> p in s
    ensures SortedBy(r, NumberOrder)
    ensures Distinct(s) ==> Distinct(r)
  {
    assert TotalPreorder(NumberOrder);
    SortByMembers(s, NumberOrder);
    SortBy(s, NumberOrder)
  }
}
