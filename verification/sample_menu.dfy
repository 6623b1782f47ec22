/** A slice of the sample menu table the project ships for bootstrapping
    (ids in creation order), as a concrete table for the menu modules. */
module SampleMenu {
  import opened Wrappers
  import opened MenuItems

  /** Clothing > Women's > Dresses > {Evening Gowns, Sun Dresses}, with the
      bounds and ids the sample table gives them. */
  const Sample: Store := map[
    1 := Item(1, "Clothing", 1, 22, NoId),
    3 := Item(3, "Women's", 10, 21, Id(1)),
    7 := Item(7, "Dresses", 11, 16, Id(3)),
    10 := Item(10, "Evening Gowns", 12, 13, Id(7)),
    11 := Item(11, "Sun Dresses", 14, 15, Id(7))
  ]

  /** The slice meets the check constraints, its parent links all resolve,
      and every parent lies to the left of its children: it satisfies what
      the walk and the cascade assume. */
  lemma SampleIsValid()
    ensures ValidStore(Sample)
    ensures ParentsPrecede(Sample)
  {
  }

  /** With Evening Gowns active, the upward walk reaches Dresses, Women's and
      Clothing. */
  lemma SampleTrail()
    ensures ParentsPrecede(Sample)
    ensures Ancestors(Sample, Id(10)) == {10, 7, 3, 1}
  {
  }

  /** Deleting Dresses removes it and its two children, and leaves Women's and
      Clothing in place. */
  lemma SampleCascade()
    ensures 7 in Sample
    ensures CascadeDelete(Sample, 7).Keys == {1, 3}
  {
  }
}
