/** Lists of selected ids kept by the screens: the finalist check-boxes of the phase-1
    results dialog, the categories revealed on the results screen, and the categories
    ticked in the nominee-association form. */
module Selection {

  /** `ids.filter((id) => id !== x)`: ids without x, the rest in order. */
  function Remove(ids: seq<string>, x: string): (r: seq<string>)
    ensures x !in r
    ensures forall y :: y != x ==> (y in r <==> y in ids)
    ensures |r| <= |ids|
    ensures x !in ids ==> r == ids
  {
    if ids == [] then []
    else if ids[|ids| - 1] == x then Remove(ids[..|ids| - 1], x)
    else Remove(ids[..|ids| - 1], x) + [ids[|ids| - 1]]
  }

  /** `prev.includes(x) ? prev.filter((id) => id !== x) : [...prev, x]`, shared by
      the finalist check-boxes and the reveal buttons. */
  function Toggle(prev: seq<string>, x: string): (r: seq<string>)
    ensures x in r <==> x !in prev
    ensures forall y :: y != x ==> (y in r <==> y in prev)
    ensures x !in prev ==> r == prev + [x]
  {
    if x in prev then Remove(prev, x) else prev + [x]
  }

  /** Toggling the same id twice gives back the same selection as a set, and exactly
      the same list when the id was not selected before. */
  lemma ToggleTwice(prev: seq<string>, x: string)
    ensures forall y :: y in Toggle(Toggle(prev, x), x) <==> y in prev
    ensures x !in prev ==> Toggle(Toggle(prev, x), x) == prev
  {
    if x !in prev {
      var once := prev + [x];
      assert once[|once| - 1] == x && once[..|once| - 1] == prev;
    }
  }

  /** The association form's check-box: append when ticked, remove when cleared. */
  function SetChecked(ids: seq<string>, c: string, checked: bool): (r: seq<string>)
    ensures checked ==> r == ids + [c]
    ensures checked <==> c in r
    ensures forall y :: y != c ==> (y in r <==> y in ids)
  {
    if checked then ids + [c] else Remove(ids, c)
  }
}
