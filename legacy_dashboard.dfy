/** The voter's page of the legacy vanilla-JavaScript front end: it loads the tables,
    shows one active category at a time with its linked nominees, and keeps in memory
    the categories voted in during this visit (that list is never loaded from the
    backend, so it starts empty on every visit; the backend's own check still refuses
    a second vote). */
module LegacyDashboard {
  import opened Wrappers
  import opened Crud
  import Records

  /** `links.filter(l => l.categoria_id === c).map(l => nominees.find(...)).filter(defined)`:
      the linked nominees in link order, each the first loaded row with the link's id,
      dropping links whose nominee is not loaded. */
  function NomineesFor(links: seq<IndicadoCategoria>, nominees: seq<Indicado>, c: int): (r: seq<Indicado>)
    ensures |r| <= |links|
  {
    if links == [] then []
    else
      var l := links[|links| - 1];
      var rest := NomineesFor(links[..|links| - 1], nominees, c);
      if l.categoriaId == c then
        match Records.Find(nominees, IndicadoId, l.indicadoId)
        case Some(x) => rest + [x]
        case None => rest
      else rest
  }

  /** Every nominee shown is loaded and linked to c, and every link of c whose nominee
      is loaded contributes that nominee. */
  lemma NomineesForSpec(links: seq<IndicadoCategoria>, nominees: seq<Indicado>, c: int)
    ensures var r := NomineesFor(links, nominees, c);
            (forall i :: 0 <= i < |r| ==> r[i] in nominees && IndicadoCategoria(r[i].id, c) in links) &&
            (forall l :: l in links && l.categoriaId == c && Records.Find(nominees, IndicadoId, l.indicadoId).Some? ==>
               Records.Find(nominees, IndicadoId, l.indicadoId).value in r)
  {
    NomineesForSound(links, nominees, c);
    NomineesForComplete(links, nominees, c);
    var r := NomineesFor(links, nominees, c);
    assert forall i :: 0 <= i < |r| ==> r[i] in r;
  }

  lemma {:induction false} NomineesForSound(links: seq<IndicadoCategoria>, nominees: seq<Indicado>, c: int)
    ensures forall x :: x in NomineesFor(links, nominees, c) ==> x in nominees && IndicadoCategoria(x.id, c) in links
  {
    if links != [] {
      var pre, l := links[..|links| - 1], links[|links| - 1];
      NomineesForSound(pre, nominees, c);
      var found := Records.Find(nominees, IndicadoId, l.indicadoId);
      assert NomineesFor(links, nominees, c) ==
             NomineesFor(pre, nominees, c) + (if l.categoriaId == c && found.Some? then [found.value] else []);
      assert links == pre + [l];
    }
  }

  lemma {:induction false} NomineesForComplete(links: seq<IndicadoCategoria>, nominees: seq<Indicado>, c: int)
    ensures forall l :: l in links && l.categoriaId == c && Records.Find(nominees, IndicadoId, l.indicadoId).Some? ==>
              Records.Find(nominees, IndicadoId, l.indicadoId).value in NomineesFor(links, nominees, c)
  {
    if links != [] {
      var pre, l := links[..|links| - 1], links[|links| - 1];
      NomineesForComplete(pre, nominees, c);
      var found := Records.Find(nominees, IndicadoId, l.indicadoId);
      assert NomineesFor(links, nominees, c) ==
             NomineesFor(pre, nominees, c) + (if l.categoriaId == c && found.Some? then [found.value] else []);
      assert links == pre + [l];
    }
  }

  /** A link to another category never changes what a category shows. */
  lemma {:induction false} OtherLinkIgnored(links: seq<IndicadoCategoria>, nominees: seq<Indicado>, c: int, l: IndicadoCategoria)
    requires l.categoriaId != c
    ensures NomineesFor(links + [l], nominees, c) == NomineesFor(links, nominees, c)
  {
    assert (links + [l])[..|links|] == links;
  }

  /** The page's globals and the state of the controls it renders. */
  class Page {
    var allCategories: seq<Categoria>
    var allNominees: seq<Indicado>
    var links: seq<IndicadoCategoria>
    var userVotedCategories: seq<int>
    var currentCategoryIndex: int
    // what the page shows
    var shownNominees: seq<Indicado>
    var votedMessage: bool
    var voteDisabled: bool
    var prevDisabled: bool
    var nextDisabled: bool

    /** The controls show category i. */
    ghost predicate ShowsIndex(i: int)
      reads this
    {
      0 <= i < |allCategories| && currentCategoryIndex == i &&
      shownNominees == NomineesFor(links, allNominees, allCategories[i].id) &&
      votedMessage == voteDisabled == (allCategories[i].id in userVotedCategories) &&
      prevDisabled == (i == 0) && nextDisabled == (i == |allCategories| - 1)
    }

    /** What the page shows: the current index, the nominee list and the four flags. */
    function Display(): (int, seq<Indicado>, bool, bool, bool, bool)
      reads this
    {
      (currentCategoryIndex, shownNominees, votedMessage, voteDisabled, prevDisabled, nextDisabled)
    }

    constructor()
      ensures allCategories == [] && allNominees == [] && links == [] && userVotedCategories == []
      ensures currentCategoryIndex == 0
    {
      allCategories, allNominees, links, userVotedCategories := [], [], [], [];
      currentCategoryIndex := 0;
      shownNominees, votedMessage, voteDisabled, prevDisabled, nextDisabled := [], false, false, false, false;
    }

    /** `renderCategory(index)`: an index out of range leaves everything as it is. */
    method RenderCategory(index: int)
      modifies this
      ensures allCategories == old(allCategories) && allNominees == old(allNominees) && links == old(links)
      ensures userVotedCategories == old(userVotedCategories)
      ensures 0 <= index < |allCategories| ==> ShowsIndex(index)
      ensures !(0 <= index < |allCategories|) ==>
                currentCategoryIndex == old(currentCategoryIndex) && shownNominees == old(shownNominees) &&
                votedMessage == old(votedMessage) && voteDisabled == old(voteDisabled) &&
                prevDisabled == old(prevDisabled) && nextDisabled == old(nextDisabled)
    {
      if index < 0 || index >= |allCategories| {
        return;
      }
      currentCategoryIndex := index;
      var category := allCategories[currentCategoryIndex];
      shownNominees := NomineesFor(links, allNominees, category.id);
      var hasVoted := category.id in userVotedCategories;
      votedMessage, voteDisabled := hasVoted, hasVoted;
      prevDisabled := currentCategoryIndex == 0;
      nextDisabled := currentCategoryIndex == |allCategories| - 1;
    }

    /** `loadAllData`: the three fetches in order, each stored as soon as it arrives, so a
        failed fetch leaves the earlier ones stored (the categories still unfiltered).
        After all three, only active categories are kept; the current index is shown
        when there are any, otherwise the three buttons are disabled. */
    method LoadAllData(cats: Option<seq<Categoria>>, noms: Option<seq<Indicado>>, ls: Option<seq<IndicadoCategoria>>)
      modifies this
      ensures userVotedCategories == old(userVotedCategories)
      ensures cats.None? ==> allCategories == old(allCategories) && allNominees == old(allNominees) && links == old(links)
      ensures cats.Some? && noms.None? ==> allCategories == cats.value && allNominees == old(allNominees) && links == old(links)
      ensures cats.Some? && noms.Some? && ls.None? ==>
                allCategories == cats.value && allNominees == noms.value && links == old(links)
      ensures cats.None? || noms.None? || ls.None? ==> Display() == old(Display())
      ensures cats.Some? && noms.Some? && ls.Some? && allCategories != [] &&
                !(0 <= old(currentCategoryIndex) < |allCategories|) ==>
                Display() == old(Display())
      ensures cats.Some? && noms.Some? && ls.Some? && allCategories == [] ==>
                currentCategoryIndex == old(currentCategoryIndex) && shownNominees == old(shownNominees) &&
                votedMessage == old(votedMessage)
      ensures cats.Some? && noms.Some? && ls.Some? ==>
                allCategories == OfStatus(cats.value, true) && allNominees == noms.value && links == ls.value &&
                (0 <= old(currentCategoryIndex) < |allCategories| ==> ShowsIndex(old(currentCategoryIndex))) &&
                (allCategories == [] ==> prevDisabled && nextDisabled && voteDisabled)
    {
      if cats.None? {
        return;
      }
      allCategories := cats.value;
      if noms.None? {
        return;
      }
      allNominees := noms.value;
      if ls.None? {
        return;
      }
      links := ls.value;
      allCategories := OfStatus(allCategories, true);
      if |allCategories| > 0 {
        RenderCategory(currentCategoryIndex);
      } else {
        prevDisabled, nextDisabled, voteDisabled := true, true, true;
      }
    }

    /** `submitVote`: nothing without a selected nominee; with no category at the current
        index the handler throws before sending. Otherwise the vote for the current
        category is sent; on success the category is remembered and re-rendered, which
        disables voting in it. */
    method SubmitVote(selected: Option<int>, ok: bool) returns (sent: Option<VotoCategoria>)
      modifies this
      ensures allCategories == old(allCategories) && allNominees == old(allNominees) && links == old(links)
      ensures sent.Some? <==> selected.Some? && 0 <= old(currentCategoryIndex) < |allCategories|
      ensures sent.Some? ==> sent.value == VotoCategoria(selected.value, allCategories[old(currentCategoryIndex)].id)
      ensures sent.Some? && ok ==>
                userVotedCategories == old(userVotedCategories) + [sent.value.categoriaId] &&
                ShowsIndex(old(currentCategoryIndex)) && voteDisabled
      ensures sent.None? || !ok ==> userVotedCategories == old(userVotedCategories) && Display() == old(Display())
    {
      sent := None;
      if selected.None? {
        return;
      }
      if !(0 <= currentCategoryIndex < |allCategories|) {
        return;
      }
      var categoriaId := allCategories[currentCategoryIndex].id;
      sent := Some(VotoCategoria(selected.value, categoriaId));
      if ok {
        userVotedCategories := userVotedCategories + [categoriaId];
        RenderCategory(currentCategoryIndex);
      }
    }

    /** The previous and next buttons. */
    method Prev()
      modifies this
      ensures allCategories == old(allCategories) && userVotedCategories == old(userVotedCategories)
      ensures allNominees == old(allNominees) && links == old(links)
      ensures 0 < old(currentCategoryIndex) <= |allCategories| ==> ShowsIndex(old(currentCategoryIndex) - 1)
      ensures !(0 < old(currentCategoryIndex) <= |allCategories|) ==> Display() == old(Display())
    {
      RenderCategory(currentCategoryIndex - 1);
    }

    method Next()
      modifies this
      ensures allCategories == old(allCategories) && userVotedCategories == old(userVotedCategories)
      ensures allNominees == old(allNominees) && links == old(links)
      ensures -1 <= old(currentCategoryIndex) < |allCategories| - 1 ==> ShowsIndex(old(currentCategoryIndex) + 1)
      ensures !(-1 <= old(currentCategoryIndex) < |allCategories| - 1) ==> Display() == old(Display())
    {
      RenderCategory(currentCategoryIndex + 1);
    }
  }
}
