/** The administration panel of the React application: the two-phase lifecycle of a
    category, the phase-1 results dialog with its finalist selection, and the
    nominee–category association form. After every successful write the page reloads
    its tables, so the page's lists are the store's tables. */
module AdminPanel {
  import opened Wrappers
  import opened Records
  import opened Tally
  import Text

  // ---------------------------------------------------------------- lifecycle

  datatype Transition = Phase1Start | Phase1Finish | Phase2Start | Phase2Finish

  /** The record update each button sends; every other field of the row is kept. */
  function Apply(t: Transition, c: Category): (r: Category)
    ensures r.id == c.id && r.name == c.name && r.description == c.description &&
            r.bannerImage == c.bannerImage && r.isActive == c.isActive && r.votingOpen == c.votingOpen
  {
    match t
    case Phase1Start => c.(votingPhase := 1, phase1Active := true, phase2Active := false, isFinalized := false)
    case Phase1Finish => c.(phase1Active := false)
    case Phase2Start => c.(votingPhase := 2, phase2Active := true, phase1Active := false)
    case Phase2Finish => c.(phase2Active := false, isFinalized := true)
  }

  /** When the category card shows each button; `linked` is the number of nominees
      the card lists for the category. */
  predicate Offered(t: Transition, c: Category, linked: nat) {
    match t
    case Phase1Start => !c.phase1Active && !c.phase2Active && !c.isFinalized
    case Phase1Finish => c.phase1Active
    case Phase2Start => !c.phase1Active && !c.phase2Active && !c.isFinalized && linked > 0
    case Phase2Finish => c.phase2Active
  }

  function FlagCount(c: Category): nat {
    (if c.phase1Active then 1 else 0) + (if c.phase2Active then 1 else 0) + (if c.isFinalized then 1 else 0)
  }

  /** The lifecycle invariant: at most one of the three phase flags is set. */
  predicate AtMostOneFlag(c: Category) { FlagCount(c) <= 1 }

  /** What each transition writes, and that nothing else of the row changes. */
  lemma ApplyEffect(t: Transition, c: Category)
    ensures t == Phase1Start ==> Apply(t, c) == c.(votingPhase := 1, phase1Active := true, phase2Active := false, isFinalized := false)
    ensures t == Phase1Finish ==> Apply(t, c).(phase1Active := c.phase1Active) == c && !Apply(t, c).phase1Active
    ensures t == Phase2Start ==> Apply(t, c).(votingPhase := c.votingPhase, phase1Active := c.phase1Active, phase2Active := c.phase2Active) == c &&
                                 Apply(t, c).votingPhase == 2 && Apply(t, c).phase2Active && !Apply(t, c).phase1Active
    ensures t == Phase2Finish ==> Apply(t, c).(phase2Active := c.phase2Active, isFinalized := c.isFinalized) == c &&
                                  !Apply(t, c).phase2Active && Apply(t, c).isFinalized
  {
  }

  /** An offered transition keeps the invariant. */
  lemma OfferedKeepsAtMostOne(t: Transition, c: Category, linked: nat)
    requires AtMostOneFlag(c) && Offered(t, c, linked)
    ensures AtMostOneFlag(Apply(t, c))
    ensures FlagCount(Apply(t, c)) == (if t == Phase1Finish then 0 else 1)
  {
  }

  /** Nothing is offered for a finalized category. */
  lemma NothingOfferedWhenFinalized(t: Transition, c: Category, linked: nat)
    requires AtMostOneFlag(c) && c.isFinalized
    ensures !Offered(t, c, linked)
  {
  }

  /** The buttons do not track a "phase 1 closed" state: after phase 1 is finished the
      card offers phase 1 again, and phase 2 whenever the category has nominees. Phase 2
      can also be started without any phase 1, as soon as nominees are linked. */
  lemma AfterFinishPhase1(c: Category, linked: nat)
    requires AtMostOneFlag(c) && Offered(Phase1Finish, c, linked)
    ensures Offered(Phase1Start, Apply(Phase1Finish, c), linked)
    ensures Offered(Phase2Start, Apply(Phase1Finish, c), linked) <==> linked > 0
    ensures !Offered(Phase1Finish, Apply(Phase1Finish, c), linked) && !Offered(Phase2Finish, Apply(Phase1Finish, c), linked)
  {
  }

  /** One click: the transition and the number of nominees the card listed then. */
  datatype Click = Click(t: Transition, linked: nat)

  function Run(c: Category, clicks: seq<Click>): Category
  {
    if clicks == [] then c else Apply(clicks[|clicks| - 1].t, Run(c, clicks[..|clicks| - 1]))
  }

  /** Every click of the run was on a button the card showed at that moment. */
  ghost predicate OfferedRun(c: Category, clicks: seq<Click>) {
    forall i :: 0 <= i < |clicks| ==> Offered(clicks[i].t, Run(c, clicks[..i]), clicks[i].linked)
  }

  /** Starting from a category with no phase flag set, any sequence of offered clicks
      leaves at most one flag set, so nothing is offered once it is finalized. */
  lemma {:induction false} OfferedRunKeepsAtMostOne(c: Category, clicks: seq<Click>)
    requires AtMostOneFlag(c)
    requires OfferedRun(c, clicks)
    ensures AtMostOneFlag(Run(c, clicks))
  {
    if clicks != [] {
      var pre, last := clicks[..|clicks| - 1], clicks[|clicks| - 1];
      assert OfferedRun(c, pre) by {
        forall i | 0 <= i < |pre| ensures Offered(pre[i].t, Run(c, pre[..i]), pre[i].linked) {
          assert pre[..i] == clicks[..i];
          assert pre[i] == clicks[i];
        }
      }
      OfferedRunKeepsAtMostOne(c, pre);
      assert Offered(last.t, Run(c, pre), last.linked) by {
        assert clicks[..|clicks| - 1] == pre;
      }
      OfferedKeepsAtMostOne(last.t, Run(c, pre), last.linked);
    }
  }

  datatype PhaseStatus = Finalized | Phase2Active | Phase1Active | Waiting

  /** `getPhaseStatus`: the first flag set, in the order finalized, phase 2, phase 1. */
  function StatusOf(c: Category): (s: PhaseStatus)
    ensures s == Finalized <==> c.isFinalized
    ensures s == Phase2Active <==> !c.isFinalized && c.phase2Active
    ensures s == Phase1Active <==> !c.isFinalized && !c.phase2Active && c.phase1Active
  {
    if c.isFinalized then Finalized
    else if c.phase2Active then Phase2Active
    else if c.phase1Active then Phase1Active
    else Waiting
  }

  function StatusText(s: PhaseStatus): string {
    match s
    case Finalized => "Finalizada"
    case Phase2Active => "Fase 2 Ativa"
    case Phase1Active => "Fase 1 Ativa"
    case Waiting => "Aguardando"
  }

  /** Under the invariant the priority never decides anything: the badge names the one
      flag that is set, or "Aguardando" when none is. */
  lemma StatusNamesTheSetFlag(c: Category)
    requires AtMostOneFlag(c)
    ensures StatusOf(c) == Phase2Active <==> c.phase2Active
    ensures StatusOf(c) == Phase1Active <==> c.phase1Active
    ensures StatusOf(c) == Waiting <==> FlagCount(c) == 0
  {
  }

  /** `.update(...).eq("id", id)` on the categories table: every row with that id. */
  function UpdatePhase(cs: seq<Category>, id: Id, t: Transition): (r: seq<Category>)
    ensures |r| == |cs|
    ensures forall i :: 0 <= i < |cs| ==> r[i] == if cs[i].id == id then Apply(t, cs[i]) else cs[i]
  {
    seq(|cs|, i requires 0 <= i < |cs| => if cs[i].id == id then Apply(t, cs[i]) else cs[i])
  }

  // ---------------------------------------------------------------- phase-1 results

  /** A `phase_1_votes` row. */
  datatype Phase1Vote = Phase1Vote(nomineeId: Id, categoryId: Id)

  datatype Phase1Result = Phase1Result(nomineeId: Id, nomineeName: string, nomineeImage: string, voteCount: nat)

  function VoteCountOf(r: Phase1Result): int { r.voteCount }

  /** The number of phase-1 rows for nominee n in category c. */
  function Phase1Count(votes: seq<Phase1Vote>, n: Id, c: Id): (k: nat)
    ensures k <= |votes|
    ensures k == 0 <==> forall i :: 0 <= i < |votes| ==> votes[i] != Phase1Vote(n, c)
  {
    if votes == [] then 0
    else Phase1Count(votes[..|votes| - 1], n, c) + (if votes[|votes| - 1] == Phase1Vote(n, c) then 1 else 0)
  }

  lemma {:induction false} Phase1CountConcat(a: seq<Phase1Vote>, b: seq<Phase1Vote>, n: Id, c: Id)
    ensures Phase1Count(a + b, n, c) == Phase1Count(a, n, c) + Phase1Count(b, n, c)
  {
    if b == [] {
      assert a + b == a;
    } else {
      assert (a + b)[..|a + b| - 1] == a + b[..|b| - 1];
      Phase1CountConcat(a, b[..|b| - 1], n, c);
    }
  }

  /** One more phase-1 vote for (n, c) adds one to that count and to no other. */
  lemma Phase1CountAppend(votes: seq<Phase1Vote>, v: Phase1Vote, n: Id, c: Id)
    ensures Phase1Count(votes + [v], n, c) == Phase1Count(votes, n, c) + (if v == Phase1Vote(n, c) then 1 else 0)
  {
    assert (votes + [v])[..|votes|] == votes;
  }

  /** The rows the query returns before sorting: one per active nominee, in nominee
      order, carrying the nominee's number of phase-1 votes in category c. */
  function Phase1Rows(ns: seq<Nominee>, votes: seq<Phase1Vote>, c: Id): (r: seq<Phase1Result>)
    ensures |r| == |ActiveNominees(ns)|
    ensures forall i :: 0 <= i < |r| ==>
              var n := ActiveNominees(ns)[i];
              r[i] == Phase1Result(n.id, n.name, n.image, Phase1Count(votes, n.id, c))
  {
    var act := ActiveNominees(ns);
    seq(|act|, i requires 0 <= i < |act| => Phase1Result(act[i].id, act[i].name, act[i].image, Phase1Count(votes, act[i].id, c)))
  }

  /** `loadPhase1Results` without the dialog: the counted rows sorted in place by
      `results.sort((a, b) => b.vote_count - a.vote_count)`. */
  method RankPhase1(ns: seq<Nominee>, votes: seq<Phase1Vote>, c: Id) returns (results: seq<Phase1Result>)
    ensures RankingOf(results, Phase1Rows(ns, votes, c), VoteCountOf)
    ensures |results| == |ActiveNominees(ns)|
  {
    var rows := Phase1Rows(ns, votes, c);
    var a := new Phase1Result[|rows|](i requires 0 <= i < |rows| => rows[i]);
    assert a[..] == rows;
    SortDescInPlace(a, VoteCountOf);
    results := a[..];
    assert |multiset(results)| == |multiset(rows)|;
  }

  /** `handleSelectTop4`: the ids of the first four results, or of all of them when
      there are fewer. */
  function Top4(results: seq<Phase1Result>): (ids: seq<Id>)
    ensures |ids| == Text.Min(4, |results|)
    ensures forall i :: 0 <= i < |ids| ==> ids[i] == results[i].nomineeId
  {
    var k := Text.Min(4, |results|);
    seq(k, i requires 0 <= i < k => results[i].nomineeId)
  }

  /** On a ranked list, every pre-selected nominee has at least as many votes as every
      nominee left out. */
  lemma Top4AreHighest(results: seq<Phase1Result>, i: int, j: int)
    requires SortedDesc(results, VoteCountOf)
    requires 0 <= i < |Top4(results)| <= j < |results|
    ensures results[i].voteCount >= results[j].voteCount
  {
    assert VoteCountOf(results[i]) >= VoteCountOf(results[j]);
  }

  function NomineeVotes(n: Nominee): int { n.voteCount }

  /** `getTotalVotes`: `nominees.reduce((total, n) => total + n.vote_count, 0)`. */
  function TotalVotes(ns: seq<Nominee>): int
  {
    SumKey(ns, NomineeVotes)
  }

  /** Raising one nominee's vote_count by one raises the total by one. */
  lemma TotalVotesIncrement(ns: seq<Nominee>, i: int)
    requires 0 <= i < |ns|
    ensures TotalVotes(ns[i := ns[i].(voteCount := ns[i].voteCount + 1)]) == TotalVotes(ns) + 1
  {
    var m := ns[i := ns[i].(voteCount := ns[i].voteCount + 1)];
    assert ns == ns[..i] + [ns[i]] + ns[i + 1..];
    assert m == ns[..i] + [m[i]] + ns[i + 1..];
    SumKeyConcat(ns[..i] + [ns[i]], ns[i + 1..], NomineeVotes);
    SumKeyConcat(ns[..i], [ns[i]], NomineeVotes);
    SumKeyConcat(ns[..i] + [m[i]], ns[i + 1..], NomineeVotes);
    SumKeyConcat(ns[..i], [m[i]], NomineeVotes);
    assert [ns[i]][..0] == [] && [m[i]][..0] == [];
  }

  // ---------------------------------------------------------------- link replacement

  function WithoutCategory(links: seq<NomineeCategory>, c: Id): (r: seq<NomineeCategory>)
    ensures forall i :: 0 <= i < |r| ==> r[i] in links && r[i].categoryId != c
    ensures forall l :: l in links && l.categoryId != c ==> l in r
  {
    if links == [] then []
    else WithoutCategory(links[..|links| - 1], c) + (if links[|links| - 1].categoryId != c then [links[|links| - 1]] else [])
  }

  function WithoutNominee(links: seq<NomineeCategory>, n: Id): (r: seq<NomineeCategory>)
    ensures forall i :: 0 <= i < |r| ==> r[i] in links && r[i].nomineeId != n
    ensures forall l :: l in links && l.nomineeId != n ==> l in r
  {
    if links == [] then []
    else WithoutNominee(links[..|links| - 1], n) + (if links[|links| - 1].nomineeId != n then [links[|links| - 1]] else [])
  }

  /** `selectedNominees.map((nomineeId) => ({ nominee_id: nomineeId, category_id: c }))`. */
  function FinalistLinks(ids: seq<Id>, c: Id): (r: seq<NomineeCategory>)
    ensures |r| == |ids|
    ensures forall i :: 0 <= i < |ids| ==> r[i] == NomineeCategory(ids[i], c)
  {
    seq(|ids|, i requires 0 <= i < |ids| => NomineeCategory(ids[i], c))
  }

  /** `category_ids.map((categoryId) => ({ nominee_id: n, category_id: categoryId }))`. */
  function AssociationLinks(n: Id, cats: seq<Id>): (r: seq<NomineeCategory>)
    ensures |r| == |cats|
    ensures forall i :: 0 <= i < |cats| ==> r[i] == NomineeCategory(n, cats[i])
  {
    seq(|cats|, i requires 0 <= i < |cats| => NomineeCategory(n, cats[i]))
  }

  lemma {:induction false} LinksOfWithoutCategory(links: seq<NomineeCategory>, c: Id, d: Id)
    ensures LinksOf(WithoutCategory(links, c), d) == if d == c then [] else LinksOf(links, d)
  {
    if links != [] {
      var pre, l := links[..|links| - 1], links[|links| - 1];
      LinksOfWithoutCategory(pre, c, d);
      LinksOfConcat(WithoutCategory(pre, c), if l.categoryId != c then [l] else [], d);
      assert [l][..0] == [];
    }
  }

  lemma {:induction false} LinksOfNomineeWithoutNominee(links: seq<NomineeCategory>, n: Id, m: Id)
    ensures LinksOfNominee(WithoutNominee(links, n), m) == if m == n then [] else LinksOfNominee(links, m)
  {
    if links != [] {
      var pre, l := links[..|links| - 1], links[|links| - 1];
      LinksOfNomineeWithoutNominee(pre, n, m);
      LinksOfNomineeConcat(WithoutNominee(pre, n), if l.nomineeId != n then [l] else [], m);
      assert [l][..0] == [];
    }
  }

  /** The delete-then-insert of `selectFinalists` when both calls succeed. */
  function ReplaceCategoryLinks(links: seq<NomineeCategory>, c: Id, ids: seq<Id>): seq<NomineeCategory>
  {
    WithoutCategory(links, c) + FinalistLinks(ids, c)
  }

  /** After the replacement the links of category c are exactly the chosen ids, in the
      chosen order (none when no id was chosen), and every other category keeps its links. */
  lemma ReplaceCategoryLinksSpec(links: seq<NomineeCategory>, c: Id, ids: seq<Id>)
    ensures LinksOf(ReplaceCategoryLinks(links, c, ids), c) == FinalistLinks(ids, c)
    ensures ids == [] ==> LinksOf(ReplaceCategoryLinks(links, c, ids), c) == []
    ensures forall d :: d != c ==> LinksOf(ReplaceCategoryLinks(links, c, ids), d) == LinksOf(links, d)
  {
    LinksOfConcat(WithoutCategory(links, c), FinalistLinks(ids, c), c);
    LinksOfWithoutCategory(links, c, c);
    LinksOfUniform(FinalistLinks(ids, c), c, c);
    forall d | d != c ensures LinksOf(ReplaceCategoryLinks(links, c, ids), d) == LinksOf(links, d) {
      ReplaceCategoryLinksOther(links, c, ids, d);
    }
  }

  lemma ReplaceCategoryLinksOther(links: seq<NomineeCategory>, c: Id, ids: seq<Id>, d: Id)
    requires d != c
    ensures LinksOf(ReplaceCategoryLinks(links, c, ids), d) == LinksOf(links, d)
  {
    LinksOfConcat(WithoutCategory(links, c), FinalistLinks(ids, c), d);
    LinksOfWithoutCategory(links, c, d);
    LinksOfUniform(FinalistLinks(ids, c), c, d);
  }

  /** The delete-then-insert of `handleAssociationSubmit` when both calls succeed. */
  function ReplaceNomineeLinks(links: seq<NomineeCategory>, n: Id, cats: seq<Id>): seq<NomineeCategory>
  {
    WithoutNominee(links, n) + AssociationLinks(n, cats)
  }

  lemma ReplaceNomineeLinksSpec(links: seq<NomineeCategory>, n: Id, cats: seq<Id>)
    ensures LinksOfNominee(ReplaceNomineeLinks(links, n, cats), n) == AssociationLinks(n, cats)
    ensures forall m :: m != n ==> LinksOfNominee(ReplaceNomineeLinks(links, n, cats), m) == LinksOfNominee(links, m)
  {
    LinksOfNomineeConcat(WithoutNominee(links, n), AssociationLinks(n, cats), n);
    LinksOfNomineeWithoutNominee(links, n, n);
    LinksOfNomineeUniform(AssociationLinks(n, cats), n, n);
    forall m | m != n ensures LinksOfNominee(ReplaceNomineeLinks(links, n, cats), m) == LinksOfNominee(links, m) {
      ReplaceNomineeLinksOther(links, n, cats, m);
    }
  }

  lemma ReplaceNomineeLinksOther(links: seq<NomineeCategory>, n: Id, cats: seq<Id>, m: Id)
    requires m != n
    ensures LinksOfNominee(ReplaceNomineeLinks(links, n, cats), m) == LinksOfNominee(links, m)
  {
    LinksOfNomineeConcat(WithoutNominee(links, n), AssociationLinks(n, cats), m);
    LinksOfNomineeWithoutNominee(links, n, m);
    LinksOfNomineeUniform(AssociationLinks(n, cats), n, m);
  }

  // ---------------------------------------------------------------- the panel

  /** The tables the panel works on, and the state of its phase-1 results dialog. Each
      call to the database takes a flag saying whether it succeeded; a failed call
      throws, which the page reports in an alert. */
  class Panel {
    var categories: seq<Category>
    var nominees: seq<Nominee>
    var links: seq<NomineeCategory>
    var phase1Votes: seq<Phase1Vote>
    var phaseResults: seq<Phase1Result>
    var resultsCategory: Option<Category>

    /** Every category satisfies the lifecycle invariant. */
    ghost predicate Valid()
      reads this
    {
      forall i :: 0 <= i < |categories| ==> AtMostOneFlag(categories[i])
    }

    /** The number of nominees the card of category id lists. */
    function Linked(id: Id): nat
      reads this
    {
      |CategoryNominees(links, nominees, id)|
    }

    /** The button for t is shown on the card of every row with this id. */
    ghost predicate ShownFor(t: Transition, id: Id)
      reads this
    {
      forall i :: 0 <= i < |categories| && categories[i].id == id ==> Offered(t, categories[i], Linked(id))
    }

    constructor(cs: seq<Category>, ns: seq<Nominee>, ls: seq<NomineeCategory>, vs: seq<Phase1Vote>)
      ensures categories == cs && nominees == ns && links == ls && phase1Votes == vs
      ensures phaseResults == [] && resultsCategory == None
    {
      categories, nominees, links, phase1Votes := cs, ns, ls, vs;
      phaseResults, resultsCategory := [], None;
    }

    method Transit(t: Transition, id: Id, ok: bool)
      requires Valid() && ShownFor(t, id)
      modifies this
      ensures Valid()
      ensures categories == if ok then UpdatePhase(old(categories), id, t) else old(categories)
      ensures nominees == old(nominees) && links == old(links) && phase1Votes == old(phase1Votes)
      ensures phaseResults == old(phaseResults) && resultsCategory == old(resultsCategory)
    {
      if ok {
        forall i | 0 <= i < |categories| && categories[i].id == id
          ensures AtMostOneFlag(Apply(t, categories[i]))
        {
          OfferedKeepsAtMostOne(t, categories[i], Linked(id));
        }
        categories := UpdatePhase(categories, id, t);
      }
    }

    /** `startPhase1`. */
    method StartPhase1(id: Id, ok: bool)
      requires Valid() && ShownFor(Phase1Start, id)
      modifies this
      ensures Valid()
      ensures categories == if ok then UpdatePhase(old(categories), id, Phase1Start) else old(categories)
      ensures nominees == old(nominees) && links == old(links) && phase1Votes == old(phase1Votes)
      ensures phaseResults == old(phaseResults) && resultsCategory == old(resultsCategory)
    {
      Transit(Phase1Start, id, ok);
    }

    /** `finishPhase1`: after confirmation, clear phase_1_active; when that succeeds,
        open the results dialog for the row as it was loaded before the update. */
    method FinishPhase1(id: Id, confirmed: bool, ok: bool, resultsOk: bool)
      requires Valid() && ShownFor(Phase1Finish, id)
      modifies this
      ensures Valid()
      ensures categories == if confirmed && ok then UpdatePhase(old(categories), id, Phase1Finish) else old(categories)
      ensures nominees == old(nominees) && links == old(links) && phase1Votes == old(phase1Votes)
      ensures confirmed && ok && resultsOk && Find(old(categories), CategoryId, id).Some? ==>
                resultsCategory == Find(old(categories), CategoryId, id) &&
                RankingOf(phaseResults, Phase1Rows(nominees, phase1Votes, id), VoteCountOf)
      ensures !(confirmed && ok && resultsOk && Find(old(categories), CategoryId, id).Some?) ==>
                phaseResults == old(phaseResults) && resultsCategory == old(resultsCategory)
    {
      if !confirmed {
        return;
      }
      var loaded := Find(categories, CategoryId, id);
      Transit(Phase1Finish, id, ok);
      if ok && loaded.Some? {
        LoadPhase1Results(loaded.value, resultsOk);
      }
    }

    /** `startPhase2`. */
    method StartPhase2(id: Id, ok: bool)
      requires Valid() && ShownFor(Phase2Start, id)
      modifies this
      ensures Valid()
      ensures categories == if ok then UpdatePhase(old(categories), id, Phase2Start) else old(categories)
      ensures nominees == old(nominees) && links == old(links) && phase1Votes == old(phase1Votes)
      ensures phaseResults == old(phaseResults) && resultsCategory == old(resultsCategory)
    {
      Transit(Phase2Start, id, ok);
    }

    /** `finishPhase2`: after confirmation, close the category for good. */
    method FinishPhase2(id: Id, confirmed: bool, ok: bool)
      requires Valid() && ShownFor(Phase2Finish, id)
      modifies this
      ensures Valid()
      ensures categories == if confirmed && ok then UpdatePhase(old(categories), id, Phase2Finish) else old(categories)
      ensures nominees == old(nominees) && links == old(links) && phase1Votes == old(phase1Votes)
      ensures phaseResults == old(phaseResults) && resultsCategory == old(resultsCategory)
    {
      if confirmed {
        Transit(Phase2Finish, id, ok);
      }
    }

    /** `loadPhase1Results(category)`: on success the dialog shows the ranked rows. */
    method LoadPhase1Results(category: Category, ok: bool)
      modifies this
      ensures categories == old(categories) && nominees == old(nominees) && links == old(links)
      ensures phase1Votes == old(phase1Votes)
      ensures ok ==> resultsCategory == Some(category) &&
                     RankingOf(phaseResults, Phase1Rows(nominees, phase1Votes, category.id), VoteCountOf)
      ensures !ok ==> phaseResults == old(phaseResults) && resultsCategory == old(resultsCategory)
    {
      if ok {
        phaseResults := RankPhase1(nominees, phase1Votes, category.id);
        resultsCategory := Some(category);
      }
    }

    /** `selectFinalists(selected)`: nothing without a dialog category; otherwise delete
        the category's links, then insert one link per selected id. The two calls are
        not a transaction: a failed insert leaves the category with no links. */
    method SelectFinalists(selected: seq<Id>, deleteOk: bool, insertOk: bool)
      modifies this
      ensures categories == old(categories) && nominees == old(nominees) && phase1Votes == old(phase1Votes)
      ensures phaseResults == old(phaseResults) && resultsCategory == old(resultsCategory)
      ensures resultsCategory.None? || !deleteOk ==> links == old(links)
      ensures resultsCategory.Some? && deleteOk ==>
                links == if selected == [] || insertOk
                         then ReplaceCategoryLinks(old(links), resultsCategory.value.id, selected)
                         else WithoutCategory(old(links), resultsCategory.value.id)
    {
      if resultsCategory.None? {
        return;
      }
      var c := resultsCategory.value.id;
      if !deleteOk {
        return;
      }
      links := WithoutCategory(links, c);
      if |selected| > 0 {
        if !insertOk {
          return;
        }
        links := links + FinalistLinks(selected, c);
      } else {
        assert FinalistLinks(selected, c) == [];
        assert links + [] == links;
      }
    }

    /** `handleAssociationSubmit`: replace the links of one nominee by one link per
        ticked category, with the same delete-then-insert shape. */
    method SubmitAssociations(nomineeId: Id, categoryIds: seq<Id>, deleteOk: bool, insertOk: bool)
      modifies this
      ensures categories == old(categories) && nominees == old(nominees) && phase1Votes == old(phase1Votes)
      ensures phaseResults == old(phaseResults) && resultsCategory == old(resultsCategory)
      ensures !deleteOk ==> links == old(links)
      ensures deleteOk ==>
                links == if categoryIds == [] || insertOk
                         then ReplaceNomineeLinks(old(links), nomineeId, categoryIds)
                         else WithoutNominee(old(links), nomineeId)
    {
      if !deleteOk {
        return;
      }
      links := WithoutNominee(links, nomineeId);
      if |categoryIds| > 0 {
        if !insertOk {
          return;
        }
        links := links + AssociationLinks(nomineeId, categoryIds);
      } else {
        assert AssociationLinks(nomineeId, categoryIds) == [];
        assert links + [] == links;
      }
    }
  }
}
