/** The results screen of the React application: per-category tallies of the
    individual votes of the phase that matters, the reveal buttons, and the
    navigation through the finalized categories. The screen only reads; every
    handler computes a value from the loaded lists or from the previous state. */
module ResultsPage {
  import opened Wrappers
  import opened Records
  import opened Tally
  import Text

  /** An `individual_votes` row. */
  datatype IndividualVote = IndividualVote(nomineeId: Id, categoryId: Id, phase: int)

  /** A nominee with its number of votes in the category being shown. */
  datatype NomineeWithVotes = NomineeWithVotes(nominee: Nominee, categoryVotes: nat)

  function CategoryVotesOf(x: NomineeWithVotes): int { x.categoryVotes }

  /** The screen loads only active categories; these are its two tabs. */
  function ClosedCategories(cs: seq<Category>): (r: seq<Category>)
    ensures |r| <= |cs|
    ensures forall i :: 0 <= i < |r| ==> r[i].isFinalized && r[i] in cs
    ensures forall c :: c in cs && c.isFinalized ==> c in r
  {
    if cs == [] then []
    else ClosedCategories(cs[..|cs| - 1]) + (if cs[|cs| - 1].isFinalized then [cs[|cs| - 1]] else [])
  }

  function OpenCategories(cs: seq<Category>): (r: seq<Category>)
    ensures |r| <= |cs|
    ensures forall i :: 0 <= i < |r| ==> r[i].votingOpen && r[i] in cs
    ensures forall c :: c in cs && c.votingOpen ==> c in r
  {
    if cs == [] then []
    else OpenCategories(cs[..|cs| - 1]) + (if cs[|cs| - 1].votingOpen then [cs[|cs| - 1]] else [])
  }

  /** The phase whose votes decide the category: 2 once phase 2 has started or the
      category is finalized, 1 otherwise. */
  function ResultsPhase(c: Category): (p: int)
    ensures p == 1 || p == 2
    ensures p == 2 <==> c.phase2Active || c.isFinalized
  {
    if c.phase2Active || c.isFinalized then 2 else 1
  }

  /** The number of votes for nominee n in category c cast in the given phase. */
  function PhaseVotes(votes: seq<IndividualVote>, n: Id, c: Id, phase: int): (k: nat)
    ensures k <= |votes|
    ensures k == 0 <==> forall i :: 0 <= i < |votes| ==> votes[i] != IndividualVote(n, c, phase)
  {
    if votes == [] then 0
    else PhaseVotes(votes[..|votes| - 1], n, c, phase) + (if votes[|votes| - 1] == IndividualVote(n, c, phase) then 1 else 0)
  }

  /** Category c's links, each resolved to its nominee and that nominee's count, before
      sorting; links whose nominee is not loaded are dropped. */
  function Tallied(links: seq<NomineeCategory>, nominees: seq<Nominee>, votes: seq<IndividualVote>, c: Id, phase: int)
    : (r: seq<NomineeWithVotes>)
    ensures |r| == |CategoryNominees(links, nominees, c)|
    ensures forall i :: 0 <= i < |r| ==>
              r[i].nominee == CategoryNominees(links, nominees, c)[i] &&
              r[i].categoryVotes == PhaseVotes(votes, r[i].nominee.id, c, phase)
  {
    var ns := CategoryNominees(links, nominees, c);
    seq(|ns|, i requires 0 <= i < |ns| => NomineeWithVotes(ns[i], PhaseVotes(votes, ns[i].id, c, phase)))
  }

  /** `getCategoryNominees(c)`: nothing for a category that is not loaded; otherwise the
      tallied nominees, ranked by votes with ties in link order. */
  function CategoryResults(categories: seq<Category>, links: seq<NomineeCategory>, nominees: seq<Nominee>,
                           votes: seq<IndividualVote>, c: Id): (r: seq<NomineeWithVotes>)
    ensures Find(categories, CategoryId, c).None? ==> r == []
  {
    match Find(categories, CategoryId, c)
    case None => []
    case Some(cat) => RankDesc(Tallied(links, nominees, votes, c, ResultsPhase(cat)), CategoryVotesOf)
  }

  /** For a loaded category the result is a stable descending ranking of the tallied
      nominees; each listed nominee is loaded and linked to c, and carries exactly its
      votes of the deciding phase in c. */
  lemma CategoryResultsSpec(categories: seq<Category>, links: seq<NomineeCategory>, nominees: seq<Nominee>,
                            votes: seq<IndividualVote>, c: Id)
    requires Find(categories, CategoryId, c).Some?
    ensures var phase := ResultsPhase(Find(categories, CategoryId, c).value);
            var r := CategoryResults(categories, links, nominees, votes, c);
            RankingOf(r, Tallied(links, nominees, votes, c, phase), CategoryVotesOf) &&
            forall x :: x in r ==>
              x.nominee in nominees && NomineeCategory(x.nominee.id, c) in links &&
              x.categoryVotes == PhaseVotes(votes, x.nominee.id, c, phase)
  {
    var phase := ResultsPhase(Find(categories, CategoryId, c).value);
    var t := Tallied(links, nominees, votes, c, phase);
    var r := CategoryResults(categories, links, nominees, votes, c);
    RankDescIsRanking(t, CategoryVotesOf);
    CategoryNomineesSpec(links, nominees, c);
    forall x | x in r
      ensures x.nominee in nominees && NomineeCategory(x.nominee.id, c) in links &&
              x.categoryVotes == PhaseVotes(votes, x.nominee.id, c, phase)
    {
      assert x in multiset(r);
      assert x in multiset(t);
      var i :| 0 <= i < |t| && t[i] == x;
      assert x.nominee == CategoryNominees(links, nominees, c)[i];
    }
  }

  lemma {:induction false} PhaseVotesAppend(votes: seq<IndividualVote>, v: IndividualVote, n: Id, c: Id, phase: int)
    ensures PhaseVotes(votes + [v], n, c, phase) == PhaseVotes(votes, n, c, phase) + (if v == IndividualVote(n, c, phase) then 1 else 0)
  {
    assert (votes + [v])[..|votes|] == votes;
  }

  /** A vote of another phase, or for another category, never changes what the screen
      shows for category c. */
  lemma OtherVotesIgnored(categories: seq<Category>, links: seq<NomineeCategory>, nominees: seq<Nominee>,
                          votes: seq<IndividualVote>, c: Id, v: IndividualVote)
    requires Find(categories, CategoryId, c).Some?
    requires v.categoryId != c || v.phase != ResultsPhase(Find(categories, CategoryId, c).value)
    ensures CategoryResults(categories, links, nominees, votes + [v], c) == CategoryResults(categories, links, nominees, votes, c)
  {
    var phase := ResultsPhase(Find(categories, CategoryId, c).value);
    forall n ensures PhaseVotes(votes + [v], n, c, phase) == PhaseVotes(votes, n, c, phase) {
      PhaseVotesAppend(votes, v, n, c, phase);
    }
    assert Tallied(links, nominees, votes + [v], c, phase) == Tallied(links, nominees, votes, c, phase);
  }

  /** `categoryNominees.reduce((sum, n) => sum + n.category_votes, 0)`. */
  function TotalCategoryVotes(r: seq<NomineeWithVotes>): int {
    SumKey(r, CategoryVotesOf)
  }

  /** Sorting does not change the total, so it is the sum of the tallied counts. */
  lemma TotalIsSumOfCounts(categories: seq<Category>, links: seq<NomineeCategory>, nominees: seq<Nominee>,
                           votes: seq<IndividualVote>, c: Id)
    requires Find(categories, CategoryId, c).Some?
    ensures TotalCategoryVotes(CategoryResults(categories, links, nominees, votes, c)) ==
            TotalCategoryVotes(Tallied(links, nominees, votes, c, ResultsPhase(Find(categories, CategoryId, c).value)))
  {
    RankDescSum(Tallied(links, nominees, votes, c, ResultsPhase(Find(categories, CategoryId, c).value)), CategoryVotesOf);
  }

  /** A nominee's share of the category's votes, in percent, taken as 0 when the
      category has no votes. */
  function Percentage(votes: nat, total: nat): (p: real)
    ensures total == 0 ==> p == 0.0
    ensures total > 0 ==> p * total as real == votes as real * 100.0
    ensures votes <= total ==> 0.0 <= p <= 100.0
  {
    if total > 0 then (votes as real / total as real) * 100.0 else 0.0
  }

  /** `handleNextCategory` and `handlePrevCategory`. */
  function NextIndex(i: int, len: int): (j: int)
    ensures len >= 1 && 0 <= i < len ==> 0 <= j < len
    ensures 0 <= i < len - 1 ==> j == i + 1
    ensures i == len - 1 ==> j == i
  {
    Text.Min(i + 1, len - 1)
  }

  function PrevIndex(i: int): (j: int)
    ensures i >= 0 ==> 0 <= j
    ensures i > 0 ==> j == i - 1
    ensures i <= 0 ==> j == 0
  {
    Text.Max(i - 1, 0)
  }

  /** Moving back from anywhere but the first category undoes a move forward, and a
      move forward from anywhere but the last undoes a move back. */
  lemma NavigationInverse(i: int, len: int)
    requires 0 <= i < len
    ensures i < len - 1 ==> PrevIndex(NextIndex(i, len)) == i
    ensures i > 0 ==> NextIndex(PrevIndex(i), len) == i
  {
  }
}
