/** The voter's dashboard of the React application: one vote per category, recorded as
    a `user_votes` row and a `vote_count` increment on the chosen nominee. The page
    checks its loaded copy of the user's rows before inserting; for the synthetic
    administrator of the environment sign-in it never loads those rows. */
module DashboardPage {
  import opened Wrappers
  import opened Records
  import AdminPanel

  /** A `user_votes` row. */
  datatype UserVote = UserVote(userId: Id, categoryId: Id)

  /** `.from("user_votes").select("*").eq("user_id", u)`. */
  function VotesOfUser(rows: seq<UserVote>, u: Id): (r: seq<UserVote>)
    ensures forall v :: v in r <==> v in rows && v.userId == u
  {
    if rows == [] then []
    else VotesOfUser(rows[..|rows| - 1], u) + (if rows[|rows| - 1].userId == u then [rows[|rows| - 1]] else [])
  }

  /** `hasUserVoted(c)`: some loaded row is for category c. */
  function HasUserVoted(loaded: seq<UserVote>, c: Id): (b: bool)
    ensures b <==> exists i :: 0 <= i < |loaded| && loaded[i].categoryId == c
  {
    if loaded == [] then false
    else loaded[|loaded| - 1].categoryId == c || HasUserVoted(loaded[..|loaded| - 1], c)
  }

  /** The vote button of a nominee card: shown while the category is open and no loaded
      row is for it. */
  predicate ShowVoteButton(c: Category, loaded: seq<UserVote>): (b: bool)
    ensures b <==> c.votingOpen && forall i :: 0 <= i < |loaded| ==> loaded[i].categoryId != c.id
  {
    c.votingOpen && !HasUserVoted(loaded, c.id)
  }

  /** Once an ordinary user's row for c is in the table and the reload succeeds, no card
      of category c offers the vote button any more. */
  lemma VoteHidesButton(prev: seq<UserVote>, rows: seq<UserVote>, u: Id, cat: Category)
    requires u != AdminEnvId
    ensures !ShowVoteButton(cat, Loaded(prev, rows + [UserVote(u, cat.id)], u, true))
  {
    var r := rows + [UserVote(u, cat.id)];
    assert r[|rows|] == UserVote(u, cat.id);
    HasVotedIffRow(r, u, cat.id);
  }

  /** For an ordinary user whose rows are loaded, the check is exact: it rejects iff the
      table already holds a row for that user and category. */
  lemma HasVotedIffRow(rows: seq<UserVote>, u: Id, c: Id)
    ensures HasUserVoted(VotesOfUser(rows, u), c) <==> UserVote(u, c) in rows
  {
    if HasUserVoted(VotesOfUser(rows, u), c) {
      var i :| 0 <= i < |VotesOfUser(rows, u)| && VotesOfUser(rows, u)[i].categoryId == c;
      assert VotesOfUser(rows, u)[i] in VotesOfUser(rows, u);
    }
    if UserVote(u, c) in rows {
      assert UserVote(u, c) in VotesOfUser(rows, u);
    }
  }

  /** `.update({ vote_count: v }).eq("id", id)` on the nominees table. */
  function SetVoteCount(ns: seq<Nominee>, id: Id, v: int): (r: seq<Nominee>)
    ensures |r| == |ns|
    ensures forall i :: 0 <= i < |ns| ==> r[i] == if ns[i].id == id then ns[i].(voteCount := v) else ns[i]
  {
    seq(|ns|, i requires 0 <= i < |ns| => if ns[i].id == id then ns[i].(voteCount := v) else ns[i])
  }

  predicate UniqueIds(ns: seq<Nominee>) {
    forall i, j :: 0 <= i < j < |ns| ==> ns[i].id != ns[j].id
  }

  /** With unique ids, writing the loaded count plus one adds exactly one vote to the
      total the admin panel shows. */
  lemma IncrementAddsOne(ns: seq<Nominee>, i: int)
    requires UniqueIds(ns) && 0 <= i < |ns|
    ensures SetVoteCount(ns, ns[i].id, ns[i].voteCount + 1) == ns[i := ns[i].(voteCount := ns[i].voteCount + 1)]
    ensures AdminPanel.TotalVotes(SetVoteCount(ns, ns[i].id, ns[i].voteCount + 1)) == AdminPanel.TotalVotes(ns) + 1
  {
    AdminPanel.TotalVotesIncrement(ns, i);
  }

  /** At most one row per category for every user other than the environment admin. */
  ghost predicate OnePerCategory(rows: seq<UserVote>) {
    forall i, j :: 0 <= i < j < |rows| && rows[i].userId != AdminEnvId ==> rows[i] != rows[j]
  }

  /** Adding a row the table does not hold yet, or a row of the environment admin,
      keeps the invariant. */
  lemma AppendKeepsOnePerCategory(rows: seq<UserVote>, v: UserVote)
    requires OnePerCategory(rows)
    requires v.userId != AdminEnvId ==> v !in rows
    ensures OnePerCategory(rows + [v])
  {
    var r := rows + [v];
    forall i, j | 0 <= i < j < |r| && r[i].userId != AdminEnvId ensures r[i] != r[j] {
      if j == |rows| {
        assert r[i] == rows[i];
      } else {
        assert r[i] == rows[i] && r[j] == rows[j];
      }
    }
  }

  /** The environment admin's rows are never loaded, so the page never sees a vote of
      theirs and never refuses one. */
  lemma AdminNeverRefused(rows: seq<UserVote>, c: Id, ok: bool)
    ensures Loaded([], rows, AdminEnvId, ok) == []
    ensures !HasUserVoted(Loaded([], rows, AdminEnvId, ok), c)
  {
  }

  /** What `loadData(u)` leaves in the page's `userVotes`: unchanged for the environment
      admin, the user's rows when the query succeeds, and none when it fails. */
  function Loaded(prev: seq<UserVote>, rows: seq<UserVote>, u: Id, ok: bool): seq<UserVote>
  {
    if u == AdminEnvId then prev else if ok then VotesOfUser(rows, u) else []
  }

  /** The nominees table after the increment step of a vote for n: the loaded count
      plus one is written when n is loaded and the update succeeds. */
  function AfterIncrement(ns: seq<Nominee>, n: Id, updateOk: bool): seq<Nominee>
  {
    match Find(ActiveNominees(ns), NomineeId, n)
    case Some(x) => if updateOk then SetVoteCount(ns, n, x.voteCount + 1) else ns
    case None => ns
  }

  /** The tables the dashboard writes, the signed-in user and the page's loaded rows. */
  class Dashboard {
    var userVotes: seq<UserVote>
    var nominees: seq<Nominee>
    var user: Option<Id>
    var loadedVotes: seq<UserVote>

    /** The page's copy of the user's rows is the table's. */
    ghost predicate Synced()
      reads this
    {
      user.Some? && user.value != AdminEnvId ==> loadedVotes == VotesOfUser(userVotes, user.value)
    }

    constructor(u: Option<Id>, rows: seq<UserVote>, ns: seq<Nominee>)
      ensures user == u && userVotes == rows && nominees == ns && loadedVotes == []
    {
      user, userVotes, nominees, loadedVotes := u, rows, ns, [];
    }

    /** The user_votes part of `loadData`. */
    method LoadVotes(ok: bool)
      requires user.Some?
      modifies this
      ensures userVotes == old(userVotes) && nominees == old(nominees) && user == old(user)
      ensures loadedVotes == Loaded(old(loadedVotes), userVotes, user.value, ok)
      ensures ok ==> Synced()
    {
      loadedVotes := Loaded(loadedVotes, userVotes, user.value, ok);
    }

    /** `handleVote(c, n)`: without a signed-in user, or when the loaded rows show a vote
        in c, nothing happens. Otherwise insert the row (user, c); if that fails stop.
        Then, when n is among the loaded (active) nominees, write its loaded count plus one;
        a nominee that is not loaded still costs the user their vote in c. A failed
        update leaves the row inserted and skips the reload. Finally reload. */
    method HandleVote(c: Id, n: Id, insertOk: bool, updateOk: bool, reloadOk: bool)
      modifies this
      ensures user == old(user)
      ensures user.None? || HasUserVoted(old(loadedVotes), c) || !insertOk ==>
                userVotes == old(userVotes) && nominees == old(nominees) && loadedVotes == old(loadedVotes)
      ensures user.Some? && !HasUserVoted(old(loadedVotes), c) && insertOk ==>
                userVotes == old(userVotes) + [UserVote(user.value, c)] &&
                nominees == AfterIncrement(old(nominees), n, updateOk)
      ensures user.Some? && !HasUserVoted(old(loadedVotes), c) && insertOk &&
              (updateOk || Find(ActiveNominees(old(nominees)), NomineeId, n).None?) ==>
                loadedVotes == Loaded(old(loadedVotes), userVotes, user.value, reloadOk)
      ensures user.Some? && !HasUserVoted(old(loadedVotes), c) && insertOk &&
              !updateOk && Find(ActiveNominees(old(nominees)), NomineeId, n).Some? ==>
                loadedVotes == old(loadedVotes)
      ensures old(OnePerCategory(userVotes)) && old(Synced()) ==> OnePerCategory(userVotes)
      ensures user.Some? && user.value != AdminEnvId && !HasUserVoted(old(loadedVotes), c) && insertOk &&
              (updateOk || Find(ActiveNominees(old(nominees)), NomineeId, n).None?) && reloadOk ==>
                forall cat: Category :: cat.id == c ==> !ShowVoteButton(cat, loadedVotes)
    {
      if user.None? {
        return;
      }
      if HasUserVoted(loadedVotes, c) {
        return;
      }
      if !insertOk {
        return;
      }
      var u := user.value;
      if old(OnePerCategory(userVotes)) && old(Synced()) {
        if u != AdminEnvId {
          HasVotedIffRow(userVotes, u, c);
        }
        AppendKeepsOnePerCategory(userVotes, UserVote(u, c));
      }
      userVotes := userVotes + [UserVote(u, c)];
      var found := Find(ActiveNominees(nominees), NomineeId, n);
      nominees := AfterIncrement(nominees, n, updateOk);
      if found.Some? && !updateOk {
        return;
      }
      loadedVotes := Loaded(loadedVotes, userVotes, u, reloadOk);
      if u != AdminEnvId && reloadOk {
        forall cat: Category | cat.id == c ensures !ShowVoteButton(cat, loadedVotes) {
          VoteHidesButton(old(loadedVotes), old(userVotes), u, cat);
        }
      }
    }
  }
}
