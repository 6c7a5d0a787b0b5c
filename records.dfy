/** The rows of the Supabase tables the React pages read: categories (with the
    phase fields of the admin form), nominees and the nominee–category links, and
    the link resolution the admin and dashboard pages share. */
module Records {
  import opened Wrappers

  type Id = string

  /** The id of the synthetic administrator that the environment sign-in returns. */
  const AdminEnvId: Id := "admin-env-id"

  datatype Category = Category(
    id: Id,
    name: string,
    description: string,
    bannerImage: string,
    isActive: bool,
    votingOpen: bool,
    votingPhase: int,
    phase1Active: bool,
    phase2Active: bool,
    isFinalized: bool)

  datatype Nominee = Nominee(
    id: Id,
    name: string,
    description: string,
    image: string,
    isActive: bool,
    voteCount: int)

  /** A `nominee_categories` row. */
  datatype NomineeCategory = NomineeCategory(nomineeId: Id, categoryId: Id)

  function CategoryId(c: Category): Id { c.id }
  function NomineeId(n: Nominee): Id { n.id }

  /** `rows.find((r) => r.id === id)`, or a query's `.first()`: the first row with that
      key, if any. */
  function Find<T, K(==)>(rows: seq<T>, idOf: T -> K, id: K): (r: Option<T>)
    ensures r.None? <==> forall i :: 0 <= i < |rows| ==> idOf(rows[i]) != id
    ensures r.Some? ==> r.value in rows && idOf(r.value) == id
  {
    if rows == [] then None
    else if idOf(rows[0]) == id then Some(rows[0])
    else
      var r := Find(rows[1..], idOf, id);
      assert forall i :: 1 <= i < |rows| ==> rows[i] == rows[1..][i - 1];
      r
  }

  /** The row found is the first with that key. */
  lemma {:induction false} FindFirst<T, K>(rows: seq<T>, idOf: T -> K, id: K, i: int)
    requires 0 <= i < |rows| && idOf(rows[i]) == id
    requires forall j :: 0 <= j < i ==> idOf(rows[j]) != id
    ensures Find(rows, idOf, id) == Some(rows[i])
  {
    if i > 0 {
      assert idOf(rows[0]) != id;
      assert forall j :: 0 <= j < i - 1 ==> rows[1..][j] == rows[j + 1];
      FindFirst(rows[1..], idOf, id, i - 1);
    }
  }

  /** `getCategoryNominees`: the links of category c, in link order, each mapped to the
      first nominee with its id; links whose nominee is not in the list are dropped. */
  function CategoryNominees(links: seq<NomineeCategory>, nominees: seq<Nominee>, c: Id): (r: seq<Nominee>)
    ensures |r| <= |links|
  {
    if links == [] then []
    else
      var l := links[|links| - 1];
      var pre := CategoryNominees(links[..|links| - 1], nominees, c);
      if l.categoryId == c then
        match Find(nominees, NomineeId, l.nomineeId)
        case Some(n) => pre + [n]
        case None => pre
      else pre
  }

  /** Every nominee listed is loaded and linked to c, and every link of c whose nominee
      is loaded contributes that nominee. */
  lemma CategoryNomineesSpec(links: seq<NomineeCategory>, nominees: seq<Nominee>, c: Id)
    ensures var r := CategoryNominees(links, nominees, c);
            (forall i :: 0 <= i < |r| ==> r[i] in nominees && NomineeCategory(r[i].id, c) in links) &&
            (forall l :: l in links && l.categoryId == c && Find(nominees, NomineeId, l.nomineeId).Some? ==>
               Find(nominees, NomineeId, l.nomineeId).value in r)
  {
    CategoryNomineesSound(links, nominees, c);
    CategoryNomineesComplete(links, nominees, c);
    var r := CategoryNominees(links, nominees, c);
    assert forall i :: 0 <= i < |r| ==> r[i] in r;
  }

  lemma {:induction false} CategoryNomineesSound(links: seq<NomineeCategory>, nominees: seq<Nominee>, c: Id)
    ensures forall x :: x in CategoryNominees(links, nominees, c) ==> x in nominees && NomineeCategory(x.id, c) in links
  {
    if links != [] {
      var pre, l := links[..|links| - 1], links[|links| - 1];
      CategoryNomineesSound(pre, nominees, c);
      var found := Find(nominees, NomineeId, l.nomineeId);
      assert CategoryNominees(links, nominees, c) ==
             CategoryNominees(pre, nominees, c) + (if l.categoryId == c && found.Some? then [found.value] else []);
      assert links == pre + [l];
    }
  }

  lemma {:induction false} CategoryNomineesComplete(links: seq<NomineeCategory>, nominees: seq<Nominee>, c: Id)
    ensures forall l :: l in links && l.categoryId == c && Find(nominees, NomineeId, l.nomineeId).Some? ==>
              Find(nominees, NomineeId, l.nomineeId).value in CategoryNominees(links, nominees, c)
  {
    if links != [] {
      var pre, l := links[..|links| - 1], links[|links| - 1];
      CategoryNomineesComplete(pre, nominees, c);
      var found := Find(nominees, NomineeId, l.nomineeId);
      assert CategoryNominees(links, nominees, c) ==
             CategoryNominees(pre, nominees, c) + (if l.categoryId == c && found.Some? then [found.value] else []);
      assert links == pre + [l];
    }
  }

  /** `getNomineeCategories`: the same resolution from a nominee's links to categories. */
  function NomineeCategories(links: seq<NomineeCategory>, categories: seq<Category>, n: Id): (r: seq<Category>)
    ensures |r| <= |links|
  {
    if links == [] then []
    else
      var l := links[|links| - 1];
      var pre := NomineeCategories(links[..|links| - 1], categories, n);
      if l.nomineeId == n then
        match Find(categories, CategoryId, l.categoryId)
        case Some(x) => pre + [x]
        case None => pre
      else pre
  }

  lemma NomineeCategoriesSpec(links: seq<NomineeCategory>, categories: seq<Category>, n: Id)
    ensures var r := NomineeCategories(links, categories, n);
            (forall i :: 0 <= i < |r| ==> r[i] in categories && NomineeCategory(n, r[i].id) in links) &&
            (forall l :: l in links && l.nomineeId == n && Find(categories, CategoryId, l.categoryId).Some? ==>
               Find(categories, CategoryId, l.categoryId).value in r)
  {
    NomineeCategoriesSound(links, categories, n);
    NomineeCategoriesComplete(links, categories, n);
    var r := NomineeCategories(links, categories, n);
    assert forall i :: 0 <= i < |r| ==> r[i] in r;
  }

  lemma {:induction false} NomineeCategoriesSound(links: seq<NomineeCategory>, categories: seq<Category>, n: Id)
    ensures forall x :: x in NomineeCategories(links, categories, n) ==> x in categories && NomineeCategory(n, x.id) in links
  {
    if links != [] {
      var pre, l := links[..|links| - 1], links[|links| - 1];
      NomineeCategoriesSound(pre, categories, n);
      var found := Find(categories, CategoryId, l.categoryId);
      assert NomineeCategories(links, categories, n) ==
             NomineeCategories(pre, categories, n) + (if l.nomineeId == n && found.Some? then [found.value] else []);
      assert links == pre + [l];
    }
  }

  lemma {:induction false} NomineeCategoriesComplete(links: seq<NomineeCategory>, categories: seq<Category>, n: Id)
    ensures forall l :: l in links && l.nomineeId == n && Find(categories, CategoryId, l.categoryId).Some? ==>
              Find(categories, CategoryId, l.categoryId).value in NomineeCategories(links, categories, n)
  {
    if links != [] {
      var pre, l := links[..|links| - 1], links[|links| - 1];
      NomineeCategoriesComplete(pre, categories, n);
      var found := Find(categories, CategoryId, l.categoryId);
      assert NomineeCategories(links, categories, n) ==
             NomineeCategories(pre, categories, n) + (if l.nomineeId == n && found.Some? then [found.value] else []);
      assert links == pre + [l];
    }
  }

  /** Resolution goes link by link: the result for two batches of links is the result
      for the first followed by the result for the second, so link order is kept. */
  lemma {:induction false} CategoryNomineesConcat(a: seq<NomineeCategory>, b: seq<NomineeCategory>, nominees: seq<Nominee>, c: Id)
    ensures CategoryNominees(a + b, nominees, c) == CategoryNominees(a, nominees, c) + CategoryNominees(b, nominees, c)
  {
    if b == [] {
      assert a + b == a;
    } else {
      assert (a + b)[..|a + b| - 1] == a + b[..|b| - 1];
      CategoryNomineesConcat(a, b[..|b| - 1], nominees, c);
    }
  }

  lemma {:induction false} NomineeCategoriesConcat(a: seq<NomineeCategory>, b: seq<NomineeCategory>, categories: seq<Category>, n: Id)
    ensures NomineeCategories(a + b, categories, n) == NomineeCategories(a, categories, n) + NomineeCategories(b, categories, n)
  {
    if b == [] {
      assert a + b == a;
    } else {
      assert (a + b)[..|a + b| - 1] == a + b[..|b| - 1];
      NomineeCategoriesConcat(a, b[..|b| - 1], categories, n);
    }
  }

  /** A single link of category c contributes its nominee exactly when the nominee is
      listed, and a link of another category contributes nothing. */
  lemma CategoryNomineesOne(l: NomineeCategory, nominees: seq<Nominee>, c: Id)
    ensures CategoryNominees([l], nominees, c) ==
            if l.categoryId == c && Find(nominees, NomineeId, l.nomineeId).Some?
            then [Find(nominees, NomineeId, l.nomineeId).value] else []
  {
    assert [l][..0] == [];
  }

  /** With no link for c, category c has no nominees; with every link for c resolvable,
      it lists one nominee per link. */
  lemma {:induction false} CategoryNomineesCount(links: seq<NomineeCategory>, nominees: seq<Nominee>, c: Id)
    ensures |CategoryNominees(links, nominees, c)| <= |LinksOf(links, c)|
    ensures (forall i :: 0 <= i < |links| && links[i].categoryId == c ==>
               Find(nominees, NomineeId, links[i].nomineeId).Some?)
            ==> |CategoryNominees(links, nominees, c)| == |LinksOf(links, c)|
  {
    if links != [] {
      CategoryNomineesCount(links[..|links| - 1], nominees, c);
    }
  }

  /** `links.filter((nc) => nc.category_id === c)`. */
  function LinksOf(links: seq<NomineeCategory>, c: Id): (r: seq<NomineeCategory>)
    ensures |r| <= |links|
  {
    if links == [] then []
    else LinksOf(links[..|links| - 1], c) + (if links[|links| - 1].categoryId == c then [links[|links| - 1]] else [])
  }

  /** The filter keeps exactly the links of category c. */
  lemma {:induction false} LinksOfSpec(links: seq<NomineeCategory>, c: Id)
    ensures var r := LinksOf(links, c);
            (forall i :: 0 <= i < |r| ==> r[i] in links && r[i].categoryId == c) &&
            (forall l :: l in links && l.categoryId == c ==> l in r)
  {
    if links != [] {
      var pre, last := links[..|links| - 1], links[|links| - 1];
      LinksOfSpec(pre, c);
      var front, r := LinksOf(pre, c), LinksOf(links, c);
      assert r == front + (if last.categoryId == c then [last] else []);
      assert links == pre + [last];
      forall i | 0 <= i < |r| ensures r[i] in links && r[i].categoryId == c {
        if i < |front| {
          assert r[i] == front[i];
        }
      }
    }
  }

  /** `links.filter((nc) => nc.nominee_id === n)`. */
  function LinksOfNominee(links: seq<NomineeCategory>, n: Id): (r: seq<NomineeCategory>)
    ensures |r| <= |links|
  {
    if links == [] then []
    else LinksOfNominee(links[..|links| - 1], n) + (if links[|links| - 1].nomineeId == n then [links[|links| - 1]] else [])
  }

  /** The filter keeps exactly the links of nominee n. */
  lemma {:induction false} LinksOfNomineeSpec(links: seq<NomineeCategory>, n: Id)
    ensures var r := LinksOfNominee(links, n);
            (forall i :: 0 <= i < |r| ==> r[i] in links && r[i].nomineeId == n) &&
            (forall l :: l in links && l.nomineeId == n ==> l in r)
  {
    if links != [] {
      var pre, last := links[..|links| - 1], links[|links| - 1];
      LinksOfNomineeSpec(pre, n);
      var front, r := LinksOfNominee(pre, n), LinksOfNominee(links, n);
      assert r == front + (if last.nomineeId == n then [last] else []);
      assert links == pre + [last];
      forall i | 0 <= i < |r| ensures r[i] in links && r[i].nomineeId == n {
        if i < |front| {
          assert r[i] == front[i];
        }
      }
    }
  }

  lemma {:induction false} LinksOfConcat(a: seq<NomineeCategory>, b: seq<NomineeCategory>, c: Id)
    ensures LinksOf(a + b, c) == LinksOf(a, c) + LinksOf(b, c)
  {
    if b == [] {
      assert a + b == a;
    } else {
      assert (a + b)[..|a + b| - 1] == a + b[..|b| - 1];
      LinksOfConcat(a, b[..|b| - 1], c);
    }
  }

  lemma {:induction false} LinksOfNomineeConcat(a: seq<NomineeCategory>, b: seq<NomineeCategory>, n: Id)
    ensures LinksOfNominee(a + b, n) == LinksOfNominee(a, n) + LinksOfNominee(b, n)
  {
    if b == [] {
      assert a + b == a;
    } else {
      assert (a + b)[..|a + b| - 1] == a + b[..|b| - 1];
      LinksOfNomineeConcat(a, b[..|b| - 1], n);
    }
  }

  /** On links that all belong to category c, the filter for c keeps everything and the
      filter for any other category keeps nothing. */
  lemma LinksOfUniform(s: seq<NomineeCategory>, c: Id, d: Id)
    requires forall i :: 0 <= i < |s| ==> s[i].categoryId == c
    ensures LinksOf(s, d) == if d == c then s else []
  {
    if d == c {
      LinksOfUniformAll(s, c);
    } else {
      LinksOfUniformNone(s, c, d);
    }
  }

  lemma {:induction false} LinksOfUniformAll(s: seq<NomineeCategory>, c: Id)
    requires forall i :: 0 <= i < |s| ==> s[i].categoryId == c
    ensures LinksOf(s, c) == s
  {
    if s != [] {
      var pre, last := s[..|s| - 1], s[|s| - 1];
      LinksOfUniformAll(pre, c);
      assert LinksOf(s, c) == pre + [last];
      assert s == pre + [last];
    }
  }

  lemma {:induction false} LinksOfUniformNone(s: seq<NomineeCategory>, c: Id, d: Id)
    requires d != c
    requires forall i :: 0 <= i < |s| ==> s[i].categoryId == c
    ensures LinksOf(s, d) == []
  {
    if s != [] {
      var pre, last := s[..|s| - 1], s[|s| - 1];
      LinksOfUniformNone(pre, c, d);
      assert last.categoryId != d;
    }
  }

  /** The same for links that all belong to nominee n. */
  lemma LinksOfNomineeUniform(s: seq<NomineeCategory>, n: Id, m: Id)
    requires forall i :: 0 <= i < |s| ==> s[i].nomineeId == n
    ensures LinksOfNominee(s, m) == if m == n then s else []
  {
    if m == n {
      LinksOfNomineeUniformAll(s, n);
    } else {
      LinksOfNomineeUniformNone(s, n, m);
    }
  }

  lemma {:induction false} LinksOfNomineeUniformAll(s: seq<NomineeCategory>, n: Id)
    requires forall i :: 0 <= i < |s| ==> s[i].nomineeId == n
    ensures LinksOfNominee(s, n) == s
  {
    if s != [] {
      var pre, last := s[..|s| - 1], s[|s| - 1];
      LinksOfNomineeUniformAll(pre, n);
      assert LinksOfNominee(s, n) == pre + [last];
      assert s == pre + [last];
    }
  }

  lemma {:induction false} LinksOfNomineeUniformNone(s: seq<NomineeCategory>, n: Id, m: Id)
    requires m != n
    requires forall i :: 0 <= i < |s| ==> s[i].nomineeId == n
    ensures LinksOfNominee(s, m) == []
  {
    if s != [] {
      var pre, last := s[..|s| - 1], s[|s| - 1];
      LinksOfNomineeUniformNone(pre, n, m);
      assert last.nomineeId != m;
    }
  }

  /** `.eq("is_active", true)` on the nominees table. */
  function ActiveNominees(ns: seq<Nominee>): (r: seq<Nominee>)
    ensures |r| <= |ns|
    ensures forall i :: 0 <= i < |r| ==> r[i].isActive && r[i] in ns
    ensures forall n :: n in ns && n.isActive ==> n in r
  {
    if ns == [] then []
    else ActiveNominees(ns[..|ns| - 1]) + (if ns[|ns| - 1].isActive then [ns[|ns| - 1]] else [])
  }
}
