/** The admin page of the legacy vanilla-JavaScript front end (two copies of which
    share the results loop and the link form): the nested vote counters built from
    the ballots, the names shown beside them, the link form's check of its two
    selects, and the create/update switch of the category form. */
module LegacyAdmin {
  import opened Wrappers
  import opened Crud
  import Text

  // ------------------------------------------------------------ the counters

  /** The number of ballots for nominee n in category c. */
  function CountPair(results: seq<VotoCategoria>, c: int, n: int): (k: nat)
    ensures k <= |results|
    ensures k == 0 <==> VotoCategoria(n, c) !in results
  {
    if results == [] then 0
    else CountPair(results[..|results| - 1], c, n) + (if results[|results| - 1] == VotoCategoria(n, c) then 1 else 0)
  }

  lemma CountPairAppend(results: seq<VotoCategoria>, v: VotoCategoria, c: int, n: int)
    ensures CountPair(results + [v], c, n) == CountPair(results, c, n) + (if v == VotoCategoria(n, c) then 1 else 0)
  {
    assert (results + [v])[..|results|] == results;
  }

  /** What the loop has built after reading `seen`: a counter for exactly the pairs with
      a ballot, holding their number of ballots, and a category entry only for
      categories with a ballot. */
  ghost predicate CountsOf(counts: map<int, map<int, nat>>, seen: seq<VotoCategoria>) {
    (forall c :: c in counts ==> counts[c] != map[]) &&
    (forall c, n :: c in counts && n in counts[c] ==> counts[c][n] == CountPair(seen, c, n) && counts[c][n] > 0) &&
    (forall i :: 0 <= i < |seen| ==> seen[i].categoriaId in counts && seen[i].indicadoId in counts[seen[i].categoriaId])
  }

  /** One pass of the loop body, as a value: an absent category object starts empty and
      an absent (or zero) counter starts at zero, then the counter goes up by one. */
  function Step(counts: map<int, map<int, nat>>, r: VotoCategoria): map<int, map<int, nat>> {
    var inner := if r.categoriaId in counts then counts[r.categoriaId] else map[];
    var k := if r.indicadoId in inner then inner[r.indicadoId] else 0;
    counts[r.categoriaId := inner[r.indicadoId := k + 1]]
  }

  lemma StepCounts(counts: map<int, map<int, nat>>, seen: seq<VotoCategoria>, r: VotoCategoria, c: int, n: int)
    requires CountsOf(counts, seen)
    requires c in Step(counts, r) && n in Step(counts, r)[c]
    ensures Step(counts, r)[c][n] == CountPair(seen + [r], c, n)
  {
    CountPairAppend(seen, r, c, n);
  }

  lemma StepKeeps(counts: map<int, map<int, nat>>, seen: seq<VotoCategoria>, r: VotoCategoria)
    requires CountsOf(counts, seen)
    ensures CountsOf(Step(counts, r), seen + [r])
  {
    var t := Step(counts, r);
    forall c, n | c in t && n in t[c] ensures t[c][n] == CountPair(seen + [r], c, n) && t[c][n] > 0 {
      StepCounts(counts, seen, r, c, n);
    }
    var s := seen + [r];
    forall i | 0 <= i < |s| ensures s[i].categoriaId in t && s[i].indicadoId in t[s[i].categoriaId] {
      if i < |seen| {
        assert s[i] == seen[i];
      }
    }
  }

  lemma NonEmptyHasKey<V>(m: map<int, V>)
    requires m != map[]
    ensures exists k :: k in m
  {
    if forall k :: k !in m {
      assert false;
    }
  }

  ghost function Pick<V>(m: map<int, V>): (k: int)
    requires m != map[]
    ensures k in m
  {
    NonEmptyHasKey(m);
    var k :| k in m; k
  }

  /** The sum of one category's counters. */
  ghost function InnerTotal(m: map<int, nat>): nat
    decreases |m|
  {
    if m == map[] then 0 else var k := Pick(m); m[k] + InnerTotal(m - {k})
  }

  /** The sum of every counter of every category. */
  ghost function OuterTotal(m: map<int, map<int, nat>>): nat
    decreases |m|
  {
    if m == map[] then 0 else var k := Pick(m); InnerTotal(m[k]) + OuterTotal(m - {k})
  }

  /** A sum does not depend on the key it takes first. */
  lemma {:induction false} InnerTotalRemove(m: map<int, nat>, k: int)
    requires k in m
    ensures InnerTotal(m) == m[k] + InnerTotal(m - {k})
    decreases |m|
  {
    var j := Pick(m);
    if j != k {
      InnerTotalRemove(m - {j}, k);
      InnerTotalRemove(m - {k}, j);
      assert m - {j} - {k} == m - {k} - {j};
    }
  }

  lemma {:induction false} OuterTotalRemove(m: map<int, map<int, nat>>, k: int)
    requires k in m
    ensures OuterTotal(m) == InnerTotal(m[k]) + OuterTotal(m - {k})
    decreases |m|
  {
    var j := Pick(m);
    if j != k {
      OuterTotalRemove(m - {j}, k);
      OuterTotalRemove(m - {k}, j);
      assert m - {j} - {k} == m - {k} - {j};
    }
  }

  /** Raising one counter (absent counts as zero) adds one to the category's sum. */
  lemma InnerBump(inner: map<int, nat>, n: int)
    ensures InnerTotal(inner[n := (if n in inner then inner[n] else 0) + 1]) == InnerTotal(inner) + 1
  {
    var inner' := inner[n := (if n in inner then inner[n] else 0) + 1];
    InnerTotalRemove(inner', n);
    if n in inner {
      InnerTotalRemove(inner, n);
      assert inner' - {n} == inner - {n};
    } else {
      assert inner' - {n} == inner;
    }
  }

  /** Replacing one category's object changes the sum by the difference of its sums. */
  lemma OuterSet(counts: map<int, map<int, nat>>, c: int, v: map<int, nat>)
    ensures OuterTotal(counts[c := v]) + (if c in counts then InnerTotal(counts[c]) else 0) ==
            OuterTotal(counts) + InnerTotal(v)
  {
    var t := counts[c := v];
    OuterTotalRemove(t, c);
    if c in counts {
      OuterTotalRemove(counts, c);
      assert t - {c} == counts - {c};
    } else {
      assert t - {c} == counts;
    }
  }

  /** One loop pass adds one to the sum of all counters. */
  lemma StepTotal(counts: map<int, map<int, nat>>, r: VotoCategoria)
    ensures OuterTotal(Step(counts, r)) == OuterTotal(counts) + 1
  {
    var c, n := r.categoriaId, r.indicadoId;
    var inner := if c in counts then counts[c] else map[];
    InnerBump(inner, n);
    OuterSet(counts, c, inner[n := (if n in inner then inner[n] else 0) + 1]);
    assert InnerTotal(map[]) == 0;
  }

  /** The loop invariant after the first i ballots: the counters are those of the
      ballots read and they sum to i. */
  ghost predicate Built(counts: map<int, map<int, nat>>, results: seq<VotoCategoria>, i: int) {
    0 <= i <= |results| && CountsOf(counts, results[..i]) && OuterTotal(counts) == i
  }

  lemma BuiltStart(results: seq<VotoCategoria>)
    ensures Built(map[], results, 0)
  {
    assert OuterTotal(map[]) == 0;
  }

  /** The loop invariant survives one pass. */
  lemma LoopStep(counts: map<int, map<int, nat>>, results: seq<VotoCategoria>, i: int)
    requires i < |results| && Built(counts, results, i)
    ensures Built(Step(counts, results[i]), results, i + 1)
  {
    assert results[..i + 1] == results[..i] + [results[i]];
    StepKeeps(counts, results[..i], results[i]);
    StepTotal(counts, results[i]);
  }

  lemma BuiltDone(counts: map<int, map<int, nat>>, results: seq<VotoCategoria>)
    requires Built(counts, results, |results|)
    ensures CountsOf(counts, results) && OuterTotal(counts) == |results|
  {
    assert results[..|results|] == results;
  }

  /** `getResults`' loop over the ballots: `resultsByCategoria[c][n]++`, creating the
      category's object and the nominee's counter on first use. The counters are exactly
      the ballots' pairs, each holding its number of ballots, and they sum to the number
      of ballots. */
  method AggregateResults(results: seq<VotoCategoria>) returns (counts: map<int, map<int, nat>>)
    ensures CountsOf(counts, results)
    ensures OuterTotal(counts) == |results|
  {
    counts := map[];
    var i := 0;
    BuiltStart(results);
    while i < |results|
      invariant Built(counts, results, i)
    {
      var r := results[i];
      var c, n := r.categoriaId, r.indicadoId;
      ghost var before := counts;
      var inner := if c in counts then counts[c] else map[];
      var k := if n in inner then inner[n] else 0;
      counts := counts[c := inner[n := k + 1]];
      LoopStep(before, results, i);
      i := i + 1;
    }
    BuiltDone(counts, results);
  }

  // ------------------------------------------------------------ the labels

  /** `new Map(rows.map((r) => [r.id, r.nome]))`, for the categories and for the
      nominees alike: a later row with the same id wins. */
  function NameMap<R>(rows: seq<R>, id: R -> int, name: R -> string): (m: map<int, string>)
    ensures forall i :: 0 <= i < |rows| ==> id(rows[i]) in m
    ensures forall k :: k in m ==> exists i :: 0 <= i < |rows| && id(rows[i]) == k && m[k] == name(rows[i])
  {
    if rows == [] then map[] else
      var front, last := rows[..|rows| - 1], rows[|rows| - 1];
      var m := NameMap(front, id, name)[id(last) := name(last)];
      assert forall k :: k in m ==> exists i :: 0 <= i < |rows| && id(rows[i]) == k && m[k] == name(rows[i]) by {
        forall k | k in m
          ensures exists i :: 0 <= i < |rows| && id(rows[i]) == k && m[k] == name(rows[i])
        {
          if k == id(last) {
            assert id(rows[|rows| - 1]) == k;
          } else {
            var i :| 0 <= i < |front| && id(front[i]) == k && NameMap(front, id, name)[k] == name(front[i]);
            assert rows[i] == front[i];
          }
        }
      }
      m
  }

  /** `names.get(parseInt(key)) || prefix + key` for an object key: a missing or empty
      name falls back to the prefix and the key. */
  function Label(names: map<int, string>, key: string, prefix: string): string
  {
    match Text.ParseDecimal(key)
    case Some(id) => if id in names && names[id] != "" then names[id] else prefix + key
    case None => prefix + key
  }

  function CategoryLabel(names: map<int, string>, key: string): string { Label(names, key, "Categoria ") }
  function NomineeLabel(names: map<int, string>, key: string): string { Label(names, key, "Indicado ") }

  /** The counters' keys are the decimal text of the ids, which parseInt reads back, so
      the label of id is its name when it has a non-empty one and "Categoria id" or
      "Indicado id" otherwise. */
  lemma LabelOfId(names: map<int, string>, id: int)
    ensures CategoryLabel(names, Text.IntToDecimal(id)) ==
            if id in names && names[id] != "" then names[id] else "Categoria " + Text.IntToDecimal(id)
    ensures NomineeLabel(names, Text.IntToDecimal(id)) ==
            if id in names && names[id] != "" then names[id] else "Indicado " + Text.IntToDecimal(id)
  {
    Text.DecimalRoundTrip(id);
  }

  // ------------------------------------------------------------ the link form

  /** The link form's check: `parseInt` of both selects, refusing NaN (no choice made)
      and 0, which are both falsy. */
  function LinkFormIds(indicadoValue: string, categoriaValue: string): (r: Option<IndicadoCategoria>)
    ensures r.Some? <==> Text.ParseDecimal(indicadoValue).Some? && Text.ParseDecimal(indicadoValue).value != 0 &&
                         Text.ParseDecimal(categoriaValue).Some? && Text.ParseDecimal(categoriaValue).value != 0
    ensures r.Some? ==> r.value == IndicadoCategoria(Text.ParseDecimal(indicadoValue).value, Text.ParseDecimal(categoriaValue).value)
  {
    var n, c := Text.ParseDecimal(indicadoValue), Text.ParseDecimal(categoriaValue);
    if n.None? || n.value == 0 || c.None? || c.value == 0 then None
    else Some(IndicadoCategoria(n.value, c.value))
  }

  /** Choosing two existing ids (whose option values are their decimal text) sends
      exactly that link; the empty placeholder option sends nothing. */
  lemma LinkFormChoice(n: int, c: int, other: string)
    ensures n != 0 && c != 0 ==> LinkFormIds(Text.IntToDecimal(n), Text.IntToDecimal(c)) == Some(IndicadoCategoria(n, c))
    ensures LinkFormIds("", other) == None && LinkFormIds(other, "") == None
    ensures LinkFormIds("0", other) == None && LinkFormIds(other, "0") == None
  {
    Text.DecimalRoundTrip(n);
    Text.DecimalRoundTrip(c);
    Text.DecimalRoundTrip(0);
    assert Text.IntToDecimal(0) == "0";
  }

  // ------------------------------------------------------------ the category form

  datatype Request = Post | Put(id: int)

  /** The category form and the module-level `editingCategoryId`. */
  class CategoryForm {
    var editingCategoryId: Option<int>

    constructor()
      ensures editingCategoryId == None
    {
      editingCategoryId := None;
    }

    /** The Edit button, once the category has been fetched. */
    method StartEdit(id: int)
      modifies this
      ensures editingCategoryId == Some(id)
    {
      editingCategoryId := Some(id);
    }

    /** `resetCategoryForm`. */
    method Reset()
      modifies this
      ensures editingCategoryId == None
    {
      editingCategoryId := None;
    }

    /** The submit handler: `if (editingCategoryId)` sends a PUT for a truthy id and a
        POST otherwise (also for id 0); a successful request resets the form. */
    method Submit(ok: bool) returns (req: Request)
      modifies this
      ensures req == SubmitRequest(old(editingCategoryId))
      ensures editingCategoryId == if ok then None else old(editingCategoryId)
    {
      req := SubmitRequest(editingCategoryId);
      if ok {
        Reset();
      }
    }
  }

  function SubmitRequest(editing: Option<int>): (r: Request)
    ensures r.Put? <==> editing.Some? && editing.value != 0
    ensures r.Put? ==> r.id == editing.value
  {
    if editing.Some? && editing.value != 0 then Put(editing.value) else Post
  }
}
