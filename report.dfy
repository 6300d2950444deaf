/** The performance report (server.js:259-307): marks grouped by student
    category with total, pass and fail counts, and the grand totals summed
    over the category rows. */
module Report {
  import opened Schema
  import opened Rows
  import opened Queries

  /** `m.marks >= 40` passes, `m.marks < 40` fails. */
  const PassMark: int := 40

  /** A (total, pass, fail) triple: the `totals` object, or one category's counts. */
  datatype Totals = Totals(total: nat, pass: nat, fail: nat)

  /** One row of `categoryStats`: `SELECT s.category, COUNT(*), SUM(pass), SUM(fail) ... GROUP BY s.category`. */
  datatype CategoryStat = CategoryStat(category: string, total: nat, pass: nat, fail: nat)

  /** `passPercentage`: 0 when no mark matched, otherwise pass / total (formatting left out). */
  datatype Percentage = NoMarks | Ratio(pass: nat, total: nat)

  /** The response of GET /api/reports/performance. */
  datatype PerformanceResponse = PerformanceResponse(
    categoryStats: seq<CategoryStat>, totals: Totals, passPercentage: Percentage)

  const Zero := Totals(0, 0, 0)

  function Plus(a: Totals, b: Totals): (t: Totals)
  {
    Totals(a.total + b.total, a.pass + b.pass, a.fail + b.fail)
  }

  /** What one mark adds to its group: one row, and one pass or one fail. */
  function CountOne(score: int): (t: Totals)
  {
    if score >= PassMark then Totals(1, 1, 0) else Totals(1, 0, 1)
  }

  function CountsOf(g: CategoryStat): Totals { Totals(g.total, g.pass, g.fail) }

  function StatCategory(g: CategoryStat): string { g.category }

  /** Consistent counts: every counted mark is a pass or a fail. */
  predicate Balanced(t: Totals) { t.pass + t.fail == t.total }

  /** Reference definition: the counts of the joined rows of category `c`. */
  function Tally(rows: seq<Joined>, c: string): (t: Totals)
    ensures Balanced(t) && t.total <= |rows|
  {
    if rows == [] then Zero
    else
      var last := rows[|rows| - 1];
      var before := Tally(rows[..|rows| - 1], c);
      if last.student.category == c then Plus(before, CountOne(last.mark.marks)) else before
  }

  /** Reference definition: the counts over all joined rows, whatever their category. */
  function TallyAll(rows: seq<Joined>): (t: Totals)
    ensures Balanced(t) && t.total == |rows|
  {
    if rows == [] then Zero
    else Plus(TallyAll(rows[..|rows| - 1]), CountOne(rows[|rows| - 1].mark.marks))
  }

  /** The counts of the first group of category `c`, or zero when there is none. */
  function Lookup(groups: seq<CategoryStat>, c: string): (t: Totals)
  {
    if groups == [] then Zero
    else if groups[0].category == c then CountsOf(groups[0])
    else Lookup(groups[1..], c)
  }

  /** Adds one mark of category `c` to the groups: its group is counted up,
      or a new group is opened at the end. */
  function Bump(groups: seq<CategoryStat>, c: string, score: int): (r: seq<CategoryStat>)
  {
    var one := CountOne(score);
    if groups == [] then [CategoryStat(c, one.total, one.pass, one.fail)]
    else if groups[0].category == c then
      [groups[0].(total := groups[0].total + one.total,
                   pass := groups[0].pass + one.pass,
                   fail := groups[0].fail + one.fail)] + groups[1..]
    else [groups[0]] + Bump(groups[1..], c, score)
  }

  /** `GROUP BY s.category`, with groups in order of first appearance. */
  function GroupByCategory(rows: seq<Joined>): (g: seq<CategoryStat>)
    ensures |g| <= |rows|
    ensures g == [] <==> rows == []
  {
    if rows == [] then []
    else
      var last := rows[|rows| - 1];
      BumpLength(GroupByCategory(rows[..|rows| - 1]), last.student.category, last.mark.marks);
      Bump(GroupByCategory(rows[..|rows| - 1]), last.student.category, last.mark.marks)
  }

  /** Counting a mark up adds at most one group. */
  lemma {:induction false} BumpLength(groups: seq<CategoryStat>, c: string, score: int)
    ensures |groups| <= |Bump(groups, c, score)| <= |groups| + 1
  {
    if groups != [] && groups[0].category != c {
      BumpLength(groups[1..], c, score);
    }
  }

  /** The grand totals: the category rows summed field by field. */
  function SumStats(groups: seq<CategoryStat>): (t: Totals)
  {
    if groups == [] then Zero else Plus(CountsOf(groups[0]), SumStats(groups[1..]))
  }

  lemma {:induction false} BumpLookup(groups: seq<CategoryStat>, c: string, score: int, d: string)
    ensures Lookup(Bump(groups, c, score), d) ==
            if d == c then Plus(Lookup(groups, c), CountOne(score)) else Lookup(groups, d)
  {
    if groups != [] && groups[0].category != c {
      BumpLookup(groups[1..], c, score, d);
    }
  }

  lemma {:induction false} BumpSum(groups: seq<CategoryStat>, c: string, score: int)
    ensures SumStats(Bump(groups, c, score)) == Plus(SumStats(groups), CountOne(score))
  {
    var one := CountOne(score);
    if groups == [] {
      var g := CategoryStat(c, one.total, one.pass, one.fail);
      assert Bump(groups, c, score) == [g] + [];
      SumCons(g, []);
    } else if groups[0].category == c {
      var g := groups[0];
      var g' := g.(total := g.total + one.total, pass := g.pass + one.pass, fail := g.fail + one.fail);
      assert Bump(groups, c, score) == [g'] + groups[1..];
      SumCons(g', groups[1..]);
      SumCons(g, groups[1..]);
      assert groups == [g] + groups[1..];
    } else {
      var g := groups[0];
      assert Bump(groups, c, score) == [g] + Bump(groups[1..], c, score);
      SumCons(g, Bump(groups[1..], c, score));
      SumCons(g, groups[1..]);
      assert groups == [g] + groups[1..];
      BumpSum(groups[1..], c, score);
    }
  }

  lemma SumCons(g: CategoryStat, rest: seq<CategoryStat>)
    ensures SumStats([g] + rest) == Plus(CountsOf(g), SumStats(rest))
  {
    assert ([g] + rest)[1..] == rest;
  }

  /** Counting a mark up keeps the group categories in place; a new category goes at the end. */
  lemma {:induction false} BumpShape(groups: seq<CategoryStat>, c: string, score: int)
    ensures c in KeysOf(groups, StatCategory) ==>
              |Bump(groups, c, score)| == |groups| &&
              forall i :: 0 <= i < |groups| ==> Bump(groups, c, score)[i].category == groups[i].category
    ensures c !in KeysOf(groups, StatCategory) ==>
              Bump(groups, c, score) == groups + [CategoryStat(c, CountOne(score).total, CountOne(score).pass, CountOne(score).fail)]
  {
    if groups != [] && groups[0].category != c {
      var rest := groups[1..];
      assert KeysOf(groups, StatCategory) == {groups[0].category} + KeysOf(rest, StatCategory) by {
        forall x | x in KeysOf(groups, StatCategory)
          ensures x in {groups[0].category} + KeysOf(rest, StatCategory) {
          var i :| 0 <= i < |groups| && StatCategory(groups[i]) == x;
          if i > 0 { assert StatCategory(rest[i - 1]) == x; }
        }
        forall x | x in KeysOf(rest, StatCategory) ensures x in KeysOf(groups, StatCategory) {
          var i :| 0 <= i < |rest| && StatCategory(rest[i]) == x;
          assert StatCategory(groups[i + 1]) == x;
        }
      }
      BumpShape(rest, c, score);
    }
  }

  lemma BumpDistinct(groups: seq<CategoryStat>, c: string, score: int)
    requires DistinctBy(groups, StatCategory)
    ensures DistinctBy(Bump(groups, c, score), StatCategory)
  {
    BumpShape(groups, c, score);
    var b := Bump(groups, c, score);
    if c !in KeysOf(groups, StatCategory) {
      forall i, j | 0 <= i < j < |b| ensures StatCategory(b[i]) != StatCategory(b[j]) {
        if j == |groups| {
          assert StatCategory(groups[i]) in KeysOf(groups, StatCategory);
        }
      }
    }
  }

  /** Under distinct categories, a group's own counts are what lookup finds. */
  lemma {:induction false} LookupDistinct(groups: seq<CategoryStat>, i: int)
    requires DistinctBy(groups, StatCategory)
    requires 0 <= i < |groups|
    ensures Lookup(groups, groups[i].category) == CountsOf(groups[i])
  {
    if i > 0 {
      assert StatCategory(groups[0]) != StatCategory(groups[i]);
      var rest := groups[1..];
      assert DistinctBy(rest, StatCategory) by {
        forall a, b | 0 <= a < b < |rest| ensures StatCategory(rest[a]) != StatCategory(rest[b]) {
          assert rest[a] == groups[a + 1] && rest[b] == groups[b + 1];
        }
      }
      LookupDistinct(rest, i - 1);
    }
  }

  function JoinedCategory(j: Joined): string { j.student.category }

  /** Grouping keeps one row per category and counts for each category exactly its marks. */
  lemma {:induction false} GroupCounts(rows: seq<Joined>, c: string)
    ensures Lookup(GroupByCategory(rows), c) == Tally(rows, c)
  {
    if rows != [] {
      var last := rows[|rows| - 1];
      GroupCounts(rows[..|rows| - 1], c);
      BumpLookup(GroupByCategory(rows[..|rows| - 1]), last.student.category, last.mark.marks, c);
    }
  }

  lemma {:induction false} GroupDistinct(rows: seq<Joined>)
    ensures DistinctBy(GroupByCategory(rows), StatCategory)
  {
    if rows != [] {
      var last := rows[|rows| - 1];
      GroupDistinct(rows[..|rows| - 1]);
      BumpDistinct(GroupByCategory(rows[..|rows| - 1]), last.student.category, last.mark.marks);
    }
  }

  /** The categories of the groups are exactly the categories of the matched marks. */
  lemma {:induction false} GroupCategories(rows: seq<Joined>)
    ensures KeysOf(GroupByCategory(rows), StatCategory) == KeysOf(rows, JoinedCategory)
  {
    if rows != [] {
      var n := |rows|;
      var c := rows[n - 1].student.category;
      var g := GroupByCategory(rows[..n - 1]);
      var b := GroupByCategory(rows);
      GroupCategories(rows[..n - 1]);
      KeysOfSnoc(rows, JoinedCategory);
      BumpShape(g, c, rows[n - 1].mark.marks);
      if c in KeysOf(g, StatCategory) {
        KeysOfPointwise(b, g, StatCategory);
      } else {
        assert b[..|b| - 1] == g;
        KeysOfSnoc(b, StatCategory);
      }
    }
  }

  /** Each category row of the report: its counts are those of its category's
      marks, pass + fail = total, categories are distinct, and every category
      among the marks has a row. */
  lemma GroupByCategoryCorrect(rows: seq<Joined>)
    ensures DistinctBy(GroupByCategory(rows), StatCategory)
    ensures KeysOf(GroupByCategory(rows), StatCategory) == KeysOf(rows, JoinedCategory)
    ensures forall i :: 0 <= i < |GroupByCategory(rows)| ==>
              CountsOf(GroupByCategory(rows)[i]) == Tally(rows, GroupByCategory(rows)[i].category) &&
              Balanced(CountsOf(GroupByCategory(rows)[i]))
  {
    var g := GroupByCategory(rows);
    GroupDistinct(rows);
    GroupCategories(rows);
    forall i | 0 <= i < |g| ensures CountsOf(g[i]) == Tally(rows, g[i].category) {
      LookupDistinct(g, i);
      GroupCounts(rows, g[i].category);
    }
  }

  /** Summing the category rows gives the counts over all matched marks. */
  lemma {:induction false} GroupSums(rows: seq<Joined>)
    ensures SumStats(GroupByCategory(rows)) == TallyAll(rows)
  {
    if rows != [] {
      var last := rows[|rows| - 1];
      GroupSums(rows[..|rows| - 1]);
      BumpSum(GroupByCategory(rows[..|rows| - 1]), last.student.category, last.mark.marks);
    }
  }

  lemma {:induction false} SumSnoc(groups: seq<CategoryStat>, g: CategoryStat)
    ensures SumStats(groups + [g]) == Plus(SumStats(groups), CountsOf(g))
  {
    if groups != [] {
      assert (groups + [g])[1..] == groups[1..] + [g];
      SumSnoc(groups[1..], g);
    }
  }

  /** Balanced category rows give balanced grand totals. */
  lemma {:induction false} SumBalanced(groups: seq<CategoryStat>)
    requires forall i :: 0 <= i < |groups| ==> Balanced(CountsOf(groups[i]))
    ensures Balanced(SumStats(groups))
  {
    if groups != [] {
      SumBalanced(groups[1..]);
    }
  }

  /** The `rows.reduce` of server.js:294-299: `acc.total/pass/fail` are
      incremented in place for every category row. */
  method SumCategoryRows(rows: seq<CategoryStat>) returns (acc: Totals)
    ensures acc == SumStats(rows)
    ensures (forall i :: 0 <= i < |rows| ==> Balanced(CountsOf(rows[i]))) ==> Balanced(acc)
  {
    acc := Totals(0, 0, 0);
    for i := 0 to |rows|
      invariant acc == SumStats(rows[..i])
    {
      SumSnoc(rows[..i], rows[i]);
      assert rows[..i + 1] == rows[..i] + [rows[i]];
      acc := acc.(total := acc.total + rows[i].total);
      acc := acc.(pass := acc.pass + rows[i].pass);
      acc := acc.(fail := acc.fail + rows[i].fail);
    }
    assert rows[..|rows|] == rows;
    if forall i :: 0 <= i < |rows| ==> Balanced(CountsOf(rows[i])) {
      SumBalanced(rows);
    }
  }

  /** `totals.total > 0 ? pass / total * 100 : 0`. */
  function PassPercentage(t: Totals): (p: Percentage)
    ensures p.NoMarks? <==> t.total == 0
    ensures p.Ratio? ==> p == Ratio(t.pass, t.total)
  {
    if t.total > 0 then Ratio(t.pass, t.total) else NoMarks
  }
}
