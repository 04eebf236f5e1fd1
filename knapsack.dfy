/*
 * Choosing dishes within a budget: the greedy calories-per-cost selection and the 0/1
 * knapsack dynamic programme with backtracking (task_6.py).
 *
 * The menu dictionary is a sequence of entries in insertion order; each entry carries its
 * key (the dish name).  The returned dictionaries are sequences of entries in the order the
 * source inserts them.
 */
module Knapsack {

  datatype Result<T> = Success(value: T) | Failure(error: string)

  /** A menu entry: the dish name with its cost and calories. */
  datatype Item = Item(name: string, cost: int, calories: int)

  /** An entry of the greedy pass's list, with its calories-per-cost ratio. */
  datatype RatioItem = RatioItem(name: string, cost: int, calories: int, ratio: real)

  function Max(a: int, b: int): int
  {
    if a < b then b else a
  }

  /** Total cost of a selection. */
  function CostOf(s: seq<Item>): int
  {
    if s == [] then 0 else s[0].cost + CostOf(s[1..])
  }

  /** Total calories of a selection. */
  function CaloriesOf(s: seq<Item>): int
  {
    if s == [] then 0 else s[0].calories + CaloriesOf(s[1..])
  }

  lemma {:induction false} TotalsConcat(a: seq<Item>, b: seq<Item>)
    ensures CostOf(a + b) == CostOf(a) + CostOf(b)
    ensures CaloriesOf(a + b) == CaloriesOf(a) + CaloriesOf(b)
    decreases |a|
  {
    if a == [] {
      assert a + b == b;
    } else {
      assert (a + b)[0] == a[0];
      assert (a + b)[1..] == a[1..] + b;
      TotalsConcat(a[1..], b);
    }
  }

  /** Removing the entry at k takes its cost and calories off the totals. */
  lemma {:induction false} TotalsRemove(s: seq<Item>, k: nat)
    requires k < |s|
    ensures CostOf(s) == CostOf(s[..k] + s[k + 1..]) + s[k].cost
    ensures CaloriesOf(s) == CaloriesOf(s[..k] + s[k + 1..]) + s[k].calories
  {
    assert s == s[..k] + ([s[k]] + s[k + 1..]);
    TotalsConcat(s[..k], [s[k]] + s[k + 1..]);
    TotalsConcat([s[k]], s[k + 1..]);
    TotalsConcat(s[..k], s[k + 1..]);
    assert [s[k]][1..] == [];
  }

  predicate NonNegativeCosts(items: seq<Item>)
  {
    forall k :: 0 <= k < |items| ==> items[k].cost >= 0
  }

  predicate DistinctNames(items: seq<Item>)
  {
    forall j, k :: 0 <= j < k < |items| ==> items[j].name != items[k].name
  }

  // ---------------------------------------------------------------------------
  // greedy_algorithm
  // ---------------------------------------------------------------------------

  predicate NoZeroCost(items: seq<Item>)
  {
    forall k :: 0 <= k < |items| ==> items[k].cost != 0
  }

  /** The list entry for a dish: its details and calories / cost as an exact ratio. */
  function WithRatio(it: Item): (r: RatioItem)
    requires it.cost != 0
    ensures Details(r) == it
    ensures r.ratio * it.cost as real == it.calories as real
  {
    RatioItem(it.name, it.cost, it.calories, it.calories as real / it.cost as real)
  }

  /** The dictionary entry a list entry was made from. */
  function Details(r: RatioItem): Item
  {
    Item(r.name, r.cost, r.calories)
  }

  /** The list built from the menu, in menu order. */
  function Ratioed(items: seq<Item>): seq<RatioItem>
    requires NoZeroCost(items)
  {
    seq(|items|, k requires 0 <= k < |items| => WithRatio(items[k]))
  }

  function DetailsAll(rs: seq<RatioItem>): seq<Item>
  {
    seq(|rs|, k requires 0 <= k < |rs| => Details(rs[k]))
  }

  /** The list entries carry back exactly the menu. */
  lemma RatioedDetails(items: seq<Item>)
    requires NoZeroCost(items)
    ensures DetailsAll(Ratioed(items)) == items
  {
  }

  /** Non-increasing ratio order. */
  predicate ByRatio(s: seq<RatioItem>)
  {
    forall i, j :: 0 <= i < j < |s| ==> s[i].ratio >= s[j].ratio
  }

  /** The state of the selection loop: the chosen entries and their total cost. */
  datatype Pick = Pick(selected: seq<Item>, total: int)

  /** The selection loop over rs: an entry is taken exactly when it still fits the budget,
      and the loop goes on past an entry that does not fit. */
  function Run(rs: seq<RatioItem>, budget: int): Pick
  {
    if rs == [] then Pick([], 0)
    else
      var p := Run(rs[..|rs| - 1], budget);
      var x := rs[|rs| - 1];
      if p.total + x.cost <= budget then Pick(p.selected + [Details(x)], p.total + x.cost) else p
  }

  /** Whether the selection loop takes entry k of rs. */
  predicate Taken(rs: seq<RatioItem>, budget: int, k: nat)
    requires k < |rs|
  {
    Run(rs[..k], budget).total + rs[k].cost <= budget
  }

  /** `greedy_algorithm`: rank the dishes by calories per cost, then take each dish that still
      fits.  A zero cost makes the ratio a division by zero. */
  method GreedyAlgorithm(items: seq<Item>, budget: int) returns (r: Result<seq<Item>>, ghost order: seq<RatioItem>)
    ensures r.Failure? <==> !NoZeroCost(items)
    ensures r.Success? ==> NoZeroCost(items) && ByRatio(order) && multiset(order) == multiset(Ratioed(items))
    ensures r.Success? ==> r.value == Run(order, budget).selected
    ensures r.Success? ==> r.value == [] || CostOf(r.value) <= budget
    ensures r.Success? ==> multiset(r.value) <= multiset(items)
  {
    var a, ok := RatioList(items);
    if !ok {
      return Failure("division by zero"), [];
    }
    SortByRatio(a);
    order := a[..];
    var selected := SelectWithinBudget(a, budget);
    RunWithinBudget(order, budget);
    RunFromList(order, budget);
    DetailsPermutation(order, Ratioed(items));
    RatioedDetails(items);
    return Success(selected), order;
  }

  /** The list of entries with their ratios, in menu order; ok is false when a cost is zero. */
  method RatioList(items: seq<Item>) returns (a: array<RatioItem>, ok: bool)
    ensures fresh(a)
    ensures ok <==> NoZeroCost(items)
    ensures ok ==> a[..] == Ratioed(items)
  {
    var n := |items|;
    a := new RatioItem[n];
    var k := 0;
    while k < n
      invariant 0 <= k <= n
      invariant forall j :: 0 <= j < k ==> items[j].cost != 0 && a[j] == WithRatio(items[j])
    {
      if items[k].cost == 0 {
        return a, false;
      }
      a[k] := WithRatio(items[k]);
      k := k + 1;
    }
    return a, true;
  }

  /** The selection loop: take each entry that still fits, keeping the running totals. */
  method SelectWithinBudget(a: array<RatioItem>, budget: int) returns (selected: seq<Item>)
    ensures selected == Run(a[..], budget).selected
  {
    selected := [];
    var totalCost := 0;
    var totalCalories := 0;
    var i := 0;
    while i < a.Length
      invariant 0 <= i <= a.Length
      invariant Run(a[..i], budget) == Pick(selected, totalCost)
      invariant totalCalories == CaloriesOf(selected)
    {
      var item := a[i];
      assert a[..i + 1][..i] == a[..i];
      if totalCost + item.cost <= budget {
        TotalsConcat(selected, [Details(item)]);
        selected := selected + [Details(item)];
        totalCost := totalCost + item.cost;
        totalCalories := totalCalories + item.calories;
      }
      i := i + 1;
    }
    assert a[..a.Length] == a[..];
  }

  /** In-place sort of the list by ratio, largest first (`sort(key=ratio, reverse=True)`); the
      contract leaves the order of equal ratios open. */
  method SortByRatio(a: array<RatioItem>)
    modifies a
    ensures ByRatio(a[..])
    ensures multiset(a[..]) == multiset(old(a[..]))
  {
    var i := 0;
    while i < a.Length
      invariant 0 <= i <= a.Length
      invariant ByRatio(a[..i])
      invariant multiset(a[..]) == multiset(old(a[..]))
    {
      InsertEntry(a, i);
      i := i + 1;
    }
    assert a[..a.Length] == a[..];
  }

  /** Moves entry i left past every entry of smaller ratio, leaving a[..i + 1] in order. */
  method InsertEntry(a: array<RatioItem>, i: nat)
    requires i < a.Length && ByRatio(a[..i])
    modifies a
    ensures ByRatio(a[..i + 1])
    ensures multiset(a[..]) == multiset(old(a[..]))
    ensures a[i + 1..] == old(a[i + 1..])
  {
    StartInsert(a[..], i);
    var j := i;
    while j > 0 && a[j - 1].ratio < a[j].ratio
      invariant 0 <= j <= i
      invariant Inserting(a[..], j, i)
      invariant multiset(a[..]) == multiset(old(a[..]))
      invariant a[i + 1..] == old(a[i + 1..])
    {
      InsertStep(a[..], j, i);
      SwapBack(a, j, i);
      j := j - 1;
    }
    Inserted(a[..], j, i);
  }

  /** One swap of the inner loop: entry j trades places with entry j - 1. */
  method SwapBack(a: array<RatioItem>, j: nat, i: nat)
    requires 0 < j <= i < a.Length
    modifies a
    ensures a[..] == old(a[..])[j - 1 := old(a[j])][j := old(a[j - 1])]
    ensures a[i + 1..] == old(a[i + 1..])
  {
    a[j - 1], a[j] := a[j], a[j - 1];
  }

  lemma StartInsert(s: seq<RatioItem>, i: nat)
    requires i < |s| && ByRatio(s[..i])
    ensures Inserting(s, i, i)
  {
    forall p, q | 0 <= p < q <= i && p != i && q != i
      ensures s[p].ratio >= s[q].ratio
    {
      assert s[..i][p] == s[p] && s[..i][q] == s[q];
    }
  }

  /** Inserting entry i: everything up to i but position j is in order, and the entry at j is
      at least every entry after it. */
  ghost predicate Inserting(s: seq<RatioItem>, j: nat, i: nat)
  {
    j <= i < |s| &&
    (forall p, q :: 0 <= p < q <= i && p != j && q != j ==> s[p].ratio >= s[q].ratio) &&
    (forall q :: j < q <= i ==> s[j].ratio >= s[q].ratio)
  }

  lemma InsertStep(s: seq<RatioItem>, j: nat, i: nat)
    requires Inserting(s, j, i) && 0 < j && s[j - 1].ratio < s[j].ratio
    ensures Inserting(s[j - 1 := s[j]][j := s[j - 1]], j - 1, i)
    ensures multiset(s[j - 1 := s[j]][j := s[j - 1]]) == multiset(s)
  {
  }

  lemma Inserted(s: seq<RatioItem>, j: nat, i: nat)
    requires Inserting(s, j, i) && (j == 0 || s[j - 1].ratio >= s[j].ratio)
    ensures ByRatio(s[..i + 1])
  {
  }

  /** The loop's running total is the cost of what it took, and never passes the budget once
      something has been taken. */
  lemma {:induction false} RunWithinBudget(rs: seq<RatioItem>, budget: int)
    ensures Run(rs, budget).total == CostOf(Run(rs, budget).selected)
    ensures Run(rs, budget).selected == [] || Run(rs, budget).total <= budget
    decreases |rs|
  {
    if rs != [] {
      var p := Run(rs[..|rs| - 1], budget);
      RunWithinBudget(rs[..|rs| - 1], budget);
      TotalsConcat(p.selected, [Details(rs[|rs| - 1])]);
    }
  }

  /** The loop takes entries of the list, in list order, with their details unchanged. */
  lemma {:induction false} RunFromList(rs: seq<RatioItem>, budget: int)
    ensures multiset(Run(rs, budget).selected) <= multiset(DetailsAll(rs))
    decreases |rs|
  {
    if rs != [] {
      var m := |rs| - 1;
      RunFromList(rs[..m], budget);
      assert DetailsAll(rs) == DetailsAll(rs[..m]) + [Details(rs[m])];
    }
  }

  /** Rearranging the list rearranges the entries it carries. */
  lemma {:induction false} DetailsPermutation(a: seq<RatioItem>, b: seq<RatioItem>)
    requires multiset(a) == multiset(b)
    ensures multiset(DetailsAll(a)) == multiset(DetailsAll(b))
    decreases |a|
  {
    if a != [] {
      var x := a[0];
      assert x in multiset(b);
      var k :| 0 <= k < |b| && b[k] == x;
      var b' := b[..k] + b[k + 1..];
      Unpick(a, b, k);
      DetailsPermutation(a[1..], b');
      assert a == [x] + a[1..];
      assert b == b[..k] + ([x] + b[k + 1..]);
      DetailsConcat([x], a[1..]);
      DetailsConcat(b[..k], [x] + b[k + 1..]);
      DetailsConcat([x], b[k + 1..]);
      DetailsConcat(b[..k], b[k + 1..]);
    }
  }

  /** Taking the front of a from b, where it sits at k, leaves equal multisets. */
  lemma Unpick(a: seq<RatioItem>, b: seq<RatioItem>, k: nat)
    requires multiset(a) == multiset(b) && a != [] && k < |b| && b[k] == a[0]
    ensures multiset(a[1..]) == multiset(b[..k] + b[k + 1..])
  {
    assert a == [a[0]] + a[1..];
    assert b == b[..k] + [b[k]] + b[k + 1..];
    assert multiset(b) == multiset(b[..k]) + multiset([b[k]]) + multiset(b[k + 1..]);
    assert multiset(b[..k] + b[k + 1..]) == multiset(b[..k]) + multiset(b[k + 1..]);
    assert multiset(a) == multiset([a[0]]) + multiset(a[1..]);
    assert multiset([a[0]]) == multiset([b[k]]);
    assert multiset(a[1..]) == multiset(a) - multiset([a[0]]);
    assert multiset(b[..k] + b[k + 1..]) == multiset(b) - multiset([b[k]]);
  }

  lemma DetailsConcat(a: seq<RatioItem>, b: seq<RatioItem>)
    ensures DetailsAll(a + b) == DetailsAll(a) + DetailsAll(b)
  {
  }

  /** The totals only grow along the run when costs are non-negative. */
  lemma {:induction false} RunGrows(rs: seq<RatioItem>, budget: int, k: nat)
    requires k <= |rs| && forall j :: 0 <= j < |rs| ==> rs[j].cost >= 0
    ensures Run(rs[..k], budget).total <= Run(rs, budget).total
    decreases |rs|
  {
    if k < |rs| {
      var m := |rs| - 1;
      assert rs[..m][..k] == rs[..k];
      RunGrows(rs[..m], budget, k);
    } else {
      assert rs[..k] == rs;
    }
  }

  /** A dish the loop passes over does not fit even in what is left of the budget at the end:
      skipping is not stopping, and with non-negative costs the selection is maximal. */
  lemma {:induction false} GreedyMaximal(rs: seq<RatioItem>, budget: int, k: nat)
    requires k < |rs| && forall j :: 0 <= j < |rs| ==> rs[j].cost >= 0
    requires !Taken(rs, budget, k)
    ensures Run(rs, budget).total + rs[k].cost > budget
  {
    RunGrows(rs, budget, k);
  }

  /** Entry k is taken exactly when it fits what the entries before it left of the budget;
      the selection is then extended by it and by nothing else. */
  lemma {:induction false} TakenStep(rs: seq<RatioItem>, budget: int, k: nat)
    requires k < |rs|
    ensures Taken(rs, budget, k) ==>
      Run(rs[..k + 1], budget).selected == Run(rs[..k], budget).selected + [Details(rs[k])]
    ensures !Taken(rs, budget, k) ==> Run(rs[..k + 1], budget) == Run(rs[..k], budget)
  {
    assert rs[..k + 1][..k] == rs[..k];
  }

  // ---------------------------------------------------------------------------
  // dynamic_programming
  // ---------------------------------------------------------------------------

  /** The recurrence of the table: the first i dishes within cost w, each used at most once. */
  function Opt(items: seq<Item>, i: nat, w: nat): int
    requires i <= |items|
  {
    if i == 0 then 0
    else
      var it := items[i - 1];
      if it.cost <= w then Max(Opt(items, i - 1, w), Opt(items, i - 1, w - it.cost) + it.calories)
      else Opt(items, i - 1, w)
  }

  /** What the backtracking collects from row i and column w: dish i-1 whenever the row changes
      the value, then on from the column its cost leaves. */
  function Backtrack(items: seq<Item>, i: nat, w: nat): seq<Item>
    requires i <= |items|
  {
    if i == 0 then []
    else if Opt(items, i, w) != Opt(items, i - 1, w) then
      assert items[i - 1].cost <= w;
      [items[i - 1]] + Backtrack(items, i - 1, w - items[i - 1].cost)
    else Backtrack(items, i - 1, w)
  }

  /** `dynamic_programming`: fill the table, then backtrack from the last row and the full
      budget.  A negative budget or a negative cost makes the source index past a row's end. */
  method DynamicProgramming(items: seq<Item>, budget: int) returns (r: Result<seq<Item>>)
    ensures r.Failure? <==> |items| > 0 && (budget < 0 || !NonNegativeCosts(items))
    ensures r.Success? && |items| == 0 ==> r.value == []
    ensures r.Success? && |items| > 0 ==> budget >= 0 && r.value == Backtrack(items, |items|, budget)
    ensures r.Success? && |items| > 0 ==>
              CostOf(r.value) <= budget && CaloriesOf(r.value) == Opt(items, |items|, budget)
    ensures r.Success? ==> multiset(r.value) <= multiset(items)
  {
    if budget < 0 {
      if |items| == 0 {
        return Success([]);
      }
      return Failure("list index out of range");
    }
    var dp, ok := FillTable(items, budget);
    if !ok {
      return Failure("list index out of range");
    }
    var selected := Backtracking(items, budget, dp);
    BacktrackWithinBudget(items, |items|, budget);
    BacktrackCalories(items, |items|, budget);
    BacktrackFromMenu(items, |items|, budget);
    assert items[..|items|] == items;
    return Success(selected);
  }

  /** The nested loops filling the table row by row; ok is false when a negative cost sends the
      lookup `dp[i - 1][w - cost]` past the end of the row. */
  method FillTable(items: seq<Item>, budget: nat) returns (dp: array2<int>, ok: bool)
    ensures fresh(dp) && dp.Length0 == |items| + 1 && dp.Length1 == budget + 1
    ensures ok <==> NonNegativeCosts(items)
    ensures ok ==> forall i, w :: 0 <= i <= |items| && 0 <= w <= budget ==> dp[i, w] == Opt(items, i, w)
    ensures ok ==> forall w :: 0 <= w <= budget ==> dp[0, w] == 0
  {
    var n := |items|;
    dp := new int[n + 1, budget + 1]((i, w) => 0);
    var i := 1;
    while i <= n
      invariant 1 <= i <= n + 1
      invariant forall j :: 0 <= j < i - 1 ==> items[j].cost >= 0
      invariant forall r, w :: 0 <= r < i && 0 <= w <= budget ==> dp[r, w] == Opt(items, r, w)
    {
      ok := FillRow(items, budget, dp, i);
      if !ok {
        return dp, false;
      }
      i := i + 1;
    }
    return dp, true;
  }

  /** Row i of the table from row i - 1. */
  method FillRow(items: seq<Item>, budget: nat, dp: array2<int>, i: nat) returns (ok: bool)
    requires 1 <= i <= |items| && dp.Length0 == |items| + 1 && dp.Length1 == budget + 1
    requires forall r, w :: 0 <= r < i && 0 <= w <= budget ==> dp[r, w] == Opt(items, r, w)
    modifies dp
    ensures ok <==> items[i - 1].cost >= 0
    ensures forall r, w :: 0 <= r < i && 0 <= w <= budget ==> dp[r, w] == old(dp[r, w])
    ensures ok ==> forall w :: 0 <= w <= budget ==> dp[i, w] == Opt(items, i, w)
  {
    var cost := items[i - 1].cost;
    var calories := items[i - 1].calories;
    var w := 0;
    while w <= budget
      invariant 0 <= w <= budget + 1
      invariant cost < 0 ==> w == 0 || w - cost <= budget + 1
      invariant forall r, v :: 0 <= r < i && 0 <= v <= budget ==> dp[r, v] == old(dp[r, v])
      invariant forall v :: 0 <= v < w ==> dp[i, v] == Opt(items, i, v)
    {
      if cost <= w {
        if w - cost > budget {
          return false;
        }
        dp[i, w] := Max(dp[i - 1, w], dp[i - 1, w - cost] + calories);
      } else {
        dp[i, w] := dp[i - 1, w];
      }
      w := w + 1;
    }
    return true;
  }

  /** The backtracking loop over a filled table. */
  method Backtracking(items: seq<Item>, budget: nat, dp: array2<int>) returns (selected: seq<Item>)
    requires NonNegativeCosts(items)
    requires dp.Length0 == |items| + 1 && dp.Length1 == budget + 1
    requires forall i, w :: 0 <= i <= |items| && 0 <= w <= budget ==> dp[i, w] == Opt(items, i, w)
    ensures selected == Backtrack(items, |items|, budget)
  {
    selected := [];
    var w: int := budget;
    var i := |items|;
    while i > 0
      invariant 0 <= i <= |items| && 0 <= w <= budget
      invariant selected + Backtrack(items, i, w) == Backtrack(items, |items|, budget)
    {
      if dp[i, w] != dp[i - 1, w] {
        var it := items[i - 1];
        ConcatAssoc(selected, [it], Backtrack(items, i - 1, w - it.cost));
        selected := selected + [it];
        w := w - it.cost;
        if w < 0 {
          break;
        }
      }
      i := i - 1;
    }
    assert selected + [] == selected;
  }

  lemma {:induction false} ConcatAssoc<T>(a: seq<T>, b: seq<T>, c: seq<T>)
    ensures a + b + c == a + (b + c)
  {
  }

  /** The dishes collected cost at most the column backtracking starts from. */
  lemma {:induction false} BacktrackWithinBudget(items: seq<Item>, i: nat, w: nat)
    requires i <= |items|
    ensures CostOf(Backtrack(items, i, w)) <= w
  {
    if i > 0 {
      if Opt(items, i, w) != Opt(items, i - 1, w) {
        var it := items[i - 1];
        BacktrackWithinBudget(items, i - 1, w - it.cost);
        TotalsConcat([it], Backtrack(items, i - 1, w - it.cost));
        assert [it][1..] == [];
      } else {
        BacktrackWithinBudget(items, i - 1, w);
      }
    }
  }

  /** The dishes collected give exactly the table's value. */
  lemma {:induction false} BacktrackCalories(items: seq<Item>, i: nat, w: nat)
    requires i <= |items|
    ensures CaloriesOf(Backtrack(items, i, w)) == Opt(items, i, w)
  {
    if i > 0 {
      if Opt(items, i, w) != Opt(items, i - 1, w) {
        var it := items[i - 1];
        BacktrackCalories(items, i - 1, w - it.cost);
        TotalsConcat([it], Backtrack(items, i - 1, w - it.cost));
        assert [it][1..] == [];
      } else {
        BacktrackCalories(items, i - 1, w);
      }
    }
  }

  /** The dishes collected are dishes of the first i menu entries, each at most once. */
  lemma {:induction false} BacktrackFromMenu(items: seq<Item>, i: nat, w: nat)
    requires i <= |items|
    ensures multiset(Backtrack(items, i, w)) <= multiset(items[..i])
  {
    if i > 0 {
      assert items[..i] == items[..i - 1] + [items[i - 1]];
      if Opt(items, i, w) != Opt(items, i - 1, w) {
        BacktrackFromMenu(items, i - 1, w - items[i - 1].cost);
      } else {
        BacktrackFromMenu(items, i - 1, w);
      }
    }
  }

  /** A selection of dishes with non-negative costs costs at least nothing. */
  lemma {:induction false} CostNonNegative(s: seq<Item>)
    requires forall y :: y in s ==> y.cost >= 0
    ensures CostOf(s) >= 0
    decreases |s|
  {
    if s != [] {
      assert forall y :: y in s[1..] ==> y in s;
      CostNonNegative(s[1..]);
    }
  }

  /** No choice of dishes from the first i entries, each at most once and costing at most w,
      gives more calories than the table. */
  lemma {:induction false} OptUpper(items: seq<Item>, i: nat, w: nat, sel: seq<Item>)
    requires i <= |items| && NonNegativeCosts(items)
    requires multiset(sel) <= multiset(items[..i]) && CostOf(sel) <= w
    ensures CaloriesOf(sel) <= Opt(items, i, w)
    decreases i
  {
    if i == 0 {
      assert |multiset(sel)| == 0;
      assert sel == [];
    } else {
      var x := items[i - 1];
      assert items[..i] == items[..i - 1] + [x];
      if x in multiset(sel) {
        var rest := TakeDish(items, i, w, sel);
        OptUpper(items, i - 1, w - x.cost, rest);
      } else {
        OutsideOne(sel, items[..i - 1], x);
        OptUpper(items, i - 1, w, sel);
      }
    }
  }

  /** A choice that takes dish i-1 is that dish plus a choice from the first i-1 entries
      within the budget the dish leaves. */
  lemma TakeDish(items: seq<Item>, i: nat, w: nat, sel: seq<Item>) returns (rest: seq<Item>)
    requires 0 < i <= |items| && NonNegativeCosts(items)
    requires multiset(sel) <= multiset(items[..i]) && CostOf(sel) <= w
    requires items[i - 1] in multiset(sel)
    ensures multiset(rest) <= multiset(items[..i - 1])
    ensures items[i - 1].cost <= w && CostOf(rest) <= w - items[i - 1].cost
    ensures CaloriesOf(sel) == CaloriesOf(rest) + items[i - 1].calories
  {
    var x := items[i - 1];
    assert items[..i] == items[..i - 1] + [x];
    var k :| 0 <= k < |sel| && sel[k] == x;
    rest := sel[..k] + sel[k + 1..];
    RemoveOne(sel, k);
    TotalsRemove(sel, k);
    FromMenuCosts(items, i - 1, rest);
    CostNonNegative(rest);
  }

  lemma RemoveOne(s: seq<Item>, k: nat)
    requires k < |s|
    ensures multiset(s[..k] + s[k + 1..]) == multiset(s) - multiset{s[k]}
  {
    assert s == s[..k] + [s[k]] + s[k + 1..];
  }

  lemma OutsideOne(s: seq<Item>, t: seq<Item>, x: Item)
    requires multiset(s) <= multiset(t + [x]) && x !in multiset(s)
    ensures multiset(s) <= multiset(t)
  {
  }

  lemma FromMenuCosts(items: seq<Item>, i: nat, s: seq<Item>)
    requires i <= |items| && NonNegativeCosts(items)
    requires multiset(s) <= multiset(items[..i])
    ensures forall y :: y in s ==> y.cost >= 0
  {
    forall y | y in s
      ensures y.cost >= 0
    {
      assert y in multiset(items[..i]);
      var j :| 0 <= j < i && items[j] == y;
    }
  }

  /** The programme's selection is optimal: no set of menu dishes within the budget gives more
      calories. */
  lemma DynamicProgrammingOptimal(items: seq<Item>, budget: nat, sel: seq<Item>)
    requires NonNegativeCosts(items)
    requires multiset(sel) <= multiset(items) && CostOf(sel) <= budget
    ensures CaloriesOf(sel) <= CaloriesOf(Backtrack(items, |items|, budget))
  {
    assert items[..|items|] == items;
    OptUpper(items, |items|, budget, sel);
    BacktrackCalories(items, |items|, budget);
  }

  /** Whatever order the ratio sort leaves ties in, the greedy selection gives no more calories
      than the programme's when costs are positive and the budget non-negative. */
  lemma GreedyNoBetter(items: seq<Item>, budget: nat, order: seq<RatioItem>)
    requires NoZeroCost(items) && NonNegativeCosts(items)
    requires multiset(order) == multiset(Ratioed(items))
    ensures CaloriesOf(Run(order, budget).selected) <= CaloriesOf(Backtrack(items, |items|, budget))
  {
    RunWithinBudget(order, budget);
    RunFromList(order, budget);
    DetailsPermutation(order, Ratioed(items));
    RatioedDetails(items);
    DynamicProgrammingOptimal(items, budget, Run(order, budget).selected);
  }

  // ---------------------------------------------------------------------------
  // The returned dictionaries
  // ---------------------------------------------------------------------------

  /** Dishes drawn from a menu with distinct names, each at most once, have distinct names:
      every selection above is a dictionary with one key per chosen dish. */
  lemma SubDistinct(s: seq<Item>, t: seq<Item>)
    requires DistinctNames(t) && multiset(s) <= multiset(t)
    ensures DistinctNames(s)
  {
    CountOne(t);
    forall j, k | 0 <= j < k < |s|
      ensures s[j].name != s[k].name
    {
      TwoCount(s, j, k);
      assert s[j] in multiset(t) && s[k] in multiset(t);
      NameDetermines(t, s[j], s[k]);
    }
  }

  /** In a menu with distinct names every entry occurs once. */
  lemma {:induction false} CountOne(t: seq<Item>)
    requires DistinctNames(t)
    ensures forall x :: multiset(t)[x] <= 1
    decreases |t|
  {
    if t != [] {
      var m := |t| - 1;
      assert t == t[..m] + [t[m]];
      assert DistinctNames(t[..m]);
      CountOne(t[..m]);
      assert t[m] !in t[..m];
    }
  }

  /** An entry at two positions occurs at least twice. */
  lemma TwoCount(s: seq<Item>, j: nat, k: nat)
    requires j < k < |s|
    ensures s[j] == s[k] ==> multiset(s)[s[j]] >= 2
  {
    assert s == s[..k] + [s[k]] + s[k + 1..];
    assert s[j] in s[..k];
  }

  /** In a menu with distinct names an entry is determined by its name. */
  lemma NameDetermines(t: seq<Item>, x: Item, y: Item)
    requires DistinctNames(t) && x in t && y in t
    ensures x.name == y.name ==> x == y
  {
  }

  /** The programme's selection is a dictionary with one key per chosen dish. */
  lemma DynamicProgrammingKeys(items: seq<Item>, budget: nat)
    requires DistinctNames(items)
    ensures DistinctNames(Backtrack(items, |items|, budget))
  {
    BacktrackFromMenu(items, |items|, budget);
    assert items[..|items|] == items;
    SubDistinct(Backtrack(items, |items|, budget), items);
  }

  /** The greedy selection is a dictionary with one key per chosen dish. */
  lemma GreedyKeys(items: seq<Item>, budget: int, order: seq<RatioItem>)
    requires NoZeroCost(items) && DistinctNames(items)
    requires multiset(order) == multiset(Ratioed(items))
    ensures DistinctNames(Run(order, budget).selected)
  {
    RunFromList(order, budget);
    DetailsPermutation(order, Ratioed(items));
    RatioedDetails(items);
    SubDistinct(Run(order, budget).selected, items);
  }
}
