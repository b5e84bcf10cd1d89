/*
 * The budget planner's per-category bookkeeping: the maps from category id
 * to amount built from the loaded budgets and from the suggestions, the
 * amount sent when a budget is saved, applying a suggestion, editing an
 * amount, and the figures each category card shows (percentage spent,
 * over-budget state, progress bar, suggestion hint). Amounts are exact reals.
 */
module BudgetPlanner {
  import opened Wrappers

  datatype Category = Category(id: string, name: string, color: string)

  /** A stored budget row. */
  datatype Budget = Budget(id: string, categoryId: string, amount: real, month: int, year: int)

  /** One item of the suggested budgets. */
  datatype Suggestion = Suggestion(categoryId: string, amount: real)

  /** A record from category id to amount. */
  type AmountMap = map<string, real>

  // ---------------------------------------------------------------------
  // Building a map from a list, later entries overwriting earlier ones
  // ---------------------------------------------------------------------

  /** A key and the amount written for it by one list entry. */
  datatype Entry = Entry(key: string, amount: real)

  /** The entry at `j` is the last one written for its key. */
  ghost predicate IsLastFor(entries: seq<Entry>, j: int)
    requires 0 <= j < |entries|
  {
    forall k :: j < k < |entries| ==> entries[k].key != entries[j].key
  }

  /** `m` holds exactly the keys of `entries`, each mapped to the amount of
      the last entry with that key. */
  ghost predicate LastWriteWins(entries: seq<Entry>, m: AmountMap)
  {
    && m.Keys == (set j | 0 <= j < |entries| :: entries[j].key)
    && forall j :: 0 <= j < |entries| && IsLastFor(entries, j) ==> m[entries[j].key] == entries[j].amount
  }

  /** Writing one more entry into a map that is right for a list makes it
      right for the longer list. */
  lemma LastWriteWinsStep(entries: seq<Entry>, m: AmountMap, e: Entry)
    requires LastWriteWins(entries, m)
    ensures LastWriteWins(entries + [e], m[e.key := e.amount])
  {
    var es, m' := entries + [e], m[e.key := e.amount];
    assert forall j :: 0 <= j < |entries| ==> es[j] == entries[j];
    assert es[|entries|] == e;
    assert m'.Keys == (set j | 0 <= j < |es| :: es[j].key) by {
      forall x | x in m'.Keys ensures x in (set j | 0 <= j < |es| :: es[j].key) {
        if x != e.key {
          var j :| 0 <= j < |entries| && entries[j].key == x;
          assert es[j].key == x;
        }
      }
    }
    forall j | 0 <= j < |es| && IsLastFor(es, j)
      ensures m'[es[j].key] == es[j].amount
    {
      if j < |entries| {
        assert es[j].key != e.key;
        assert IsLastFor(entries, j);
      }
    }
  }

  /** Every key of a list has a last entry. */
  lemma {:induction false} LastEntryExists(entries: seq<Entry>, j: nat)
    requires j < |entries|
    ensures exists l :: j <= l < |entries| && entries[l].key == entries[j].key && IsLastFor(entries, l)
    decreases |entries| - j
  {
    if !IsLastFor(entries, j) {
      var k :| j < k < |entries| && entries[k].key == entries[j].key;
      LastEntryExists(entries, k);
    }
  }

  /** The last-write-wins description determines the map: there is only one
      map that fits a given list. */
  lemma LastWriteWinsUnique(entries: seq<Entry>, m1: AmountMap, m2: AmountMap)
    requires LastWriteWins(entries, m1) && LastWriteWins(entries, m2)
    ensures m1 == m2
  {
    forall x | x in m1 ensures m1[x] == m2[x] {
      var j :| 0 <= j < |entries| && entries[j].key == x;
      LastEntryExists(entries, j);
    }
  }

  /** The entry a loaded budget writes: its category id and its amount. */
  function BudgetEntry(b: Budget): Entry { Entry(b.categoryId, b.amount) }

  /** The entry a suggested item writes: its category id and its amount. */
  function SuggestionEntry(item: Suggestion): Entry { Entry(item.categoryId, item.amount) }

  /** The entries a list writes, one per element in order. */
  function Entries<T>(xs: seq<T>, toEntry: T -> Entry): seq<Entry>
  {
    seq(|xs|, j requires 0 <= j < |xs| => toEntry(xs[j]))
  }

  /** The effect on the loaded budgets: `initialMap[b.category_id] = b.amount`
      for each budget in turn. */
  method InitialBudgetMap(initialBudgets: seq<Budget>) returns (initialMap: AmountMap)
    ensures LastWriteWins(Entries(initialBudgets, BudgetEntry), initialMap)
  {
    ghost var entries := Entries(initialBudgets, BudgetEntry);
    initialMap := map[];
    for i := 0 to |initialBudgets|
      invariant LastWriteWins(entries[..i], initialMap)
    {
      var b := initialBudgets[i];
      LastWriteWinsStep(entries[..i], initialMap, entries[i]);
      assert entries[..i + 1] == entries[..i] + [entries[i]];
      initialMap := initialMap[b.categoryId := b.amount];
    }
    assert entries[..|initialBudgets|] == entries;
  }

  /** The suggestions loaded: `map[item.categoryId] = item.amount` for each
      item in turn. */
  method SuggestionMap(data: seq<Suggestion>) returns (m: AmountMap)
    ensures LastWriteWins(Entries(data, SuggestionEntry), m)
  {
    ghost var entries := Entries(data, SuggestionEntry);
    m := map[];
    for i := 0 to |data|
      invariant LastWriteWins(entries[..i], m)
    {
      var item := data[i];
      LastWriteWinsStep(entries[..i], m, entries[i]);
      assert entries[..i + 1] == entries[..i] + [entries[i]];
      m := m[item.categoryId := item.amount];
    }
    assert entries[..|data|] == entries;
  }

  /** The map from the loaded budgets has a key exactly for each category
      with a budget, and the amount of the last such budget. */
  lemma InitialMapContents(initialBudgets: seq<Budget>, initialMap: AmountMap, c: string)
    requires LastWriteWins(Entries(initialBudgets, BudgetEntry), initialMap)
    ensures c in initialMap <==> exists j :: 0 <= j < |initialBudgets| && initialBudgets[j].categoryId == c
    ensures forall j ::
              (&& 0 <= j < |initialBudgets| && initialBudgets[j].categoryId == c
               && (forall k :: j < k < |initialBudgets| ==> initialBudgets[k].categoryId != c))
              ==> initialMap[c] == initialBudgets[j].amount
  {
    var es := Entries(initialBudgets, BudgetEntry);
    assert |es| == |initialBudgets|;
    assert forall j :: 0 <= j < |es| ==> es[j] == BudgetEntry(initialBudgets[j]);
    if c in initialMap {
      var j :| 0 <= j < |es| && es[j].key == c;
      assert initialBudgets[j].categoryId == c;
    }
    forall j | 0 <= j < |initialBudgets| && initialBudgets[j].categoryId == c
      && (forall k :: j < k < |initialBudgets| ==> initialBudgets[k].categoryId != c)
      ensures initialMap[c] == initialBudgets[j].amount
    {
      assert IsLastFor(es, j);
    }
  }

  // ---------------------------------------------------------------------
  // Reading, saving, editing and applying suggestions
  // ---------------------------------------------------------------------

  /** `m[k] || 0`: a missing entry reads as 0 (amounts here are never NaN,
      and a stored 0 reads as 0 either way). */
  function AmountOr0(m: AmountMap, k: string): (r: real)
    ensures k !in m ==> r == 0.0
    ensures k in m ==> r == m[k]
  {
    if k in m then m[k] else 0.0
  }

  /** The arguments `handleSave` passes to the save call; the month and year
      come from the clock. */
  datatype SaveCall = SaveCall(categoryId: string, amount: real, month: int, year: int)

  /** `handleSave(categoryId)`: the amount saved is the category's budget, or
      0 when it has none. */
  function SaveRequest(budgets: AmountMap, categoryId: string, month: int, year: int): (call: SaveCall)
    ensures call.categoryId == categoryId && call.month == month && call.year == year
    ensures categoryId !in budgets ==> call.amount == 0.0
    ensures categoryId in budgets ==> call.amount == budgets[categoryId]
  {
    SaveCall(categoryId, AmountOr0(budgets, categoryId), month, year)
  }

  /** Saving straight after loading sends the amount of the category's last
      loaded budget, or 0 for a category without one. */
  lemma SaveAfterLoad(initialBudgets: seq<Budget>, initialMap: AmountMap, j: nat, c: string, month: int, year: int)
    requires LastWriteWins(Entries(initialBudgets, BudgetEntry), initialMap)
    requires j < |initialBudgets|
    requires forall k :: j < k < |initialBudgets| ==> initialBudgets[k].categoryId != initialBudgets[j].categoryId
    ensures SaveRequest(initialMap, initialBudgets[j].categoryId, month, year).amount == initialBudgets[j].amount
    ensures (forall k :: 0 <= k < |initialBudgets| ==> initialBudgets[k].categoryId != c) ==>
      SaveRequest(initialMap, c, month, year).amount == 0.0
  {
    InitialMapContents(initialBudgets, initialMap, initialBudgets[j].categoryId);
    InitialMapContents(initialBudgets, initialMap, c);
  }

  /** `applySuggestion(categoryId)`: when a non-zero suggestion exists for
      the category, its budget becomes the suggestion. */
  function ApplySuggestion(budgets: AmountMap, suggestions: AmountMap, categoryId: string): (r: AmountMap)
    ensures forall k :: k != categoryId ==> (k in r <==> k in budgets)
    ensures forall k :: k != categoryId && k in r ==> r[k] == budgets[k]
    ensures categoryId in suggestions && suggestions[categoryId] != 0.0 ==>
      categoryId in r && r[categoryId] == suggestions[categoryId]
    ensures !(categoryId in suggestions && suggestions[categoryId] != 0.0) ==> r == budgets
  {
    if categoryId in suggestions && suggestions[categoryId] != 0.0 then
      budgets[categoryId := suggestions[categoryId]]
    else
      budgets
  }

  /** Applying the same suggestion twice is applying it once. */
  lemma ApplySuggestionIdempotent(budgets: AmountMap, suggestions: AmountMap, c: string)
    ensures ApplySuggestion(ApplySuggestion(budgets, suggestions, c), suggestions, c)
         == ApplySuggestion(budgets, suggestions, c)
  {
  }

  /** `onValueChange`: the edited category's budget becomes the entered
      number, or 0 when the input is not a number (`Number(val) || 0`);
      `parsed` is `None` for such an input. */
  function EditBudget(budgets: AmountMap, categoryId: string, parsed: Option<real>): (r: AmountMap)
    ensures r.Keys == budgets.Keys + {categoryId}
    ensures forall k :: k in budgets && k != categoryId ==> r[k] == budgets[k]
    ensures r[categoryId] == (if parsed.Some? then parsed.value else 0.0)
  {
    budgets[categoryId := if parsed.Some? then parsed.value else 0.0]
  }

  // ---------------------------------------------------------------------
  // One category card
  // ---------------------------------------------------------------------

  /** `budgetAmount > 0 ? (spentAmount / budgetAmount) * 100 : 0` */
  function Percentage(budgetAmount: real, spentAmount: real): real
  {
    if budgetAmount > 0.0 then (spentAmount / budgetAmount) * 100.0 else 0.0
  }

  /** `Math.min(percentage, 100)` */
  function ProgressValue(percentage: real): (v: real)
    ensures v <= 100.0
    ensures v == percentage || v == 100.0
    ensures percentage <= 100.0 ==> v == percentage
  {
    if percentage < 100.0 then percentage else 100.0
  }

  /** What a category card shows. */
  datatype Card = Card(
    budgetAmount: real,
    spentAmount: real,
    percentage: real,
    isOverBudget: bool,
    progress: real,
    showHint: bool)

  /** The hint `showSuggestions && suggestion > 0 && suggestion !== budgetAmount`,
      where a missing suggestion is `undefined` and never greater than 0. */
  predicate ShowHint(showSuggestions: bool, suggestions: AmountMap, categoryId: string, budgetAmount: real)
  {
    showSuggestions && categoryId in suggestions && suggestions[categoryId] > 0.0
    && suggestions[categoryId] != budgetAmount
  }

  /** The card of one category. */
  function CardFor(category: Category, budgets: AmountMap, currentSpending: AmountMap,
                   suggestions: AmountMap, showSuggestions: bool): Card
  {
    var budgetAmount := AmountOr0(budgets, category.id);
    var spentAmount := AmountOr0(currentSpending, category.id);
    var percentage := Percentage(budgetAmount, spentAmount);
    Card(budgetAmount, spentAmount, percentage, percentage > 100.0, ProgressValue(percentage),
         ShowHint(showSuggestions, suggestions, category.id, budgetAmount))
  }

  /** Multiplying by a positive number keeps the sign. */
  lemma SignOfProduct(x: real, b: real)
    requires b > 0.0
    ensures x > 0.0 <==> x * b > 0.0
    ensures x == 0.0 <==> x * b == 0.0
  {
    if x > 0.0 {
      assert x * b > 0.0;
    } else if x < 0.0 {
      assert (-x) * b > 0.0;
    }
  }

  /** The percentage is 0 when the budget is not positive; for a positive
      budget the category is over budget exactly when more than the budget
      was spent, and the percentage is non-negative when the spending is. */
  lemma PercentageRules(budgetAmount: real, spentAmount: real)
    ensures budgetAmount <= 0.0 ==> Percentage(budgetAmount, spentAmount) == 0.0
    ensures budgetAmount > 0.0 ==> (Percentage(budgetAmount, spentAmount) > 100.0 <==> spentAmount > budgetAmount)
    ensures budgetAmount > 0.0 ==> (Percentage(budgetAmount, spentAmount) == 100.0 <==> spentAmount == budgetAmount)
    ensures spentAmount >= 0.0 ==> Percentage(budgetAmount, spentAmount) >= 0.0
  {
    if budgetAmount > 0.0 {
      var q := spentAmount / budgetAmount;
      assert q * budgetAmount == spentAmount;
      assert (q - 1.0) * budgetAmount == spentAmount - budgetAmount;
      SignOfProduct(q - 1.0, budgetAmount);
      SignOfProduct(q, budgetAmount);
    }
  }

  /** The card of a category: missing budget and spending read as 0; a card
      without a positive budget shows 0% and is never over budget; with a
      positive budget it is over budget exactly when spending exceeds it; the
      bar never passes 100 and is full exactly when the budget is used up;
      the hint needs suggestions on, a positive suggestion and one that
      differs from the current budget. */
  lemma CardRules(category: Category, budgets: AmountMap, currentSpending: AmountMap,
                  suggestions: AmountMap, showSuggestions: bool)
    ensures var card := CardFor(category, budgets, currentSpending, suggestions, showSuggestions);
      && (category.id !in budgets ==> card.budgetAmount == 0.0)
      && (category.id !in currentSpending ==> card.spentAmount == 0.0)
      && (card.budgetAmount <= 0.0 ==> card.percentage == 0.0 && !card.isOverBudget && card.progress == 0.0)
      && (card.budgetAmount > 0.0 ==> (card.isOverBudget <==> card.spentAmount > card.budgetAmount))
      && card.progress <= 100.0
      && (card.budgetAmount > 0.0 ==> (card.progress == 100.0 <==> card.spentAmount >= card.budgetAmount))
      && (card.showHint <==> showSuggestions && category.id in suggestions
                             && suggestions[category.id] > 0.0
                             && suggestions[category.id] != card.budgetAmount)
  {
    var card := CardFor(category, budgets, currentSpending, suggestions, showSuggestions);
    PercentageRules(card.budgetAmount, card.spentAmount);
  }

  /** Clicking a shown hint sets the category's budget to the suggestion,
      which hides the hint, and leaves every other category's card as it
      was. */
  lemma ApplyShownHint(category: Category, budgets: AmountMap, currentSpending: AmountMap,
                       suggestions: AmountMap, other: Category)
    requires CardFor(category, budgets, currentSpending, suggestions, true).showHint
    requires other.id != category.id
    ensures var after := ApplySuggestion(budgets, suggestions, category.id);
      && AmountOr0(after, category.id) == suggestions[category.id]
      && !CardFor(category, after, currentSpending, suggestions, true).showHint
      && CardFor(other, after, currentSpending, suggestions, true)
         == CardFor(other, budgets, currentSpending, suggestions, true)
  {
  }
}
