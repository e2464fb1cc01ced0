/**
 * Category logic shared by both versions of the quote generator: the
 * category filter, the category dropdown and the random pick of one quote.
 * Both versions keep their own quote record, so these functions take the
 * record's category accessor as a parameter.
 */
module Catalog {
  import opened Collections

  /** The value of the synthetic first dropdown option, meaning "no filter". */
  const AllCategories: string := "all"
  /** The text shown for that option. */
  const AllCategoriesLabel: string := "All Categories"

  /** One `<option>` of the category dropdown: its `value` and its text. */
  datatype MenuOption = MenuOption(value: string, text: string)

  /** What the quote display area shows: a message, or one quote. */
  datatype Display<Q> = Message(text: string) | Shown(quote: Q)

  /**
   * `selected === "all" ? quotes : quotes.filter(q => q.category === selected)`.
   */
  function InCategory<Q(==,!new)>(quotes: seq<Q>, categoryOf: Q -> string, selected: string): (r: seq<Q>)
    ensures selected == AllCategories ==> r == quotes
    ensures selected != AllCategories ==>
              forall q :: q in r <==> q in quotes && categoryOf(q) == selected
    ensures selected != AllCategories ==>
              forall q :: categoryOf(q) == selected ==> multiset(r)[q] == multiset(quotes)[q]
    ensures IsSubsequence(r, quotes)
  {
    if selected == AllCategories then
      SubsequenceOfItself(quotes);
      quotes
    else
      Filter(quotes, q => categoryOf(q) == selected)
  }

  /** `[...new Set(quotes.map(q => q.category))]`. */
  function Categories<Q>(quotes: seq<Q>, categoryOf: Q -> string): (r: seq<string>)
    ensures NoDuplicates(r)
    ensures forall i :: 0 <= i < |quotes| ==> categoryOf(quotes[i]) in r
    ensures forall c :: c in r ==> exists i :: 0 <= i < |quotes| && categoryOf(quotes[i]) == c
  {
    var all := Map(quotes, categoryOf);
    assert forall i :: 0 <= i < |quotes| ==> all[i] in all;
    Distinct(all)
  }

  /**
   * Categories are listed in the order in which the quote list first
   * mentions them.
   */
  lemma {:induction false} CategoriesInFirstOccurrenceOrder<Q>(quotes: seq<Q>, categoryOf: Q -> string, i: nat, j: nat)
    requires i < j < |Categories(quotes, categoryOf)|
    ensures FirstIndex(Map(quotes, categoryOf), Categories(quotes, categoryOf)[i])
          < FirstIndex(Map(quotes, categoryOf), Categories(quotes, categoryOf)[j])
  {
    DistinctInFirstOccurrenceOrder(Map(quotes, categoryOf));
  }

  /**
   * The dropdown that `populateCategories` builds: the "all" option first,
   * then one option per distinct category whose value and text are that
   * category.
   */
  function Menu<Q>(quotes: seq<Q>, categoryOf: Q -> string): (r: seq<MenuOption>)
    ensures |r| == |Categories(quotes, categoryOf)| + 1
    ensures r[0] == MenuOption(AllCategories, AllCategoriesLabel)
    ensures forall i :: 0 < i < |r| ==>
              r[i].value == r[i].text == Categories(quotes, categoryOf)[i - 1]
  {
    var categories := Categories(quotes, categoryOf);
    [MenuOption(AllCategories, AllCategoriesLabel)]
      + seq(|categories|, i requires 0 <= i < |categories| => MenuOption(categories[i], categories[i]))
  }

  function OptionValue(o: MenuOption): string { o.value }

  /**
   * The values a user can pick are exactly "all" and the categories of the
   * quotes.
   */
  lemma {:induction false} MenuValues<Q>(quotes: seq<Q>, categoryOf: Q -> string, v: string)
    ensures v in Map(Menu(quotes, categoryOf), OptionValue) <==>
              v == AllCategories || exists i :: 0 <= i < |quotes| && categoryOf(quotes[i]) == v
  {
    var menu, categories := Menu(quotes, categoryOf), Categories(quotes, categoryOf);
    var values := Map(menu, OptionValue);
    assert values[0] == AllCategories;
    if v in categories {
      var k :| 0 <= k < |categories| && categories[k] == v;
      assert values[k + 1] == v;
    }
    if v in values && v != AllCategories {
      var k :| 0 <= k < |values| && values[k] == v;
      assert categories[k - 1] == v;
    }
  }

  /**
   * No two options share a value exactly when no quote has the category
   * "all" (such a quote would duplicate the synthetic option).
   */
  lemma {:induction false} MenuValuesDistinct<Q>(quotes: seq<Q>, categoryOf: Q -> string)
    ensures NoDuplicates(Map(Menu(quotes, categoryOf), OptionValue)) <==>
              forall i :: 0 <= i < |quotes| ==> categoryOf(quotes[i]) != AllCategories
  {
    var menu, categories := Menu(quotes, categoryOf), Categories(quotes, categoryOf);
    var values := Map(menu, OptionValue);
    assert values == [AllCategories] + categories;
    if exists i :: 0 <= i < |quotes| && categoryOf(quotes[i]) == AllCategories {
      var i :| 0 <= i < |quotes| && categoryOf(quotes[i]) == AllCategories;
      var k :| 0 <= k < |categories| && categories[k] == AllCategories;
      assert values[0] == values[k + 1];
    } else {
      assert AllCategories !in categories;
    }
  }

  /**
   * `Math.floor(Math.random() * len)`, with the random number in [0, 1)
   * given as the exact fraction num / den.
   */
  function RandomIndex(len: nat, num: nat, den: nat): (k: nat)
    requires len > 0 && num < den
    ensures k < len
  {
    var k := (num * len) / den;
    assert num * len < den * len by {
      assert (den - num) * len > 0;
    }
    assert k < len by {
      assert k * den <= num * len;
    }
    k
  }

  /** A product with a positive factor b moves away from zero by at least b. */
  lemma {:induction false} MulAwayFromZero(a: int, b: int)
    requires b > 0
    ensures a >= 1 ==> a * b >= b
    ensures a <= -1 ==> a * b <= -b
  {
  }

  /** Every position can be drawn: the random number k / len selects position k. */
  lemma {:induction false} EveryIndexReachable(len: nat, k: nat)
    requires k < len
    ensures RandomIndex(len, k, len) == k
  {
    var q := (k * len) / len;
    var d := k - q;
    assert d * len == k * len - q * len;
    assert 0 <= d * len < len;
    MulAwayFromZero(d, len);
  }

  /**
   * Shows the candidate at the drawn position, or emptyMessage when there is
   * no candidate.
   */
  function PickOne<Q>(candidates: seq<Q>, emptyMessage: string, num: nat, den: nat): (d: Display<Q>)
    requires num < den
    ensures d.Message? <==> candidates == []
    ensures d.Message? ==> d.text == emptyMessage
    ensures d.Shown? ==> d.quote in candidates
  {
    if |candidates| == 0 then Message(emptyMessage)
    else Shown(candidates[RandomIndex(|candidates|, num, den)])
  }

  /** Each candidate is shown for some random number: the pick can land anywhere. */
  lemma {:induction false} PickOneReachesEvery<Q>(candidates: seq<Q>, emptyMessage: string, k: nat)
    requires k < |candidates|
    ensures PickOne(candidates, emptyMessage, k, |candidates|) == Shown(candidates[k])
  {
    EveryIndexReachable(|candidates|, k);
  }
}
