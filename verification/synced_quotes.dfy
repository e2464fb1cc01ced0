/**
 * The quote generator version with server sync: quotes carry an id, an
 * author and an update timestamp; new quotes get default author and
 * category; a periodic sync merges the local list with the server's.
 */
module SyncedQuotes {
  import opened Wrappers
  import opened Strings
  import opened Catalog
  import opened Reconcile

  const NoQuotesFound: string := "No quotes found for this category."
  const DefaultAuthor: string := "Unknown"
  const DefaultCategory: string := "General"

  function CategoryOf(q: Quote): string { q.category }

  /**
   * The built-in quotes, all stamped with one load time `now`. The source
   * reads the clock once per quote, and those five readings may differ.
   */
  function DefaultQuotes(now: int): seq<Quote>
  {
    [ Quote(1, "The best way to get started is to quit talking and begin doing.", "Abdulmalik", "Motivation", now),
      Quote(2, "Your limitation\U{2014}it\U{2019}s only your imagination.", "Unknown", "Inspiration", now),
      Quote(4, "The secret of getting ahead is getting started.", "Oamo", "Motivation", now),
      Quote(3, "Push yourself, because no one else is going to do it for you.", "Unknown", "Motivation", now),
      Quote(5, "Happiness depends upon ourselves.", "Unknown", "Life", now) ]
  }

  /** The built-in quotes have distinct ids, so a merge with an empty server list keeps them as they are. */
  lemma {:induction false} DefaultQuotesPassThrough(now: int)
    ensures Reconciled(DefaultQuotes(now), []) == DefaultQuotes(now)
  {
    assert Ids(DefaultQuotes(now)) == [1, 2, 4, 3, 5];
    PassThrough(DefaultQuotes(now));
  }

  /** `localStorage.getItem("selectedCategory") || "all"`: a missing or empty choice means every category. */
  function SelectedCategory(saved: Option<string>): (c: string)
    ensures c != ""
    ensures saved.None? || saved.value == "" ==> c == AllCategories
    ensures saved.Some? && saved.value != "" ==> c == saved.value
  {
    if saved.None? || saved.value == "" then AllCategories else saved.value
  }

  /**
   * `displayRandomQuote`: filter by the saved category and show the quote at
   * the drawn position, or the "no quotes" message when nothing matches.
   */
  function DisplayRandomQuote(quotes: seq<Quote>, saved: Option<string>, num: nat, den: nat): (d: Display<Quote>)
    requires num < den
    ensures d.Message? <==>
              forall i :: 0 <= i < |quotes| ==>
                SelectedCategory(saved) != AllCategories && quotes[i].category != SelectedCategory(saved)
    ensures d.Message? ==> d.text == NoQuotesFound
    ensures d.Shown? ==> d.quote in quotes
    ensures d.Shown? && SelectedCategory(saved) != AllCategories ==> d.quote.category == SelectedCategory(saved)
  {
    var candidates := InCategory(quotes, CategoryOf, SelectedCategory(saved));
    assert forall i :: 0 <= i < |quotes| && (SelectedCategory(saved) == AllCategories || quotes[i].category == SelectedCategory(saved))
             ==> quotes[i] in candidates;
    PickOne(candidates, NoQuotesFound, num, den)
  }

  /** `value || fallback`: the fallback replaces an empty string. */
  function OrDefault(value: string, fallback: string): (r: string)
    ensures r == value || r == fallback
    ensures value != "" ==> r == value
    ensures fallback != "" ==> r != ""
  {
    if value == "" then fallback else value
  }

  /**
   * The record `addQuote` builds from the three form fields, or None when the
   * trimmed text is empty. idStamp and updateStamp are the two `Date.now()`
   * readings.
   */
  function NewQuote(textInput: string, authorInput: string, categoryInput: string,
                    idStamp: int, updateStamp: int): (r: Option<Quote>)
    ensures r.None? <==> IsBlank(textInput)
    ensures r.Some? ==> r.value.id == idStamp && r.value.updatedAt == updateStamp
    ensures r.Some? ==> r.value.text == Trim(textInput) && r.value.text != ""
    ensures r.Some? ==> r.value.author == if IsBlank(authorInput) then DefaultAuthor else Trim(authorInput)
    ensures r.Some? ==> r.value.category == if IsBlank(categoryInput) then DefaultCategory else Trim(categoryInput)
    ensures r.Some? ==> r.value.author != "" && r.value.category != ""
  {
    var text := Trim(textInput);
    var author := OrDefault(Trim(authorInput), DefaultAuthor);
    var category := OrDefault(Trim(categoryInput), DefaultCategory);
    if text == "" then None
    else Some(Quote(idStamp, text, author, category, updateStamp))
  }

  /** The module-level `quotes` list of this version and the operations that replace it. */
  class QuoteStore {
    var quotes: seq<Quote>

    /** `JSON.parse(localStorage.getItem('quotes')) || defaultQuotes`. */
    constructor (stored: Option<seq<Quote>>, now: int)
      ensures quotes == if stored.Some? then stored.value else DefaultQuotes(now)
    {
      quotes := if stored.Some? then stored.value else DefaultQuotes(now);
    }

    /**
     * `addQuote`: a blank quote text is rejected and nothing changes;
     * otherwise exactly one new record is pushed at the end.
     */
    method AddQuote(textInput: string, authorInput: string, categoryInput: string,
                    idStamp: int, updateStamp: int) returns (added: bool)
      modifies this
      ensures added <==> !IsBlank(textInput)
      ensures !added ==> quotes == old(quotes)
      ensures added ==> quotes == old(quotes) + [NewQuote(textInput, authorInput, categoryInput, idStamp, updateStamp).value]
    {
      var q := NewQuote(textInput, authorInput, categoryInput, idStamp, updateStamp);
      if q.None? {
        return false;
      }
      quotes := quotes + [q.value];
      added := true;
    }

    /**
     * The local part of `syncQuotes`: merge with the server list and replace
     * the list only when the merge changed it; `changed` is the "updated from
     * server" notification.
     */
    method Sync(server: seq<Quote>) returns (changed: bool)
      modifies this
      ensures changed <==> old(quotes) != Reconciled(old(quotes), server)
      ensures quotes == Reconciled(old(quotes), server)
    {
      var merged := ResolveConflicts(quotes, server);
      changed := quotes != merged;
      if changed {
        quotes := merged;
      }
    }
  }

  /** A second sync against the same server data reports no change. */
  method SyncTwice(store: QuoteStore, server: seq<Quote>) returns (first: bool, second: bool)
    modifies store
    ensures !second
    ensures store.quotes == Reconciled(old(store.quotes), server)
  {
    first := store.Sync(server);
    ReconcileIdempotent(old(store.quotes), server);
    second := store.Sync(server);
  }
}
