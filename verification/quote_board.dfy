/**
 * The quote generator version without ids: quotes are `{text, category}`
 * records; the user adds one through a form, imports a JSON file of them,
 * and draws a random quote, optionally of one category.
 */
module QuoteBoard {
  import opened Wrappers
  import opened Strings
  import opened Catalog

  /** A quote of this version. */
  datatype Entry = Entry(text: string, category: string)

  function CategoryOf(e: Entry): string { e.category }

  const NoQuotesInCategory: string := "No quotes available in this category."
  const NoQuotesYet: string := "No quotes available yet. Add one!"

  /** The built-in quotes used when nothing is stored. */
  const DefaultEntries: seq<Entry> := [
    Entry("The best way to get started is to quit talking and begin doing.", "Motivation"),
    Entry("In the middle of difficulty lies opportunity.", "Inspiration"),
    Entry("The secret of getting ahead is getting started.", "Motivation"),
    Entry("Happiness depends upon ourselves.", "Life")
  ]

  /**
   * `filterQuotes`: the quotes of the selected category ("all" for every
   * quote), one of them shown at the drawn position, or a message when none
   * matches.
   */
  function FilterQuotes(quotes: seq<Entry>, selected: string, num: nat, den: nat): (d: Display<Entry>)
    requires num < den
    ensures d.Message? <==>
              forall i :: 0 <= i < |quotes| ==> selected != AllCategories && quotes[i].category != selected
    ensures d.Message? ==> d.text == NoQuotesInCategory
    ensures d.Shown? ==> d.quote in quotes
    ensures d.Shown? && selected != AllCategories ==> d.quote.category == selected
  {
    var candidates := InCategory(quotes, CategoryOf, selected);
    assert forall i :: 0 <= i < |quotes| && (selected == AllCategories || quotes[i].category == selected)
             ==> quotes[i] in candidates;
    PickOne(candidates, NoQuotesInCategory, num, den)
  }

  /**
   * `showRandomQuote`: a selected category defers to `filterQuotes`; with
   * "all" an empty list shows its own message, otherwise any quote can be
   * drawn.
   */
  function ShowRandomQuote(quotes: seq<Entry>, selected: string, num: nat, den: nat): (d: Display<Entry>)
    requires num < den
    ensures selected == AllCategories ==> (d.Message? <==> quotes == [])
    ensures selected == AllCategories && d.Message? ==> d.text == NoQuotesYet
    ensures d.Shown? ==> d.quote in quotes
  {
    if selected != AllCategories then FilterQuotes(quotes, selected, num, den)
    else PickOne(quotes, NoQuotesYet, num, den)
  }

  /**
   * The two ways of drawing agree on every draw: they show the same quote and
   * differ at most in the wording of the "no quotes" message, which is the
   * same too once a category other than "all" is selected.
   */
  lemma {:induction false} ShowRandomAgreesWithFilter(quotes: seq<Entry>, selected: string, num: nat, den: nat)
    requires num < den
    ensures ShowRandomQuote(quotes, selected, num, den).Shown? ==>
              ShowRandomQuote(quotes, selected, num, den) == FilterQuotes(quotes, selected, num, den)
    ensures ShowRandomQuote(quotes, selected, num, den).Message? <==>
              FilterQuotes(quotes, selected, num, den).Message?
    ensures selected != AllCategories ==>
              ShowRandomQuote(quotes, selected, num, den) == FilterQuotes(quotes, selected, num, den)
  {
    if selected == AllCategories {
      assert InCategory(quotes, CategoryOf, selected) == quotes;
    }
  }

  /**
   * The entry `createAddQuoteForm` builds from the two form fields, or None
   * when the trimmed text or the trimmed category is empty.
   */
  function FormEntry(textInput: string, categoryInput: string): (r: Option<Entry>)
    ensures r.None? <==> IsBlank(textInput) || IsBlank(categoryInput)
    ensures r.Some? ==> r.value.text == Trim(textInput) && r.value.category == Trim(categoryInput)
    ensures r.Some? ==> r.value.text != "" && r.value.category != ""
  {
    var text, category := Trim(textInput), Trim(categoryInput);
    if text == "" || category == "" then None else Some(Entry(text, category))
  }

  /** The file contents as `JSON.parse` sees them. */
  datatype ImportFile =
    | JsonArray(items: seq<Entry>)  // a JSON array of quote records
    | JsonOther                     // well-formed JSON that is not an array
    | Unreadable                    // `JSON.parse` throws

  /** Which alert the import handler raises. */
  datatype ImportOutcome = Imported | InvalidFormat | ReadFailed

  /** The module-level `quotes` list of this version and the handlers that push onto it. */
  class Board {
    var quotes: seq<Entry>

    /** `JSON.parse(localStorage.getItem('quotes')) || [defaults]`. */
    constructor (stored: Option<seq<Entry>>)
      ensures quotes == if stored.Some? then stored.value else DefaultEntries
    {
      quotes := if stored.Some? then stored.value else DefaultEntries;
    }

    /**
     * `createAddQuoteForm`: both fields must be non-blank after trimming;
     * then exactly one entry is pushed at the end, otherwise nothing changes.
     */
    method AddFromForm(textInput: string, categoryInput: string) returns (added: bool)
      modifies this
      ensures added <==> !IsBlank(textInput) && !IsBlank(categoryInput)
      ensures !added ==> quotes == old(quotes)
      ensures added ==> quotes == old(quotes) + [Entry(Trim(textInput), Trim(categoryInput))]
    {
      var entry := FormEntry(textInput, categoryInput);
      if entry.None? {
        return false;
      }
      quotes := quotes + [entry.value];
      added := true;
    }

    /**
     * The import handler: an array is appended element by element, without
     * checks or de-duplication; anything else leaves the list as it was.
     */
    method Import(file: ImportFile) returns (outcome: ImportOutcome)
      modifies this
      ensures file.JsonArray? ==> outcome == Imported && quotes == old(quotes) + file.items
      ensures file.JsonOther? ==> outcome == InvalidFormat && quotes == old(quotes)
      ensures file.Unreadable? ==> outcome == ReadFailed && quotes == old(quotes)
    {
      match file
      case JsonArray(items) =>
        quotes := quotes + items;
        outcome := Imported;
      case JsonOther =>
        outcome := InvalidFormat;
      case Unreadable =>
        outcome := ReadFailed;
    }
  }
}
