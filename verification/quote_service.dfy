/** The quote catalog: the `quotes` collection as a sequence in the
    store's natural order, the seed-if-empty bootstrap and the read
    operations. */
module QuoteService {
  import opened Results
  import opened JsStrings
  import opened JsParseInt

  const MsgNoQuotes: string := "No quotes found in database"
  const MsgQuoteNotFound: string := "Quote not found"
  const MsgNoCategoryQuotes: string := "No quotes found for this category"

  /** A quote document; `id` is the numeric id used for lookup. */
  datatype Quote = Quote(id: int, text: string, author: string, category: string, createdAt: nat, updatedAt: nat)

  /** `{success: true, count, data}`. */
  datatype QuoteList = QuoteList(count: nat, data: seq<Quote>)

  /** The five quotes `initializeSampleData` inserts, with ids 1 to 5 in
      insertion order, stamped with the current time. */
  function SampleQuotes(now: nat): seq<Quote> {
    seq(5, k requires 0 <= k < 5 => Quote(k + 1, SampleText(k), SampleAuthor(k), SampleCategory(k), now, now))
  }

  function SampleText(k: nat): string
    requires k < 5
  {
    if k == 0 then "The only way to do great work is to love what you do."
    else if k == 1 then "Success is not final, failure is not fatal: it is the courage to continue that counts."
    else if k == 2 then "The future belongs to those who believe in the beauty of their dreams."
    else if k == 3 then "Don't watch the clock; do what it does. Keep going."
    else "The only limit to our realization of tomorrow is our doubts of today."
  }

  function SampleAuthor(k: nat): string
    requires k < 5
  {
    if k == 0 then "Steve Jobs"
    else if k == 1 then "Winston Churchill"
    else if k == 2 then "Eleanor Roosevelt"
    else if k == 3 then "Sam Levenson"
    else "Franklin D. Roosevelt"
  }

  function SampleCategory(k: nat): string
    requires k < 5
  {
    if k == 0 then "passion"
    else if k == 1 then "perseverance"
    else if k == 2 then "dreams"
    else if k == 3 then "perseverance"
    else "optimism"
  }

  /** `initializeSampleData()`: seed only an empty collection. */
  function InitializeSampleData(quotes: seq<Quote>, now: nat): (r: seq<Quote>)
    ensures |quotes| > 0 ==> r == quotes
    ensures |quotes| == 0 ==> r == SampleQuotes(now)
    ensures |quotes| == 0 ==> |r| == 5 && forall i :: 0 <= i < 5 ==> r[i].id == i + 1 && r[i].createdAt == now && r[i].updatedAt == now
    ensures |quotes| == 0 ==> forall i :: 0 <= i < 5 ==> IsLower(r[i].category)
  {
    SampleQuotesWellFormed(now);
    if |quotes| == 0 then SampleQuotes(now) else quotes
  }

  /** Seeding twice, at any two times, leaves what seeding once left. */
  lemma SeedIdempotent(quotes: seq<Quote>, t1: nat, t2: nat)
    ensures InitializeSampleData(InitializeSampleData(quotes, t1), t2) == InitializeSampleData(quotes, t1)
  {
  }

  /** The seeded ids are 1 to 5, hence distinct, and every seeded category
      is already lowercase. */
  lemma SampleQuotesWellFormed(now: nat)
    ensures forall i :: 0 <= i < |SampleQuotes(now)| ==> SampleQuotes(now)[i].id == i + 1
    ensures forall i, j :: 0 <= i < j < |SampleQuotes(now)| ==> SampleQuotes(now)[i].id != SampleQuotes(now)[j].id
    ensures forall i :: 0 <= i < |SampleQuotes(now)| ==> IsLower(SampleQuotes(now)[i].category)
  {
    assert IsLower(SampleCategory(0)) && IsLower(SampleCategory(1)) && IsLower(SampleCategory(2));
    assert IsLower(SampleCategory(3)) && IsLower(SampleCategory(4));
  }

  /** A lookup by the category of any seeded quote finds that quote. */
  lemma SampleQuoteFoundByCategory(now: nat, i: nat)
    requires i < |InitializeSampleData([], now)|
    ensures var seeded := InitializeSampleData([], now);
            var q := seeded[i];
            var r := GetQuotesByCategory(seeded, q.category);
            r.Ok? && q in r.value.data
  {
    var s := SampleQuotes(now);
    assert InitializeSampleData([], now) == s;
    SampleQuotesWellFormed(now);
    LowerIdempotent(s[i].category);
    assert s[i] in s;
  }

  /** `getAllQuotes()`: every document, with its count. */
  function GetAllQuotes(quotes: seq<Quote>): (r: QuoteList)
    ensures r.count == |r.data|
    ensures r.data == quotes
  {
    QuoteList(|quotes|, quotes)
  }

  /** `getRandomQuote()`: one sampled document. The sampler's choice is the
      parameter `pick`. */
  function GetRandomQuote(quotes: seq<Quote>, pick: nat): (r: Result<Quote>)
    ensures |quotes| == 0 <==> r == Err(MsgNoQuotes)
    ensures |quotes| > 0 ==> r.Ok?
    ensures r.Ok? ==> r.value in quotes
  {
    if |quotes| == 0 then Err(MsgNoQuotes) else Ok(quotes[pick % |quotes|])
  }

  /** Every document of a non-empty collection can be the sample. */
  lemma RandomQuoteCanBeAny(quotes: seq<Quote>, q: Quote)
    requires q in quotes
    ensures exists pick: nat :: GetRandomQuote(quotes, pick) == Ok(q)
  {
    var i :| 0 <= i < |quotes| && quotes[i] == q;
    assert i % |quotes| == i;
    assert GetRandomQuote(quotes, i) == Ok(q);
  }

  /** `findOne({id: n})`: the first document, in natural order, with that id. */
  function FindById(quotes: seq<Quote>, n: int): (r: Option<Quote>)
    ensures r.Some? ==> r.value in quotes && r.value.id == n
    ensures r.None? <==> forall q :: q in quotes ==> q.id != n
    ensures r.Some? ==> exists i :: 0 <= i < |quotes| && quotes[i] == r.value
                                    && forall j :: 0 <= j < i ==> quotes[j].id != n
    decreases |quotes|
  {
    if |quotes| == 0 then None
    else if quotes[0].id == n then Some(quotes[0])
    else
      var r := FindById(quotes[1..], n);
      assert forall q :: q in quotes[1..] ==> q in quotes;
      assert r.Some? ==> exists i :: 0 <= i < |quotes[1..]| && quotes[1..][i] == r.value
                                    && forall j :: 0 <= j < i ==> quotes[1..][j].id != n;
      r
  }

  /** `getQuoteById(id)`: look up `parseInt(id)`; `NaN` matches nothing. */
  function GetQuoteById(quotes: seq<Quote>, id: string): (r: Result<Quote>)
    ensures r.Ok? ==> r.value in quotes && ParseInt(id) == Some(r.value.id)
    ensures r.Ok? ==> FindById(quotes, r.value.id) == Some(r.value)
    ensures r.Err? ==> r.msg == MsgQuoteNotFound
    ensures r.Err? <==> ParseInt(id).None? || forall q :: q in quotes ==> Some(q.id) != ParseInt(id)
  {
    match ParseInt(id)
    case None => Err(MsgQuoteNotFound)
    case Some(n) =>
      match FindById(quotes, n)
      case None => Err(MsgQuoteNotFound)
      case Some(q) => Ok(q)
  }

  /** The decimal text of a quote's id finds a quote with that id. */
  lemma QuoteByDecimalId(quotes: seq<Quote>, q: Quote)
    requires q in quotes && q.id >= 0
    ensures GetQuoteById(quotes, DecimalString(q.id)).Ok?
    ensures GetQuoteById(quotes, DecimalString(q.id)).value.id == q.id
  {
    ParseIntDecimalRoundTrip(q.id);
    QuoteByParsedId(quotes, DecimalString(q.id), q);
  }

  /** Text that parses to a stored quote's id finds a quote with that id. */
  lemma QuoteByParsedId(quotes: seq<Quote>, text: string, q: Quote)
    requires q in quotes && ParseInt(text) == Some(q.id)
    ensures GetQuoteById(quotes, text).Ok? && GetQuoteById(quotes, text).value.id == q.id
  {
  }

  /** `find({category: c})` in natural order. */
  function FilterCategory(quotes: seq<Quote>, c: string): (r: seq<Quote>)
    ensures |r| <= |quotes|
    ensures forall q :: q in r ==> q.category == c
    ensures forall q :: multiset(r)[q] == if q.category == c then multiset(quotes)[q] else 0
    decreases |quotes|
  {
    if |quotes| == 0 then []
    else
      var rest := FilterCategory(quotes[1..], c);
      assert quotes == [quotes[0]] + quotes[1..];
      if quotes[0].category == c then [quotes[0]] + rest else rest
  }

  /** `getQuotesByCategory(category)`: the documents whose stored category
      equals the lowercased argument; none is an error. */
  function GetQuotesByCategory(quotes: seq<Quote>, category: string): (r: Result<QuoteList>)
    ensures r.Err? <==> forall q :: q in quotes ==> q.category != Lower(category)
    ensures r.Err? ==> r.msg == MsgNoCategoryQuotes
    ensures r.Ok? ==> r.value.count == |r.value.data| > 0
    ensures r.Ok? ==> forall q :: q in r.value.data <==> q in quotes && q.category == Lower(category)
    ensures r.Ok? ==> forall q: Quote :: q.category == Lower(category) ==> multiset(r.value.data)[q] == multiset(quotes)[q]
  {
    var data := FilterCategory(quotes, Lower(category));
    if |data| == 0 then
      assert forall q :: q in quotes ==> q.category != Lower(category) by {
        forall q | q in quotes ensures q.category != Lower(category) {
          assert multiset(data)[q] == 0;
        }
      }
      Err(MsgNoCategoryQuotes)
    else
      assert forall q :: q in quotes && q.category == Lower(category) ==> q in data by {
        forall q | q in quotes && q.category == Lower(category) ensures q in data {
          assert multiset(data)[q] == multiset(quotes)[q] > 0;
        }
      }
      Ok(QuoteList(|data|, data))
  }

  /** Category lookup ignores the letter case of the argument: "Passion"
      and "passion" give the same answer. */
  lemma CategoryCaseInsensitive(quotes: seq<Quote>, a: string, b: string)
    requires SameUpToCase(a, b)
    ensures GetQuotesByCategory(quotes, a) == GetQuotesByCategory(quotes, b)
  {
    LowerEqualIffSameUpToCase(a, b);
  }

  /** A stored category that is not lowercase can never be found. */
  lemma UppercaseCategoryUnreachable(quotes: seq<Quote>, q: Quote, c: string)
    requires q in quotes && !IsLower(q.category)
    ensures GetQuotesByCategory(quotes, c).Ok? ==> q !in GetQuotesByCategory(quotes, c).value.data
  {
    LowerIsLower(c);
  }
}
