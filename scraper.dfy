/** `scrape_category`: fetch the listing pages `1..page_count` of one category,
    turn every product card into a five-field record, and return them as a table.
    The HTTP request and the HTML parsing are abstract: `fetch` gives, for a page
    URL, either a connection failure or the status code and the parsed cards. */
module Scraper {
  import opened Wrappers
  import opened Text
  import Frames

  /** One product card as parsed: the text of the title, price and location
      elements when they are present, and the attributes of its `img` element. */
  datatype Card = Card(
    title: Option<string>,
    price: Option<string>,
    location: Option<string>,
    img: Option<map<string, string>>)

  /** What `requests.get` yields for one page URL. */
  datatype Response = ConnectionError | Received(status: int, cards: seq<Card>)

  /** The part of a card whose absence raises while the card is read. */
  datatype Missing = TitleElement | PriceElement | LocationElement | ImageElement | SrcAttribute

  /** The exception that ends a scrape, with the page (and card) it arose on. */
  datatype ScrapeError =
    | RequestFailed(page: nat)
    | HttpError(page: nat, status: int)
    | MissingElement(page: nat, card: nat, missing: Missing)

  /** One entry of `all_data`: a dictionary from field name to text. */
  type Record = map<string, string>

  /** The record's keys, in the order the dictionary literal lists them. */
  const RecordColumns: seq<string> := ["type", "nom", "prix", "adresse", "image_lien"]

  function Max0(n: int): nat
  {
    if n > 0 then n else 0
  }

  /** `f"{url}?page={page}"`. */
  function PageUrl(url: string, page: nat): string
  {
    url + "?page=" + NatToString(page)
  }

  /** Different pages of one category have different URLs. */
  lemma PageUrlInjective(url: string, p: nat, q: nat)
    requires PageUrl(url, p) == PageUrl(url, q)
    ensures p == q
  {
    var prefix := url + "?page=";
    assert NatToString(p) == PageUrl(url, p)[|prefix|..];
    assert NatToString(q) == PageUrl(url, q)[|prefix|..];
    NatToStringInjective(p, q);
  }

  /** `raise_for_status()` raises for client (4xx) and server (5xx) errors only. */
  predicate RaisesForStatus(status: int)
  {
    400 <= status < 600
  }

  /** `requests.get(page_url)`, `response.raise_for_status()` and `soup.find_all(...)`
      for one page: the cards, or the exception the request raised. */
  function FetchCards(response: Response, page: nat): (r: Result<seq<Card>, ScrapeError>)
    ensures r.Success? <==> response.Received? && !RaisesForStatus(response.status)
    ensures r.Success? ==> r.value == response.cards
    ensures r.Failure? ==> r.error.page == page && !r.error.MissingElement?
  {
    match response
    case ConnectionError => Failure(RequestFailed(page))
    case Received(status, cards) =>
      if RaisesForStatus(status) then Failure(HttpError(page, status)) else Success(cards)
  }

  /** The first part of a card, in the order the four `product.find` reads take them, whose absence raises. */
  function MissingIn(card: Card): Option<Missing>
  {
    if card.title.None? then Some(TitleElement)
    else if card.price.None? then Some(PriceElement)
    else if card.location.None? then Some(LocationElement)
    else if card.img.None? then Some(ImageElement)
    else if "src" !in card.img.value then Some(SrcAttribute)
    else None
  }

  /** A card can be read without raising exactly when every part is there. */
  predicate Complete(card: Card)
  {
    MissingIn(card).None?
  }

  lemma CompleteIff(card: Card)
    ensures Complete(card) <==>
      card.title.Some? && card.price.Some? && card.location.Some? &&
      card.img.Some? && "src" in card.img.value
  {
  }

  /** The dictionary `all_data.append` receives for a complete card. */
  function MakeRecord(typeArticle: string, card: Card): (r: Record)
    requires Complete(card)
    ensures r.Keys == set c | c in RecordColumns
    ensures r["type"] == typeArticle
  {
    map[
      "type" := typeArticle,
      "nom" := Strip(card.title.value),
      "prix" := Strip(card.price.value),
      "adresse" := Strip(card.location.value),
      "image_lien" := card.img.value["src"]]
  }

  /** `nom`, `prix` and `adresse` are the element texts with surrounding whitespace
      removed and nothing else changed; `image_lien` is the `src` value untouched. */
  lemma MakeRecordFields(typeArticle: string, card: Card)
    requires Complete(card)
    ensures var r := MakeRecord(typeArticle, card);
      r["image_lien"] == card.img.value["src"] &&
      r["nom"] == Strip(card.title.value) && r["prix"] == Strip(card.price.value) &&
      r["adresse"] == Strip(card.location.value) &&
      (r["nom"] == [] || (!IsSpace(r["nom"][0]) && !IsSpace(r["nom"][|r["nom"]| - 1]))) &&
      (r["prix"] == [] || (!IsSpace(r["prix"][0]) && !IsSpace(r["prix"][|r["prix"]| - 1]))) &&
      (r["adresse"] == [] || (!IsSpace(r["adresse"][0]) && !IsSpace(r["adresse"][|r["adresse"]| - 1])))
  {
    StripSlice(card.title.value);
    StripSlice(card.price.value);
    StripSlice(card.location.value);
  }

  /** The `for product in products` loop over the cards of one page: their records in card order, or the
      exception raised by the first card that lacks a part. */
  function CardsRecords(typeArticle: string, cards: seq<Card>, page: nat): Result<seq<Record>, ScrapeError>
  {
    if cards == [] then Success([])
    else
      var n := |cards| - 1;
      match CardsRecords(typeArticle, cards[..n], page)
      case Failure(e) => Failure(e)
      case Success(rs) =>
        match MissingIn(cards[n])
        case Some(m) => Failure(MissingElement(page, n, m))
        case None => Success(rs + [MakeRecord(typeArticle, cards[n])])
  }

  /** Success exactly when every card is complete; then one record per card, in order. */
  lemma {:induction false} CardsRecordsSuccess(typeArticle: string, cards: seq<Card>, page: nat)
    ensures CardsRecords(typeArticle, cards, page).Success? <==> forall c :: c in cards ==> Complete(c)
    ensures CardsRecords(typeArticle, cards, page).Success? ==>
      var rs := CardsRecords(typeArticle, cards, page).value;
      |rs| == |cards| &&
      forall i :: 0 <= i < |rs| ==> Complete(cards[i]) && rs[i] == MakeRecord(typeArticle, cards[i])
  {
    if cards != [] {
      var n := |cards| - 1;
      var init := cards[..n];
      CardsRecordsSuccess(typeArticle, init, page);
      assert cards == init + [cards[n]];
      var r := CardsRecords(typeArticle, cards, page);
      var ri := CardsRecords(typeArticle, init, page);
      if ri.Success? && Complete(cards[n]) {
        assert r == Success(ri.value + [MakeRecord(typeArticle, cards[n])]);
        assert forall c :: c in cards ==> c in init || c == cards[n];
      } else if ri.Failure? {
        assert r.Failure?;
        var c :| c in init && !Complete(c);
        assert c in cards;
      } else {
        assert r.Failure?;
      }
    }
  }

  /** A failure names the first incomplete card and the first part it lacks. */
  lemma {:induction false} CardsRecordsFailure(typeArticle: string, cards: seq<Card>, page: nat)
    requires CardsRecords(typeArticle, cards, page).Failure?
    ensures var e := CardsRecords(typeArticle, cards, page).error;
      e.MissingElement? && e.page == page && e.card < |cards| &&
      MissingIn(cards[e.card]) == Some(e.missing) &&
      forall k :: 0 <= k < e.card ==> Complete(cards[k])
  {
    var n := |cards| - 1;
    if CardsRecords(typeArticle, cards[..n], page).Failure? {
      CardsRecordsFailure(typeArticle, cards[..n], page);
    } else {
      CardsRecordsSuccess(typeArticle, cards[..n], page);
      assert forall k :: 0 <= k < n ==> cards[..n][k] in cards[..n];
    }
  }

  /** Reading one more complete card appends its record. */
  lemma CardsRecordsSnoc(typeArticle: string, cards: seq<Card>, j: nat, page: nat, rs: seq<Record>)
    requires j < |cards| && Complete(cards[j])
    requires CardsRecords(typeArticle, cards[..j], page) == Success(rs)
    ensures CardsRecords(typeArticle, cards[..j + 1], page) == Success(rs + [MakeRecord(typeArticle, cards[j])])
  {
    assert cards[..j + 1][..j] == cards[..j];
  }

  /** Reading an incomplete card raises for that card. */
  lemma CardsRecordsStop(typeArticle: string, cards: seq<Card>, j: nat, page: nat)
    requires j < |cards| && MissingIn(cards[j]).Some?
    requires CardsRecords(typeArticle, cards[..j], page).Success?
    ensures CardsRecords(typeArticle, cards[..j + 1], page) == Failure(MissingElement(page, j, MissingIn(cards[j]).value))
  {
    assert cards[..j + 1][..j] == cards[..j];
  }

  /** Once the cards read so far raise, reading more cards does not change the error. */
  lemma {:induction false} CardsFailurePersists(typeArticle: string, cards: seq<Card>, page: nat, j: nat)
    requires j <= |cards|
    requires CardsRecords(typeArticle, cards[..j], page).Failure?
    ensures CardsRecords(typeArticle, cards, page) == CardsRecords(typeArticle, cards[..j], page)
    decreases |cards| - j
  {
    if j < |cards| {
      var n := |cards| - 1;
      assert cards[..j] == cards[..n][..j];
      CardsFailurePersists(typeArticle, cards[..n], page, j);
      assert cards[..n] == cards[..n][..n];
    } else {
      assert cards[..j] == cards;
    }
  }

  /** One iteration of the `for page in range(1, page_count + 1)` loop. */
  function PageRecords(fetch: string -> Response, url: string, typeArticle: string, page: nat): Result<seq<Record>, ScrapeError>
  {
    match FetchCards(fetch(PageUrl(url, page)), page)
    case Failure(e) => Failure(e)
    case Success(cards) => CardsRecords(typeArticle, cards, page)
  }

  /** `all_data` after pages `1..n`, or the exception that ended the loop. */
  function ScrapeUpTo(fetch: string -> Response, url: string, typeArticle: string, n: nat): Result<seq<Record>, ScrapeError>
  {
    if n == 0 then Success([])
    else
      match ScrapeUpTo(fetch, url, typeArticle, n - 1)
      case Failure(e) => Failure(e)
      case Success(acc) =>
        match PageRecords(fetch, url, typeArticle, n)
        case Failure(e) => Failure(e)
        case Success(rs) => Success(acc + rs)
  }

  /** After readable pages `1..n-1`, page `n` either extends the records or ends the scrape. */
  lemma ScrapeNext(fetch: string -> Response, url: string, typeArticle: string, n: nat, acc: seq<Record>)
    requires n > 0 && ScrapeUpTo(fetch, url, typeArticle, n - 1) == Success(acc)
    ensures ScrapeUpTo(fetch, url, typeArticle, n) ==
      match PageRecords(fetch, url, typeArticle, n)
      case Failure(e) => Failure(e)
      case Success(rs) => Success(acc + rs)
  {
  }

  lemma {:induction false} ScrapeFailurePersists(fetch: string -> Response, url: string, typeArticle: string, k: nat, n: nat)
    requires k <= n
    requires ScrapeUpTo(fetch, url, typeArticle, k).Failure?
    ensures ScrapeUpTo(fetch, url, typeArticle, n) == ScrapeUpTo(fetch, url, typeArticle, k)
    decreases n - k
  {
    if k < n {
      ScrapeFailurePersists(fetch, url, typeArticle, k, n - 1);
    }
  }

  // ----- reference view: the pages and cards the site offers -----

  /** The page answered with a status that `raise_for_status` lets through. */
  predicate PageOk(fetch: string -> Response, url: string, page: nat)
  {
    fetch(PageUrl(url, page)).Received? && !RaisesForStatus(fetch(PageUrl(url, page)).status)
  }

  function PageCards(fetch: string -> Response, url: string, page: nat): seq<Card>
  {
    match fetch(PageUrl(url, page))
    case ConnectionError => []
    case Received(_, cards) => cards
  }

  /** The cards of pages `1..n`, page after page. */
  function AllCards(fetch: string -> Response, url: string, n: nat): seq<Card>
  {
    if n == 0 then [] else AllCards(fetch, url, n - 1) + PageCards(fetch, url, n)
  }

  /** Every page `1..n` answers without error and each of its cards is complete. */
  ghost predicate AllReadable(fetch: string -> Response, url: string, n: nat)
  {
    (forall p :: 1 <= p <= n ==> PageOk(fetch, url, p)) &&
    (forall c :: c in AllCards(fetch, url, n) ==> Complete(c))
  }

  /** One page yields its records exactly when it answers without error and all its cards are complete. */
  lemma PageRecordsSuccess(fetch: string -> Response, url: string, typeArticle: string, n: nat)
    ensures PageRecords(fetch, url, typeArticle, n).Success? <==>
      PageOk(fetch, url, n) && forall c :: c in PageCards(fetch, url, n) ==> Complete(c)
  {
    if PageOk(fetch, url, n) {
      CardsRecordsSuccess(typeArticle, PageCards(fetch, url, n), n);
    }
  }

  lemma ScrapeStep(fetch: string -> Response, url: string, typeArticle: string, n: nat)
    requires n > 0
    ensures ScrapeUpTo(fetch, url, typeArticle, n).Success? <==>
      ScrapeUpTo(fetch, url, typeArticle, n - 1).Success? && PageRecords(fetch, url, typeArticle, n).Success?
  {
  }

  lemma AllReadableStep(fetch: string -> Response, url: string, n: nat)
    requires n > 0
    ensures AllReadable(fetch, url, n) <==>
      AllReadable(fetch, url, n - 1) && PageOk(fetch, url, n) &&
      forall c :: c in PageCards(fetch, url, n) ==> Complete(c)
  {
    var before := AllCards(fetch, url, n - 1);
    var here := PageCards(fetch, url, n);
    assert AllCards(fetch, url, n) == before + here;
  }

  /** The scrape of `n` pages succeeds exactly when all of them are readable. */
  lemma {:induction false} ScrapeSuccessIff(fetch: string -> Response, url: string, typeArticle: string, n: nat)
    ensures ScrapeUpTo(fetch, url, typeArticle, n).Success? <==> AllReadable(fetch, url, n)
  {
    if n > 0 {
      ScrapeSuccessIff(fetch, url, typeArticle, n - 1);
      ScrapeStep(fetch, url, typeArticle, n);
      PageRecordsSuccess(fetch, url, typeArticle, n);
      AllReadableStep(fetch, url, n);
    }
  }

  /** A successful scrape yields one record per card, pages in order and cards in
      page order, each built from its card: nothing skipped, merged or deduplicated. */
  lemma {:induction false} ScrapeRecords(fetch: string -> Response, url: string, typeArticle: string, n: nat)
    requires ScrapeUpTo(fetch, url, typeArticle, n).Success?
    ensures var rs := ScrapeUpTo(fetch, url, typeArticle, n).value;
      var cards := AllCards(fetch, url, n);
      |rs| == |cards| &&
      forall i :: 0 <= i < |rs| ==> Complete(cards[i]) && rs[i] == MakeRecord(typeArticle, cards[i])
  {
    if n > 0 {
      ScrapeRecords(fetch, url, typeArticle, n - 1);
      var before := AllCards(fetch, url, n - 1);
      var here := PageCards(fetch, url, n);
      var all := AllCards(fetch, url, n);
      assert all == before + here;
      var prev := ScrapeUpTo(fetch, url, typeArticle, n - 1).value;
      var r := ScrapeUpTo(fetch, url, typeArticle, n).value;
      assert PageOk(fetch, url, n);
      assert PageRecords(fetch, url, typeArticle, n) == CardsRecords(typeArticle, here, n);
      CardsRecordsSuccess(typeArticle, here, n);
      var cr := CardsRecords(typeArticle, here, n).value;
      assert r == prev + cr;
      forall i | 0 <= i < |r|
        ensures Complete(all[i]) && r[i] == MakeRecord(typeArticle, all[i])
      {
        if i < |prev| {
          assert all[i] == before[i] && r[i] == prev[i];
        } else {
          assert all[i] == here[i - |before|] && r[i] == cr[i - |prev|];
        }
      }
    }
  }

  /** A failed scrape names a page in `1..n`; every earlier page was readable, and
      the error says what went wrong on that page: the request, the status, or the
      first incomplete card and the first part it lacks. */
  lemma {:induction false} ScrapeFailureIsFirst(fetch: string -> Response, url: string, typeArticle: string, n: nat)
    requires ScrapeUpTo(fetch, url, typeArticle, n).Failure?
    ensures var e := ScrapeUpTo(fetch, url, typeArticle, n).error;
      var cards := PageCards(fetch, url, e.page);
      && 1 <= e.page <= n
      && AllReadable(fetch, url, e.page - 1)
      && (e.RequestFailed? ==> fetch(PageUrl(url, e.page)).ConnectionError?)
      && (e.HttpError? ==> fetch(PageUrl(url, e.page)) == Received(e.status, cards) && RaisesForStatus(e.status))
      && (e.MissingElement? ==>
            PageOk(fetch, url, e.page) && e.card < |cards| &&
            MissingIn(cards[e.card]) == Some(e.missing) &&
            forall k :: 0 <= k < e.card ==> Complete(cards[k]))
  {
    if ScrapeUpTo(fetch, url, typeArticle, n - 1).Failure? {
      ScrapeFailureIsFirst(fetch, url, typeArticle, n - 1);
    } else {
      ScrapeSuccessIff(fetch, url, typeArticle, n - 1);
      var r := FetchCards(fetch(PageUrl(url, n)), n);
      if r.Success? {
        CardsRecordsFailure(typeArticle, r.value, n);
      }
    }
  }

  // ----- pd.DataFrame(all_data) -----

  /** A record as a table row: each column's value, or missing. */
  function RowOf(r: Record): Frames.Row
  {
    map c | c in RecordColumns :: if c in r then Some(r[c]) else None
  }

  /** `pd.DataFrame(all_data)`: one row per record, columns drawn from the record
      keys. When every record has exactly those keys, as every record the scraper
      builds does, the table is well formed, its columns are the keys in the order
      the dictionary literal lists them, and each cell holds its record's field. */
  function ToFrame(records: seq<Record>): (t: Frames.Table)
    ensures |t.rows| == |records|
    ensures forall c :: c in t.columns ==> c in RecordColumns
    ensures (forall i :: 0 <= i < |records| ==> records[i].Keys == set c | c in RecordColumns) ==>
      && Frames.WellFormed(t)
      && (records != [] ==> t.columns == RecordColumns)
      && forall i, c :: 0 <= i < |records| && c in RecordColumns ==> t.rows[i][c] == Some(records[i][c])
  {
    if records == [] then Frames.EmptyFrame
    else Frames.Table(RecordColumns, seq(|records|, i requires 0 <= i < |records| => RowOf(records[i])))
  }

  /** The URLs of pages `1..k`, in that order. */
  function PageUrls(url: string, k: nat): (r: seq<string>)
    ensures |r| == k
    ensures forall i :: 0 <= i < k ==> r[i] == PageUrl(url, i + 1)
  {
    if k == 0 then [] else PageUrls(url, k - 1) + [PageUrl(url, k)]
  }

  /** No URL is requested twice. */
  lemma PageUrlsDistinct(url: string, k: nat)
    ensures forall i, j :: 0 <= i < j < k ==> PageUrls(url, k)[i] != PageUrls(url, k)[j]
  {
    forall i, j | 0 <= i < j < k ensures PageUrls(url, k)[i] != PageUrls(url, k)[j] {
      if PageUrl(url, i + 1) == PageUrl(url, j + 1) {
        PageUrlInjective(url, i + 1, j + 1);
      }
    }
  }

  /** The table a successful scrape returns: well formed, one row per card in
      crawl order, each row that card's record with every field present and
      `type` equal to `type_article`. */
  lemma ScrapedFrame(fetch: string -> Response, url: string, typeArticle: string, n: nat)
    requires ScrapeUpTo(fetch, url, typeArticle, n).Success?
    ensures var t := ToFrame(ScrapeUpTo(fetch, url, typeArticle, n).value);
      var cards := AllCards(fetch, url, n);
      && Frames.WellFormed(t)
      && |t.rows| == |cards|
      && (cards != [] ==> t.columns == RecordColumns)
      && (forall i :: 0 <= i < |t.rows| ==> Complete(cards[i]) && t.rows[i]["type"] == Some(typeArticle))
      && forall i, c :: 0 <= i < |t.rows| && c in RecordColumns ==>
           Complete(cards[i]) && t.rows[i][c] == Some(MakeRecord(typeArticle, cards[i])[c])
  {
    ScrapeRecords(fetch, url, typeArticle, n);
  }

  /** The inner loop of `scrape_category`, `for product in products`: append the record of each
      card of one page to `allData`, card by card, stopping at the first card that
      lacks a part. */
  method AppendCards(allData: seq<Record>, typeArticle: string, products: seq<Card>, page: nat)
    returns (result: Result<seq<Record>, ScrapeError>)
    ensures var spec := CardsRecords(typeArticle, products, page);
      && (result.Success? <==> spec.Success?)
      && (result.Success? ==> result.value == allData + spec.value)
      && (result.Failure? ==> result.error == spec.error)
  {
    var data := allData;
    ghost var pageData: seq<Record> := [];
    var j := 0;
    assert products[..0] == [];
    while j < |products|
      invariant 0 <= j <= |products|
      invariant data == allData + pageData
      invariant CardsRecords(typeArticle, products[..j], page) == Success(pageData)
    {
      var product := products[j];
      var missing := MissingIn(product);
      if missing.Some? {
        CardsRecordsStop(typeArticle, products, j, page);
        CardsFailurePersists(typeArticle, products, page, j + 1);
        return Failure(MissingElement(page, j, missing.value));
      }
      var title := Strip(product.title.value);
      var price := Strip(product.price.value);
      var location := Strip(product.location.value);
      var image := product.img.value["src"];
      var record := map[
        "type" := typeArticle,
        "nom" := title,
        "prix" := price,
        "adresse" := location,
        "image_lien" := image];
      assert record == MakeRecord(typeArticle, product);
      CardsRecordsSnoc(typeArticle, products, j, page, pageData);
      data := data + [record];
      pageData := pageData + [record];
      j := j + 1;
    }
    assert products[..j] == products;
    return Success(data);
  }

  /** `scrape_category(url, type_article, page_count)`. Pages `1..page_count` are
      requested in increasing order, one request each, and the loop stops at the
      first exception; `requested` is the list of URLs asked for. */
  method ScrapeCategory(fetch: string -> Response, url: string, typeArticle: string, pageCount: int := 5)
    returns (result: Result<Frames.Table, ScrapeError>, requested: seq<string>)
    ensures requested == PageUrls(url, |requested|)
    ensures result.Success? ==> |requested| == Max0(pageCount)
    ensures result.Failure? ==> 1 <= result.error.page == |requested| <= pageCount
    ensures var spec := ScrapeUpTo(fetch, url, typeArticle, Max0(pageCount));
      && (result.Success? <==> spec.Success?)
      && (result.Success? ==> result.value == ToFrame(spec.value))
      && (result.Failure? ==> result.error == spec.error)
  {
    var n := Max0(pageCount);
    var allData: seq<Record> := [];
    requested := [];
    var page := 1;
    while page <= pageCount
      invariant 1 <= page <= n + 1
      invariant ScrapeUpTo(fetch, url, typeArticle, page - 1) == Success(allData)
      invariant requested == PageUrls(url, page - 1)
    {
      var pageUrl := PageUrl(url, page);
      requested := requested + [pageUrl];
      var response := fetch(pageUrl);
      ScrapeNext(fetch, url, typeArticle, page, allData);
      if response.ConnectionError? || RaisesForStatus(response.status) {
        result := Failure(FetchCards(response, page).error);
        ScrapeFailurePersists(fetch, url, typeArticle, page, n);
        return;
      }
      var appended := AppendCards(allData, typeArticle, response.cards, page);
      if appended.Failure? {
        CardsRecordsFailure(typeArticle, response.cards, page);
        result := Failure(appended.error);
        ScrapeFailurePersists(fetch, url, typeArticle, page, n);
        return;
      }
      allData := appended.value;
      page := page + 1;
    }
    result := Success(ToFrame(allData));
  }
}
