/** The application component's logic (App.tsx): choosing the link and group
    columns of a loaded sheet, turning rows into products, and running the
    extraction over the pending products in batches of two. */
module App {
  import opened Wrappers
  import opened Text
  import opened Types
  import G = GeminiService

  // ---------------------------------------------------------------------------
  // Column inference
  // ---------------------------------------------------------------------------

  /** A header whose upper-cased name mentions one of the link keywords. */
  predicate IsKeywordHeader(h: string) {
    var u := Upper(h);
    Contains(u, "AMAZON") || Contains(u, "LINK") || Contains(u, "URL") || Contains(u, "PRODUCT") || Contains(u, "ASIN")
  }

  /** A lower-cased cell that looks like an Amazon link, as the column search tests it. */
  predicate LooksLikeAmazon(v: string) {
    Contains(v, "amazon") || Contains(v, "amzn") || Contains(v, "a.co") || Contains(v, "/dp/")
  }

  /** `String(row[col] || '')`: a missing cell reads as the empty string. */
  function Cell(row: map<string, string>, col: string): (v: string)
    ensures col in row ==> v == row[col]
    ensures col !in row ==> v == ""
  {
    if col in row then row[col] else ""
  }

  /** `rows.some(...)`: some row's cell in column `col` looks like an Amazon link. */
  predicate HasLinkCell(rows: seq<map<string, string>>, col: string)
    decreases |rows|
  {
    rows != [] && (LooksLikeAmazon(Lower(Cell(rows[0], col))) || HasLinkCell(rows[1..], col))
  }

  /** The search over the rows is an existential over row indices. */
  lemma {:induction false} HasLinkCellMeans(rows: seq<map<string, string>>, col: string)
    ensures HasLinkCell(rows, col) <==> exists i :: 0 <= i < |rows| && LooksLikeAmazon(Lower(Cell(rows[i], col)))
    decreases |rows|
  {
    if rows != [] {
      HasLinkCellMeans(rows[1..], col);
      assert forall i :: 1 <= i < |rows| ==> rows[i] == rows[1..][i - 1];
      if !LooksLikeAmazon(Lower(Cell(rows[0], col))) && exists i :: 0 <= i < |rows| && LooksLikeAmazon(Lower(Cell(rows[i], col))) {
        var i :| 0 <= i < |rows| && LooksLikeAmazon(Lower(Cell(rows[i], col)));
        assert rows[1..][i - 1] == rows[i];
      }
    }
  }

  /** The first of `cols` that has a link cell (the early-return loops of `findAmazonColumn`). */
  function FirstLinkColumn(cols: seq<string>, rows: seq<map<string, string>>): (r: Option<string>)
    ensures r.None? <==> forall j :: 0 <= j < |cols| ==> !HasLinkCell(rows, cols[j])
    ensures r.Some? ==> r.value in cols && HasLinkCell(rows, r.value)
    decreases |cols|
  {
    if cols == [] then None
    else if HasLinkCell(rows, cols[0]) then Some(cols[0])
    else
      var r := FirstLinkColumn(cols[1..], rows);
      assert forall j :: 1 <= j < |cols| ==> cols[j] == cols[1..][j - 1];
      r
  }

  /** `headers.filter(...)`: the headers that mention a link keyword. */
  function KeywordHeaders(headers: seq<string>): seq<string> {
    Filter(headers, IsKeywordHeader)
  }

  /** `findAmazonColumn`: the first keyword header with a link cell, else the first
      header of any name with a link cell, else `headers[0] || ''`. */
  function AmazonColumn(headers: seq<string>, rows: seq<map<string, string>>): (col: string)
    ensures col == "" || col in headers
  {
    match FirstLinkColumn(KeywordHeaders(headers), rows)
    case Some(c) => c
    case None =>
      match FirstLinkColumn(headers, rows)
      case Some(c) => c
      case None => if |headers| > 0 then headers[0] else ""
  }

  /** The search returns the earliest column with a link cell. */
  lemma {:induction false} FirstLinkColumnIsEarliest(cols: seq<string>, rows: seq<map<string, string>>, k: nat)
    requires k < |cols| && HasLinkCell(rows, cols[k])
    requires forall j :: 0 <= j < k ==> !HasLinkCell(rows, cols[j])
    ensures FirstLinkColumn(cols, rows) == Some(cols[k])
    decreases k
  {
    if k > 0 {
      assert !HasLinkCell(rows, cols[0]);
      FirstLinkColumnIsEarliest(cols[1..], rows, k - 1);
    }
  }

  /** Searching the keyword headers finds the earliest header that is both a keyword
      header and has a link cell. */
  lemma {:induction false} KeywordSearchFindsEarliest(headers: seq<string>, rows: seq<map<string, string>>, k: nat)
    requires k < |headers| && IsKeywordHeader(headers[k]) && HasLinkCell(rows, headers[k])
    requires forall j :: 0 <= j < k ==> !(IsKeywordHeader(headers[j]) && HasLinkCell(rows, headers[j]))
    ensures FirstLinkColumn(KeywordHeaders(headers), rows) == Some(headers[k])
    decreases k
  {
    var c := KeywordHeaders(headers);
    var rest := KeywordHeaders(headers[1..]);
    if k == 0 {
      assert c == [headers[0]] + rest;
      assert c[0] == headers[0];
    } else {
      assert forall j :: 0 <= j < k - 1 ==> headers[1..][j] == headers[j + 1];
      KeywordSearchFindsEarliest(headers[1..], rows, k - 1);
      assert headers[1..][k - 1] == headers[k];
      if IsKeywordHeader(headers[0]) {
        assert c == [headers[0]] + rest;
        assert c[0] == headers[0] && c[1..] == rest;
        assert !HasLinkCell(rows, c[0]);
      } else {
        assert c == rest;
      }
    }
  }

  /** When no keyword header has a link cell, the keyword search comes back empty. */
  lemma KeywordSearchEmpty(headers: seq<string>, rows: seq<map<string, string>>)
    requires forall j :: 0 <= j < |headers| ==> !(IsKeywordHeader(headers[j]) && HasLinkCell(rows, headers[j]))
    ensures FirstLinkColumn(KeywordHeaders(headers), rows).None?
  {
    var c := KeywordHeaders(headers);
    forall j | 0 <= j < |c|
      ensures !HasLinkCell(rows, c[j])
    {
      assert c[j] in c;
    }
  }

  /** First rule: a keyword header with a link cell wins, the earliest one. */
  lemma AmazonColumnPrefersKeyword(headers: seq<string>, rows: seq<map<string, string>>, k: nat)
    requires k < |headers| && IsKeywordHeader(headers[k]) && HasLinkCell(rows, headers[k])
    requires forall j :: 0 <= j < k ==> !(IsKeywordHeader(headers[j]) && HasLinkCell(rows, headers[j]))
    ensures AmazonColumn(headers, rows) == headers[k]
  {
    KeywordSearchFindsEarliest(headers, rows, k);
  }

  /** Second rule: otherwise the earliest header of any name with a link cell. */
  lemma AmazonColumnFallsBackToAnyHeader(headers: seq<string>, rows: seq<map<string, string>>, k: nat)
    requires forall j :: 0 <= j < |headers| ==> !(IsKeywordHeader(headers[j]) && HasLinkCell(rows, headers[j]))
    requires k < |headers| && HasLinkCell(rows, headers[k])
    requires forall j :: 0 <= j < k ==> !HasLinkCell(rows, headers[j])
    ensures AmazonColumn(headers, rows) == headers[k]
  {
    KeywordSearchEmpty(headers, rows);
    FirstLinkColumnIsEarliest(headers, rows, k);
  }

  /** Last rule: with no link cell anywhere, the first header, or `''` without headers. */
  lemma AmazonColumnDefault(headers: seq<string>, rows: seq<map<string, string>>)
    requires forall j :: 0 <= j < |headers| ==> !HasLinkCell(rows, headers[j])
    ensures AmazonColumn(headers, rows) == if |headers| > 0 then headers[0] else ""
  {
    KeywordSearchEmpty(headers, rows);
  }

  /** A header whose upper-cased name mentions a grouping word. */
  predicate IsPaletteHeader(h: string) {
    var u := Upper(h);
    Contains(u, "PALETTE") || Contains(u, "PALETE") || Contains(u, "GROUP") || Contains(u, "ITEM")
  }

  /** `findPaletteColumn`: the first header naming a grouping word, else `''`. */
  function PaletteColumn(headers: seq<string>): (col: string)
    ensures col == "" <==> forall j :: 0 <= j < |headers| ==> !IsPaletteHeader(headers[j])
    ensures col != "" ==> col in headers && IsPaletteHeader(col)
    decreases |headers|
  {
    if headers == [] then ""
    else if IsPaletteHeader(headers[0]) then
      assert |Upper(headers[0])| >= 4;
      headers[0]
    else
      var col := PaletteColumn(headers[1..]);
      assert forall j :: 1 <= j < |headers| ==> headers[j] == headers[1..][j - 1];
      col
  }

  /** The palette column is the earliest qualifying header. */
  lemma {:induction false} PaletteColumnIsEarliest(headers: seq<string>, k: nat)
    requires k < |headers| && IsPaletteHeader(headers[k])
    requires forall j :: 0 <= j < k ==> !IsPaletteHeader(headers[j])
    ensures PaletteColumn(headers) == headers[k]
    decreases k
  {
    if k > 0 {
      assert !IsPaletteHeader(headers[0]);
      PaletteColumnIsEarliest(headers[1..], k - 1);
    }
  }

  // ---------------------------------------------------------------------------
  // Product mapping
  // ---------------------------------------------------------------------------

  const IdPrefix: string := "product-"
  const ExtractionFailed: string := "Extraction failed"

  /** The error set when no row survives the link filter. */
  function NoLinksMessage(linkCol: string): string {
    "No valid Amazon links found in column: \"" + linkCol + "\"."
  }

  /** The link test of `mapProducts`, on the lower-cased trimmed cell; unlike the
      column search it also accepts `/gp/`. */
  predicate IsProductLink(url: string) {
    var u := Lower(url);
    Contains(u, "amazon") || Contains(u, "amzn") || Contains(u, "a.co") || Contains(u, "/dp/") || Contains(u, "/gp/")
  }

  predicate HasProductLink(p: Product) {
    IsProductLink(p.url)
  }

  /** The record built from row `idx` before filtering. */
  function RowProduct(row: map<string, string>, idx: nat, linkCol: string, paletteCol: string): Product {
    Product(
      id := IdPrefix + NatToString(idx),
      url := Trim(Cell(row, linkCol)),
      palette := if paletteCol != "" && paletteCol in row then Some(Trim(row[paletteCol])) else None,
      title := None,
      extractedImages := [],
      status := Pending,
      error := None,
      sources := None)
  }

  /** `rows.map((row, idx) => ...)`. */
  function RowProducts(rows: seq<map<string, string>>, linkCol: string, paletteCol: string): (ps: seq<Product>)
    ensures |ps| == |rows|
  {
    seq(|rows|, i requires 0 <= i < |rows| => RowProduct(rows[i], i, linkCol, paletteCol))
  }

  /** The list `mapProducts` stores: the mapped rows whose link passes the filter. */
  function MappedProducts(rows: seq<map<string, string>>, linkCol: string, paletteCol: string): seq<Product> {
    Filter(RowProducts(rows, linkCol, paletteCol), HasProductLink)
  }

  /** Ids are unique across a product list. */
  predicate DistinctIds(ps: seq<Product>) {
    forall i, j :: 0 <= i < j < |ps| ==> ps[i].id != ps[j].id
  }

  /** Filtering never makes two records share an id. */
  lemma {:induction false} FilterKeepsIdsDistinct(ps: seq<Product>, keep: Product -> bool)
    requires DistinctIds(ps)
    ensures DistinctIds(Filter(ps, keep))
    decreases |ps|
  {
    if ps != [] {
      var rest := Filter(ps[1..], keep);
      FilterKeepsIdsDistinct(ps[1..], keep);
      if keep(ps[0]) {
        var r := [ps[0]] + rest;
        assert Filter(ps, keep) == r;
        forall i, j | 0 <= i < j < |r|
          ensures r[i].id != r[j].id
        {
          if i == 0 {
            assert r[j] == rest[j - 1] && rest[j - 1] in rest;
            var k :| 0 <= k < |ps[1..]| && ps[1..][k] == r[j];
            assert ps[k + 1] == r[j];
          } else {
            assert r[i] == rest[i - 1] && r[j] == rest[j - 1];
          }
        }
      }
    }
  }

  /** Every mapped record is a fresh, pending product whose link passes the filter,
      with no group when no group column was chosen. */
  lemma MappedProductsShape(rows: seq<map<string, string>>, linkCol: string, paletteCol: string)
    ensures forall p :: p in MappedProducts(rows, linkCol, paletteCol) ==>
      && p.status == Pending
      && p.extractedImages == []
      && p.title.None? && p.error.None? && p.sources.None?
      && IsProductLink(p.url)
      && (paletteCol == "" ==> p.palette.None?)
  {
  }

  /** Row `i` is kept exactly when its trimmed link cell passes the filter, and the
      kept rows stay in their original order. */
  lemma MappedProductsKeep(rows: seq<map<string, string>>, linkCol: string, paletteCol: string)
    ensures forall i :: 0 <= i < |rows| ==>
      (RowProduct(rows[i], i, linkCol, paletteCol) in MappedProducts(rows, linkCol, paletteCol) <==>
       IsProductLink(Trim(Cell(rows[i], linkCol))))
    ensures IsSubsequence(MappedProducts(rows, linkCol, paletteCol), RowProducts(rows, linkCol, paletteCol))
  {
    var all := RowProducts(rows, linkCol, paletteCol);
    forall i | 0 <= i < |rows|
      ensures RowProduct(rows[i], i, linkCol, paletteCol) in all
    {
      assert all[i] == RowProduct(rows[i], i, linkCol, paletteCol);
    }
  }

  /** `product-<row index>` ids never collide. */
  lemma MappedIdsDistinct(rows: seq<map<string, string>>, linkCol: string, paletteCol: string)
    ensures DistinctIds(MappedProducts(rows, linkCol, paletteCol))
  {
    var all := RowProducts(rows, linkCol, paletteCol);
    forall i, j | 0 <= i < j < |all|
      ensures all[i].id != all[j].id
    {
      PrefixedNatsDistinct(IdPrefix, i, j);
    }
    FilterKeepsIdsDistinct(all, HasProductLink);
  }

  /** A row without the link column, or with a blank link cell, is dropped. */
  lemma MissingLinkDropsRow(rows: seq<map<string, string>>, linkCol: string, paletteCol: string, i: nat)
    requires i < |rows| && (linkCol !in rows[i] || IsBlank(rows[i][linkCol]))
    ensures RowProduct(rows[i], i, linkCol, paletteCol) !in MappedProducts(rows, linkCol, paletteCol)
  {
    TrimAllSpace(Cell(rows[i], linkCol));
  }

  predicate IsBlank(s: string) {
    forall k :: 0 <= k < |s| ==> IsSpace(s[k])
  }

  // ---------------------------------------------------------------------------
  // Status updates by id
  // ---------------------------------------------------------------------------

  /** A record's fields agree with its status: only a completed record has a title,
      sources or images, and only a failed one has an error message. */
  predicate Consistent(p: Product) {
    && (p.status == Completed ==> p.title.Some? && p.sources.Some? && Distinct(p.extractedImages))
    && (p.status != Completed ==> p.title.None? && p.sources.None? && p.extractedImages == [])
    && (p.status == Failed ==> p.error.Some? && p.error.value != [])
    && (p.status != Failed ==> p.error.None?)
  }

  predicate AllConsistent(ps: seq<Product>) {
    forall i :: 0 <= i < |ps| ==> Consistent(ps[i])
  }

  /** The record after extraction settles: completed with the result's fields, or
      failed with the error's message (`"Extraction failed"` when it has none). */
  function Outcome(p: Product, result: Result<G.ProductInfo, G.ErrorValue>): (q: Product)
    ensures q.id == p.id && q.url == p.url && q.palette == p.palette
    ensures result.Ok? ==>
      && q.status == Completed && q.extractedImages == result.value.images
      && q.title == Some(result.value.title) && q.sources == Some(result.value.sources)
      && q.error == p.error
    ensures result.Err? ==>
      && q.status == Failed && q.error.Some? && q.error.value != []
      && (result.error.message != [] ==> q.error.value == result.error.message)
      && (result.error.message == [] ==> q.error.value == ExtractionFailed)
      && q.extractedImages == p.extractedImages && q.title == p.title && q.sources == p.sources
  {
    match result
    case Ok(info) =>
      p.(status := Completed, extractedImages := info.images, title := Some(info.title), sources := Some(info.sources))
    case Err(e) =>
      p.(status := Failed, error := Some(if e.message == [] then ExtractionFailed else e.message))
  }

  /** The state change before the call: the matching record becomes `processing`. */
  function MarkProcessing(ps: seq<Product>, id: string): (r: seq<Product>)
    ensures |r| == |ps|
  {
    seq(|ps|, i requires 0 <= i < |ps| => if ps[i].id == id then ps[i].(status := Processing) else ps[i])
  }

  /** The state change after the call: the matching record takes the outcome. */
  function Settle(ps: seq<Product>, id: string, result: Result<G.ProductInfo, G.ErrorValue>): (r: seq<Product>)
    ensures |r| == |ps|
  {
    seq(|ps|, i requires 0 <= i < |ps| => if ps[i].id == id then Outcome(ps[i], result) else ps[i])
  }

  /** Every record with this id is still pending or processing. */
  predicate Unsettled(ps: seq<Product>, id: string) {
    forall k :: 0 <= k < |ps| && ps[k].id == id ==> ps[k].status == Pending || ps[k].status == Processing
  }

  /** Both updates keep every id and position, touch only the record with the given id,
      and keep unique ids; applied to a record that has not settled yet, they keep
      every record consistent, and marking leaves it unsettled. */
  lemma UpdatesTouchOnlyTheMatch(ps: seq<Product>, id: string, result: Result<G.ProductInfo, G.ErrorValue>)
    requires result.Ok? ==> Distinct(result.value.images)
    ensures forall i :: 0 <= i < |ps| ==>
      && MarkProcessing(ps, id)[i].id == ps[i].id
      && Settle(ps, id, result)[i].id == ps[i].id
      && (ps[i].id != id ==> MarkProcessing(ps, id)[i] == ps[i] && Settle(ps, id, result)[i] == ps[i])
    ensures DistinctIds(ps) ==> DistinctIds(MarkProcessing(ps, id)) && DistinctIds(Settle(ps, id, result))
    ensures AllConsistent(ps) && Unsettled(ps, id) ==>
      && AllConsistent(MarkProcessing(ps, id)) && Unsettled(MarkProcessing(ps, id), id)
      && AllConsistent(Settle(ps, id, result))
  {
  }

  /** Completions of different products commute: the order in which the members of
      one batch settle does not change the result. */
  lemma SettleCommutes(ps: seq<Product>, a: string, ra: Result<G.ProductInfo, G.ErrorValue>,
                       b: string, rb: Result<G.ProductInfo, G.ErrorValue>)
    requires a != b
    ensures Settle(Settle(ps, a, ra), b, rb) == Settle(Settle(ps, b, rb), a, ra)
  {
    var x, y := Settle(Settle(ps, a, ra), b, rb), Settle(Settle(ps, b, rb), a, ra);
    forall i | 0 <= i < |ps|
      ensures x[i] == y[i]
    {
    }
  }

  // ---------------------------------------------------------------------------
  // The extraction run
  // ---------------------------------------------------------------------------

  /** The products the run targets, in list order. */
  predicate IsPending(p: Product) {
    p.status == Pending
  }

  function PendingOf(ps: seq<Product>): seq<Product> {
    Filter(ps, IsPending)
  }

  /** The final record of a pending product: the outcome of its own reply. */
  function Finished(p: Product, replies: string -> G.Reply): Product {
    Outcome(p, G.ExtractProductInfo(replies(p.id)))
  }

  /** What `startExtraction` leaves behind: every product pending at the start has
      settled with the outcome of its reply; every other record is as it was. */
  function Extracted(ps: seq<Product>, replies: string -> G.Reply): (r: seq<Product>)
    ensures |r| == |ps|
  {
    seq(|ps|, i requires 0 <= i < |ps| => if ps[i].status == Pending then Finished(ps[i], replies) else ps[i])
  }

  /** Ranking of statuses along the forward-only path. */
  function Rank(s: Status): nat {
    match s
    case Pending => 0
    case Processing => 1
    case Completed => 2
    case Failed => 2
  }

  /** The run moves every record forward or leaves it alone: pending ones end
      completed or failed, failed ones are not retried, ids are kept, and the list
      stays well-formed. */
  lemma ExtractedMovesForward(ps: seq<Product>, replies: string -> G.Reply)
    requires DistinctIds(ps) && AllConsistent(ps)
    ensures forall i :: 0 <= i < |ps| ==>
      && Extracted(ps, replies)[i].id == ps[i].id
      && Rank(ps[i].status) <= Rank(Extracted(ps, replies)[i].status)
      && (ps[i].status == Pending ==> Extracted(ps, replies)[i].status in {Completed, Failed})
      && (ps[i].status != Pending ==> Extracted(ps, replies)[i] == ps[i])
    ensures DistinctIds(Extracted(ps, replies)) && AllConsistent(Extracted(ps, replies))
  {
  }

  /** A record part-way through the run: settled once its id is in `done`, processing
      once its id is in `begun`, otherwise as it was. */
  function Stage(p: Product, replies: string -> G.Reply, begun: set<string>, done: set<string>): Product {
    if p.status != Pending then p
    else if p.id in done then Finished(p, replies)
    else if p.id in begun then p.(status := Processing)
    else p
  }

  function Staged(ps: seq<Product>, replies: string -> G.Reply, begun: set<string>, done: set<string>): (r: seq<Product>)
    ensures |r| == |ps|
  {
    seq(|ps|, i requires 0 <= i < |ps| => Stage(ps[i], replies, begun, done))
  }

  /** Every record with this id is pending in `ps`. */
  predicate OnlyPendingWith(ps: seq<Product>, id: string) {
    forall k :: 0 <= k < |ps| && ps[k].id == id ==> ps[k].status == Pending
  }

  /** Every stage of a run over a well-formed list is well-formed. */
  lemma StagedKeepsValid(ps: seq<Product>, replies: string -> G.Reply, begun: set<string>, done: set<string>)
    ensures DistinctIds(ps) ==> DistinctIds(Staged(ps, replies, begun, done))
    ensures AllConsistent(ps) ==> AllConsistent(Staged(ps, replies, begun, done))
  {
    var r := Staged(ps, replies, begun, done);
    assert forall i :: 0 <= i < |ps| ==> r[i].id == ps[i].id;
  }

  lemma StagedStart(ps: seq<Product>, replies: string -> G.Reply)
    ensures Staged(ps, replies, {}, {}) == ps
  {
    assert forall i :: 0 <= i < |ps| ==> Staged(ps, replies, {}, {})[i] == ps[i];
  }

  lemma StagedEnd(ps: seq<Product>, replies: string -> G.Reply, done: set<string>)
    requires forall k :: 0 <= k < |ps| && ps[k].status == Pending ==> ps[k].id in done
    ensures Staged(ps, replies, done, done) == Extracted(ps, replies)
  {
    assert forall i :: 0 <= i < |ps| ==> Staged(ps, replies, done, done)[i] == Extracted(ps, replies)[i];
  }

  /** Marking a not-yet-started pending product moves it into `begun`. */
  lemma MarkStep(ps: seq<Product>, replies: string -> G.Reply, begun: set<string>, done: set<string>, id: string)
    requires id !in begun && id !in done && OnlyPendingWith(ps, id)
    ensures MarkProcessing(Staged(ps, replies, begun, done), id) == Staged(ps, replies, begun + {id}, done)
  {
    var x, y := MarkProcessing(Staged(ps, replies, begun, done), id), Staged(ps, replies, begun + {id}, done);
    forall i | 0 <= i < |ps|
      ensures x[i] == y[i]
    {
    }
  }

  /** Settling a started pending product with its own reply moves it into `done`. */
  lemma SettleStep(ps: seq<Product>, replies: string -> G.Reply, begun: set<string>, done: set<string>, id: string)
    requires id in begun && id !in done && OnlyPendingWith(ps, id)
    ensures Settle(Staged(ps, replies, begun, done), id, G.ExtractProductInfo(replies(id)))
         == Staged(ps, replies, begun, done + {id})
  {
    var x, y := Settle(Staged(ps, replies, begun, done), id, G.ExtractProductInfo(replies(id))), Staged(ps, replies, begun, done + {id});
    forall i | 0 <= i < |ps|
      ensures x[i] == y[i]
    {
    }
  }

  /** The pending list of a list with unique ids: unique ids, and each member is the
      only record with its id, a pending one; every pending record is in it. */
  lemma PendingOfFacts(ps: seq<Product>)
    requires DistinctIds(ps)
    ensures DistinctIds(PendingOf(ps))
    ensures forall j :: 0 <= j < |PendingOf(ps)| ==> OnlyPendingWith(ps, PendingOf(ps)[j].id)
    ensures forall k :: 0 <= k < |ps| && ps[k].status == Pending ==> ps[k] in PendingOf(ps)
  {
    var pending := PendingOf(ps);
    FilterKeepsIdsDistinct(ps, IsPending);
    forall j | 0 <= j < |pending|
      ensures OnlyPendingWith(ps, pending[j].id)
    {
      assert pending[j] in pending;
      var k0 :| 0 <= k0 < |ps| && ps[k0] == pending[j];
    }
  }

  /** The state the component keeps about the product list. */
  class AppState {
    var products: seq<Product>
    var error: Option<string>
    var isExtracting: bool

    /** Ids are unique and every record's fields agree with its status. */
    ghost predicate Valid()
      reads this
    {
      DistinctIds(products) && AllConsistent(products)
    }

    constructor()
      ensures products == [] && error.None? && !isExtracting
      ensures Valid()
    {
      products := [];
      error := None;
      isExtracting := false;
    }

    /** `mapProducts`: store the mapped rows, and set or clear the error. */
    method MapProducts(rows: seq<map<string, string>>, linkCol: string, paletteCol: string)
      modifies this
      ensures products == MappedProducts(rows, linkCol, paletteCol)
      ensures error == if products == [] then Some(NoLinksMessage(linkCol)) else None
      ensures isExtracting == old(isExtracting)
      ensures Valid()
    {
      var mapped := MappedProducts(rows, linkCol, paletteCol);
      MappedIdsDistinct(rows, linkCol, paletteCol);
      MappedProductsShape(rows, linkCol, paletteCol);
      products := mapped;
      if |mapped| == 0 {
        error := Some(NoLinksMessage(linkCol));
      } else {
        error := None;
      }
    }

    /** The part of `processProduct` before the call: mark the record `processing`. */
    method StartProcessing(id: string)
      modifies this
      ensures products == MarkProcessing(old(products), id)
      ensures error == old(error) && isExtracting == old(isExtracting)
      ensures old(Valid() && Unsettled(products, id)) ==> Valid() && Unsettled(products, id)
    {
      UpdatesTouchOnlyTheMatch(products, id, Err(G.ErrorValue([])));
      products := MarkProcessing(products, id);
    }

    /** The part of `processProduct` after the call settles. */
    method FinishProcessing(id: string, reply: G.Reply)
      modifies this
      ensures products == Settle(old(products), id, G.ExtractProductInfo(reply))
      ensures error == old(error) && isExtracting == old(isExtracting)
      ensures old(Valid() && Unsettled(products, id)) ==> Valid()
    {
      var result := G.ExtractProductInfo(reply);
      UpdatesTouchOnlyTheMatch(products, id, result);
      products := Settle(products, id, result);
    }

    /** `processProduct` run on its own: mark, call, settle. */
    method ProcessProduct(product: Product, reply: G.Reply)
      requires Valid()
      modifies this
      ensures products == Settle(MarkProcessing(old(products), product.id), product.id, G.ExtractProductInfo(reply))
      ensures error == old(error) && isExtracting == old(isExtracting)
      ensures DistinctIds(products)
      ensures old(Unsettled(products, product.id)) ==> Valid()
    {
      UpdatesTouchOnlyTheMatch(products, product.id, G.ExtractProductInfo(reply));
      StartProcessing(product.id);
      UpdatesTouchOnlyTheMatch(products, product.id, G.ExtractProductInfo(reply));
      FinishProcessing(product.id, reply);
    }

    /** `Promise.all(batch.map(processProduct))` for a batch of one or two: every
        member is marked before any call returns, then the calls settle, the second
        member first when `secondFirst` holds. */
    method RunBatch(batch: seq<Product>, replies: string -> G.Reply, secondFirst: bool,
                    ghost start: seq<Product>, ghost done: set<string>)
      requires 1 <= |batch| <= 2
      requires products == Staged(start, replies, done, done)
      requires forall j :: 0 <= j < |batch| ==> batch[j].id !in done && OnlyPendingWith(start, batch[j].id)
      requires |batch| == 2 ==> batch[0].id != batch[1].id
      modifies this
      ensures products == Staged(start, replies, done + BatchIds(batch), done + BatchIds(batch))
      ensures error == old(error) && isExtracting == old(isExtracting)
      ensures DistinctIds(start) && AllConsistent(start) ==> Valid()
    {
      var a := batch[0];
      if |batch| == 1 {
        assert BatchIds(batch) == {a.id};
        MarkStep(start, replies, done, done, a.id);
        StartProcessing(a.id);
        SettleStep(start, replies, done + {a.id}, done, a.id);
        FinishProcessing(a.id, replies(a.id));
      } else {
        var b := batch[1];
        var started := done + {a.id, b.id};
        assert BatchIds(batch) == {a.id, b.id};
        MarkStep(start, replies, done, done, a.id);
        StartProcessing(a.id);
        MarkStep(start, replies, done + {a.id}, done, b.id);
        assert done + {a.id} + {b.id} == started;
        StartProcessing(b.id);
        if secondFirst {
          SettleStep(start, replies, started, done, b.id);
          FinishProcessing(b.id, replies(b.id));
          SettleStep(start, replies, started, done + {b.id}, a.id);
          assert done + {b.id} + {a.id} == started;
          FinishProcessing(a.id, replies(a.id));
        } else {
          SettleStep(start, replies, started, done, a.id);
          FinishProcessing(a.id, replies(a.id));
          SettleStep(start, replies, started, done + {a.id}, b.id);
          assert done + {a.id} + {b.id} == started;
          FinishProcessing(b.id, replies(b.id));
        }
      }
      StagedKeepsValid(start, replies, done + BatchIds(batch), done + BatchIds(batch));
    }

    /** `startExtraction`: unless a run is already going, take the products pending
        now and process them in consecutive batches of two, each batch settled before
        the next starts. `replies` gives each product's reply, and `secondFirst(i)`
        says whether, in the batch starting at pending index `i`, the second call
        settles first. */
    method StartExtraction(replies: string -> G.Reply, secondFirst: nat -> bool) returns (ghost batches: nat)
      requires Valid()
      modifies this
      ensures Valid()
      ensures error == old(error) && isExtracting == old(isExtracting)
      ensures old(isExtracting) ==> products == old(products) && batches == 0
      ensures !old(isExtracting) ==> products == Extracted(old(products), replies)
      ensures !old(isExtracting) ==> batches == (|PendingOf(old(products))| + 1) / 2
    {
      batches := 0;
      if isExtracting {
        return;
      }
      isExtracting := true;
      ghost var start := products;
      var pending := PendingOf(products);
      PendingOfFacts(start);
      StagedStart(start, replies);
      ghost var done: set<string> := {};
      var i := 0;
      while i < |pending|
        invariant i <= |pending| + 1 && i == 2 * batches
        invariant isExtracting && error == old(error)
        invariant products == Staged(start, replies, done, done)
        invariant DoneUpTo(pending, done, if i <= |pending| then i else |pending|)
      {
        var hi := if i + 2 <= |pending| then i + 2 else |pending|;
        var batch := pending[i..hi];
        BatchAdvance(start, pending, done, i, hi);
        RunBatch(batch, replies, secondFirst(i), start, done);
        done := done + BatchIds(batch);
        i := i + 2;
        batches := batches + 1;
      }
      forall k | 0 <= k < |start| && start[k].status == Pending
        ensures start[k].id in done
      {
        var j :| 0 <= j < |pending| && pending[j] == start[k];
        assert pending[j].id in done;
      }
      StagedEnd(start, replies, done);
      ExtractedMovesForward(start, replies);
      isExtracting := false;
    }
  }

  /** Exactly the first `n` products of `pending` are in `done`. */
  ghost predicate DoneUpTo(pending: seq<Product>, done: set<string>, n: nat) {
    forall j :: 0 <= j < |pending| ==> (pending[j].id in done <==> j < n)
  }

  /** Settling the batch `pending[i..hi]` extends the settled prefix to `hi`, and the
      batch meets what running it needs. */
  lemma BatchAdvance(start: seq<Product>, pending: seq<Product>, done: set<string>, i: nat, hi: nat)
    requires pending == PendingOf(start) && DistinctIds(pending)
    requires forall j :: 0 <= j < |pending| ==> OnlyPendingWith(start, pending[j].id)
    requires i < hi <= |pending| && hi <= i + 2 && DoneUpTo(pending, done, i)
    ensures var batch := pending[i..hi];
      && 1 <= |batch| <= 2
      && (forall j :: 0 <= j < |batch| ==> batch[j].id !in done && OnlyPendingWith(start, batch[j].id))
      && (|batch| == 2 ==> batch[0].id != batch[1].id)
      && DoneUpTo(pending, done + BatchIds(batch), hi)
  {
    var batch := pending[i..hi];
    assert forall j :: 0 <= j < |batch| ==> batch[j] == pending[i + j];
    var ids := BatchIds(batch);
    forall j | 0 <= j < |pending|
      ensures pending[j].id in done + ids <==> j < hi
    {
      if pending[j].id in ids {
        var m :| 0 <= m < |batch| && batch[m].id == pending[j].id;
        assert pending[i + m].id == pending[j].id;
      }
      if i <= j < hi {
        assert batch[j - i].id in ids;
      }
    }
  }

  /** The ids of a batch. */
  function BatchIds(batch: seq<Product>): (ids: set<string>)
    ensures forall j :: 0 <= j < |batch| ==> batch[j].id in ids
    ensures forall id :: id in ids ==> exists j :: 0 <= j < |batch| && batch[j].id == id
  {
    set j | 0 <= j < |batch| :: batch[j].id
  }
}
