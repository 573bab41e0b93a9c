/**
 * The per-row validator and normaliser of the CSV product import, and the
 * split of a file's rows into normalised products and rejected rows.
 */
module CsvRows {
  import opened Wrappers
  import JsString
  import JsNumber

  type StoreId = string
  /** An opaque timestamp (`new Date()`). */
  type Time = nat

  /** One parsed CSV row, keyed by the normalised header names; `None` is a
      column the file does not have. */
  datatype CsvRow = CsvRow(
    name: Option<string>,
    description: Option<string>,
    price: Option<string>,
    imageurl: Option<string>,
    stock: Option<string>)

  /** What the CSV parser hands back: the header cells as written, the data
      records, and how many structural errors it reported. */
  datatype ParsedCsv = ParsedCsv(headers: seq<string>, records: seq<seq<string>>, errorCount: nat)

  /** The product record a valid row becomes; `price` is in minor units. */
  datatype ProductDraft = ProductDraft(
    name: string,
    description: string,
    price: int,
    imageUrl: string,
    stock: int,
    soldCount: int,
    storeId: StoreId,
    createdAt: Time,
    updatedAt: Time)

  datatype RejectReason = NameRequired | PriceRequired | InvalidPrice | InvalidStock

  datatype RowOutcome = Accepted(product: ProductDraft) | Rejected(reason: RejectReason)

  datatype RowError = RowError(row: CsvRow, reason: RejectReason)

  /** The message recorded with a rejected row. */
  function Message(r: RejectReason): string {
    match r
    case NameRequired => "Nome é obrigatório"
    case PriceRequired => "Preço é obrigatório"
    case InvalidPrice => "Preço inválido"
    case InvalidStock => "Estoque inválido"
  }

  /** The recorded message tells the reason apart. */
  lemma MessageIdentifiesReason(a: RejectReason, b: RejectReason)
    ensures Message(a) == Message(b) ==> a == b
  {
    assert |Message(NameRequired)| == 18 && |Message(PriceRequired)| == 19;
    assert |Message(InvalidPrice)| == 14 && |Message(InvalidStock)| == 16;
  }

  // ---------------------------------------------------------------- headers

  /** Header cells are trimmed and lower-cased before they name a column:
      a normalised header has no ASCII capital and no white space at either
      end. */
  function NormalizeHeader(h: string): (k: string)
    ensures forall i :: 0 <= i < |k| ==> !('A' <= k[i] <= 'Z')
    ensures k == [] || (!JsString.IsWhitespace(k[0]) && !JsString.IsWhitespace(k[|k| - 1]))
  {
    JsString.TrimShape(h);
    JsString.ToLowerProperties(JsString.Trim(h));
    JsString.ToLower(JsString.Trim(h))
  }

  /** Normalising a normalised header changes nothing. */
  lemma NormalizeHeaderIdempotent(h: string)
    ensures NormalizeHeader(NormalizeHeader(h)) == NormalizeHeader(h)
  {
    var x := JsString.Trim(h);
    var l := JsString.ToLower(x);
    JsString.TrimShape(h);
    JsString.ToLowerProperties(x);
    if l != [] {
      assert !JsString.IsWhitespace(l[0]) && !JsString.IsWhitespace(l[|l| - 1]);
      assert JsString.TrimStart(l) == l;
      assert JsString.TrimEnd(l) == l;
    }
    assert JsString.Trim(l) == l;
  }

  /** The header row after the parser's header transform. */
  function NormalizedHeaders(headers: seq<string>): (names: seq<string>)
    ensures |names| == |headers|
    ensures forall i :: 0 <= i < |headers| ==> names[i] == NormalizeHeader(headers[i])
  {
    seq(|headers|, i requires 0 <= i < |headers| => NormalizeHeader(headers[i]))
  }

  /** The first column at or after `from` named `key`. */
  function HeaderIndex(names: seq<string>, key: string, from: nat): (k: Option<nat>)
    ensures k.Some? ==> from <= k.value < |names| && names[k.value] == key
    ensures k.Some? ==> forall m :: from <= m < k.value ==> names[m] != key
    ensures k.None? ==> forall m :: from <= m < |names| ==> names[m] != key
    decreases |names| - from
  {
    if from >= |names| then None
    else if names[from] == key then Some(from)
    else HeaderIndex(names, key, from + 1)
  }

  /** The cell of `record` under the first header that normalises to `key`;
      `None` when there is no such header or the record is too short. */
  function FieldOf(headers: seq<string>, record: seq<string>, key: string): Option<string> {
    match HeaderIndex(NormalizedHeaders(headers), key, 0)
    case None => None
    case Some(k) => if k < |record| then Some(record[k]) else None
  }

  function RowOf(headers: seq<string>, record: seq<string>): CsvRow {
    CsvRow(
      FieldOf(headers, record, "name"),
      FieldOf(headers, record, "description"),
      FieldOf(headers, record, "price"),
      FieldOf(headers, record, "imageurl"),
      FieldOf(headers, record, "stock"))
  }

  /** The rows of a parsed file, one per data record. */
  function RowsOf(csv: ParsedCsv): (rows: seq<CsvRow>)
    ensures |rows| == |csv.records|
    ensures forall i :: 0 <= i < |rows| ==> rows[i] == RowOf(csv.headers, csv.records[i])
  {
    seq(|csv.records|, i requires 0 <= i < |csv.records| => RowOf(csv.headers, csv.records[i]))
  }

  /** A column is read under the first header that normalises to the key. */
  lemma FieldOfFirstMatch(headers: seq<string>, record: seq<string>, key: string, k: nat)
    requires k < |headers| && k < |record| && NormalizeHeader(headers[k]) == key
    requires forall m :: 0 <= m < k ==> NormalizeHeader(headers[m]) != key
    ensures FieldOf(headers, record, key) == Some(record[k])
  {
    var names := NormalizedHeaders(headers);
    var r := HeaderIndex(names, key, 0);
    assert names[k] == key;
    assert r.Some?;
    assert !(r.value < k);
    assert !(k < r.value);
  }

  // -------------------------------------------------------------- validation

  /** `!v?.trim()`: absent, or nothing but white space. */
  predicate IsBlank(v: Option<string>) {
    v.None? || JsString.Trim(v.value) == ""
  }

  /** `!v` for a string that may be absent: absent or empty. */
  predicate IsFalsy(v: Option<string>) {
    v.None? || v.value == ""
  }

  /** The price in minor units, or `None` for an invalid price: the first ','
      becomes '.', `parseFloat` reads the longest numeric prefix, a value
      below zero is refused, and `Math.round(price * 100)` gives the cents. */
  function PriceCents(raw: string): (c: Option<int>)
    ensures c.Some? ==> c.value >= 0
    ensures c.Some? ==>
      var d := JsNumber.ParseFloat(JsString.ReplaceFirst(raw, ',', '.'));
      d.Some? && c.value == JsNumber.RoundedHundredths(d.value)
    ensures c.None? <==> match JsNumber.ParseFloat(JsString.ReplaceFirst(raw, ',', '.'))
                         case None => true
                         case Some(d) => JsNumber.IsBelowZero(d)
  {
    match JsNumber.ParseFloat(JsString.ReplaceFirst(raw, ',', '.'))
    case None => None
    case Some(d) => if JsNumber.IsBelowZero(d) then None else Some(JsNumber.RoundedHundredths(d))
  }

  /** The stock: 0 when absent or empty, otherwise `parseInt`, refused when
      not a number or below zero. */
  function StockCount(raw: Option<string>): (n: Option<int>)
    ensures n.Some? ==> n.value >= 0
    ensures IsFalsy(raw) ==> n == Some(0)
    ensures !IsFalsy(raw) && n.Some? ==> n == JsNumber.ParseInt(raw.value)
    ensures !IsFalsy(raw) ==> (n.None? <==> (JsNumber.ParseInt(raw.value).None? || JsNumber.ParseInt(raw.value).value < 0))
  {
    if IsFalsy(raw) then Some(0)
    else
      match JsNumber.ParseInt(raw.value)
      case None => None
      case Some(v) => if v < 0 then None else Some(v)
  }

  /** `v?.trim() || ''`. */
  function TrimOrEmpty(v: Option<string>): string {
    if v.None? then "" else JsString.Trim(v.value)
  }

  /** Validates and normalises one row; the first failing rule wins, in the
      order name, price present, price valid, stock valid. */
  function ValidateRow(row: CsvRow, storeId: StoreId, now: Time): (r: RowOutcome)
    ensures r == Rejected(NameRequired) <==> IsBlank(row.name)
    ensures r == Rejected(PriceRequired) <==> !IsBlank(row.name) && IsFalsy(row.price)
    ensures r == Rejected(InvalidPrice) <==>
      !IsBlank(row.name) && !IsFalsy(row.price) && PriceCents(row.price.value).None?
    ensures r == Rejected(InvalidStock) <==>
      !IsBlank(row.name) && !IsFalsy(row.price) && PriceCents(row.price.value).Some?
      && StockCount(row.stock).None?
    ensures r.Accepted? ==>
      && row.name.Some? && row.price.Some?
      && r.product.name == JsString.Trim(row.name.value) && r.product.name != ""
      && r.product.description == TrimOrEmpty(row.description)
      && r.product.imageUrl == TrimOrEmpty(row.imageurl)
      && Some(r.product.price) == PriceCents(row.price.value) && r.product.price >= 0
      && Some(r.product.stock) == StockCount(row.stock) && r.product.stock >= 0
      && r.product.soldCount == 0 && r.product.storeId == storeId
      && r.product.createdAt == now && r.product.updatedAt == now
  {
    if IsBlank(row.name) then Rejected(NameRequired)
    else if IsFalsy(row.price) then Rejected(PriceRequired)
    else
      var price := PriceCents(row.price.value);
      var stock := StockCount(row.stock);
      if price.None? then Rejected(InvalidPrice)
      else if stock.None? then Rejected(InvalidStock)
      else Accepted(ProductDraft(
        JsString.Trim(row.name.value), TrimOrEmpty(row.description), price.value,
        TrimOrEmpty(row.imageurl), stock.value, 0, storeId, now, now))
  }

  /** A price written with two decimals, "units.hh" or "units,hh". */
  function RenderPrice(cents: nat, separator: char): string {
    var h := cents % 100;
    JsNumber.Render(cents / 100) + [separator] + [JsNumber.DigitChar(h / 10), JsNumber.DigitChar(h % 10)]
  }

  /** A price written with two decimals, with either separator, is read back
      as exactly its cents. */
  lemma PriceRoundTrip(cents: nat, separator: char)
    requires separator == '.' || separator == ','
    ensures PriceCents(RenderPrice(cents, separator)) == Some(cents)
  {
    var d := JsNumber.Decimal(false, cents, -2);
    RenderedPriceParses(cents, separator);
    assert !JsNumber.IsBelowZero(d);
    assert JsNumber.Pow10(0) == 1;
    assert JsNumber.RoundedHundredths(d) == cents;
  }

  /** After the separator fix-up, the rendered price parses as `cents`
      hundredths. */
  lemma RenderedPriceParses(cents: nat, separator: char)
    requires separator == '.' || separator == ','
    ensures JsNumber.ParseFloat(JsString.ReplaceFirst(RenderPrice(cents, separator), ',', '.'))
            == Some(JsNumber.Decimal(false, cents, -2))
  {
    RenderedPriceDotted(cents, separator);
    DottedPriceParses(cents);
  }

  /** The rendered price with its separator turned into '.'. */
  function DottedPrice(cents: nat): string {
    var h := cents % 100;
    JsNumber.Render(cents / 100) + "." + [JsNumber.DigitChar(h / 10), JsNumber.DigitChar(h % 10)]
  }

  lemma RenderedPriceDotted(cents: nat, separator: char)
    requires separator == '.' || separator == ','
    ensures JsString.ReplaceFirst(RenderPrice(cents, separator), ',', '.') == DottedPrice(cents)
  {
    var h := cents % 100;
    var units := JsNumber.Render(cents / 100);
    var two := [JsNumber.DigitChar(h / 10), JsNumber.DigitChar(h % 10)];
    assert RenderPrice(cents, separator) == units + [separator] + two;
    SeparatorBecomesDot(units, separator, two);
  }

  lemma DottedPriceParses(cents: nat)
    ensures JsNumber.ParseFloat(DottedPrice(cents)) == Some(JsNumber.Decimal(false, cents, -2))
  {
    var h := cents % 100;
    JsNumber.ParseFloatFixedPoint(cents / 100, h);
    assert (cents / 100) * 100 + h == cents;
  }

  /** Replacing the first ',' turns "units,hh" into "units.hh" and leaves
      "units.hh" alone. */
  lemma SeparatorBecomesDot(units: string, separator: char, two: string)
    requires JsNumber.AllDigits(units, false) && JsNumber.AllDigits(two, false)
    requires separator == '.' || separator == ','
    ensures JsString.ReplaceFirst(units + [separator] + two, ',', '.') == units + "." + two
  {
    assert ',' !in units by {
      forall k | 0 <= k < |units| ensures units[k] != ',' {
        assert JsNumber.IsDigitIn(units[k], false);
      }
    }
    if separator == ',' {
      JsString.ReplaceFirstAt(units, ',', '.', two);
    } else {
      var dotted := units + "." + two;
      assert ',' !in dotted by {
        forall k | 0 <= k < |dotted| ensures dotted[k] != ',' {
          if k < |units| {
            assert dotted[k] == units[k];
          } else if k > |units| {
            assert dotted[k] == two[k - |units| - 1];
            assert JsNumber.IsDigitIn(two[k - |units| - 1], false);
          }
        }
      }
      JsString.ReplaceFirstAbsent(dotted, ',', '.');
    }
  }

  /** A stock written as a decimal numeral is read back as itself. */
  lemma StockRoundTrip(stock: nat)
    ensures StockCount(Some(JsNumber.Render(stock))) == Some(stock)
  {
    var r := JsNumber.Render(stock);
    assert r + "" == r;
    JsNumber.ParseIntRender(stock, "");
    assert JsNumber.ParseInt(r) == Some(stock);
    assert !IsFalsy(Some(r));
  }

  /** A row with a non-blank name, a two-decimal price and a numeral stock is
      accepted, and normalising it recovers exactly those values. */
  lemma WellFormedRowAccepted(name: string, description: Option<string>, cents: nat, separator: char,
                              imageurl: Option<string>, stock: nat, storeId: StoreId, now: Time)
    requires JsString.Trim(name) != ""
    requires separator == '.' || separator == ','
    ensures ValidateRow(CsvRow(Some(name), description, Some(RenderPrice(cents, separator)), imageurl,
                               Some(JsNumber.Render(stock))), storeId, now)
            == Accepted(ProductDraft(JsString.Trim(name), TrimOrEmpty(description), cents,
                                     TrimOrEmpty(imageurl), stock, 0, storeId, now, now))
  {
    var price := RenderPrice(cents, separator);
    var row := CsvRow(Some(name), description, Some(price), imageurl, Some(JsNumber.Render(stock)));
    PriceRoundTrip(cents, separator);
    StockRoundTrip(stock);
    assert !IsBlank(row.name);
    assert !IsFalsy(row.price);
    assert PriceCents(row.price.value) == Some(cents);
    assert StockCount(row.stock) == Some(stock);
  }

  /** A row with an empty name is refused for its name first. */
  lemma EmptyNameExample(storeId: StoreId, now: Time)
    ensures ValidateRow(CsvRow(Some(""), None, Some("10.00"), None, None), storeId, now)
            == Rejected(NameRequired)
  {
    assert IsBlank(Some(""));
  }

  /** A price that starts with a lower-case letter has no numeric prefix. */
  lemma LetterPriceInvalid(price: string)
    requires |price| > 0 && 'a' <= price[0] <= 'z'
    ensures PriceCents(price) == None
  {
    var dotted := JsString.ReplaceFirst(price, ',', '.');
    assert dotted[0] == price[0];
    assert JsString.TrimStart(dotted) == dotted by {
      assert !JsString.IsWhitespace(dotted[0]);
    }
    JsNumber.ParseFloatNeedsDigit(dotted);
  }

  /** A named row whose price starts with a lower-case letter is refused as
      an invalid price, whatever its other columns hold. */
  lemma LetterPriceRowRejected(name: string, description: Option<string>, price: string,
                               imageurl: Option<string>, stock: Option<string>, storeId: StoreId, now: Time)
    requires JsString.Trim(name) != ""
    requires |price| > 0 && 'a' <= price[0] <= 'z'
    ensures ValidateRow(CsvRow(Some(name), description, Some(price), imageurl, stock), storeId, now)
            == Rejected(InvalidPrice)
  {
    LetterPriceInvalid(price);
  }

  /** "19,90" with stock "5" becomes a product at 1990 cents with 5 in stock. */
  lemma CommaPriceExample(storeId: StoreId, now: Time)
    ensures ValidateRow(CsvRow(Some("Widget"), None, Some("19,90"), None, Some("5")), storeId, now)
            == Accepted(ProductDraft("Widget", "", 1990, "", 5, 0, storeId, now, now))
  {
    JsString.TrimKeeps("Widget");
    CommaPriceRendering();
    var row := CsvRow(Some("Widget"), None, Some(RenderPrice(1990, ',')), None, Some(JsNumber.Render(5)));
    assert row == CsvRow(Some("Widget"), None, Some("19,90"), None, Some("5"));
    WellFormedRowAccepted("Widget", None, 1990, ',', None, 5, storeId, now);
    assert ValidateRow(row, storeId, now) == Accepted(ProductDraft("Widget", "", 1990, "", 5, 0, storeId, now, now));
  }

  lemma CommaPriceRendering()
    ensures RenderPrice(1990, ',') == "19,90"
    ensures JsNumber.Render(5) == "5"
  {
    assert JsNumber.Render(19) == "19";
  }

  // ------------------------------------------------------------ accumulation

  /** The normalised products of the valid rows, in row order. */
  function AcceptedProducts(rows: seq<CsvRow>, storeId: StoreId, now: Time): (products: seq<ProductDraft>)
    ensures |products| <= |rows|
  {
    if rows == [] then []
    else
      var prev := AcceptedProducts(rows[..|rows| - 1], storeId, now);
      match ValidateRow(rows[|rows| - 1], storeId, now)
      case Accepted(p) => prev + [p]
      case Rejected(_) => prev
  }

  /** The rejected rows with their reasons, in row order. */
  function Rejections(rows: seq<CsvRow>, storeId: StoreId, now: Time): (errors: seq<RowError>)
    ensures |errors| <= |rows|
  {
    if rows == [] then []
    else
      var prev := Rejections(rows[..|rows| - 1], storeId, now);
      match ValidateRow(rows[|rows| - 1], storeId, now)
      case Accepted(_) => prev
      case Rejected(reason) => prev + [RowError(rows[|rows| - 1], reason)]
  }

  /** Taking one more row extends exactly one of the two lists, by that row. */
  lemma PrefixStep(rows: seq<CsvRow>, storeId: StoreId, now: Time, i: nat)
    requires i < |rows|
    ensures var out := ValidateRow(rows[i], storeId, now);
      && AcceptedProducts(rows[..i + 1], storeId, now)
         == AcceptedProducts(rows[..i], storeId, now) + (if out.Accepted? then [out.product] else [])
      && Rejections(rows[..i + 1], storeId, now)
         == Rejections(rows[..i], storeId, now) + (if out.Rejected? then [RowError(rows[i], out.reason)] else [])
  {
    var next := rows[..i + 1];
    assert next[..|next| - 1] == rows[..i];
    assert next[|next| - 1] == rows[i];
  }

  /** Every row lands in exactly one of the two lists. */
  lemma {:induction false} PartitionCounts(rows: seq<CsvRow>, storeId: StoreId, now: Time)
    ensures |AcceptedProducts(rows, storeId, now)| + |Rejections(rows, storeId, now)| == |rows|
  {
    if rows != [] {
      PartitionCounts(rows[..|rows| - 1], storeId, now);
    }
  }

  /** Each rejection names a row of the file and the reason that row fails. */
  lemma {:induction false} RejectionsAreRejected(rows: seq<CsvRow>, storeId: StoreId, now: Time)
    ensures forall e :: e in Rejections(rows, storeId, now) ==>
      e.row in rows && ValidateRow(e.row, storeId, now) == Rejected(e.reason)
  {
    if rows != [] {
      var init := rows[..|rows| - 1];
      RejectionsAreRejected(init, storeId, now);
      assert forall x :: x in init ==> x in rows;
    }
  }

  /** Each accepted product is the normalisation of a row of the file, and is
      well formed: a non-empty name, non-negative price and stock, nothing sold
      yet, and the importing store. */
  lemma {:induction false} AcceptedAreNormalised(rows: seq<CsvRow>, storeId: StoreId, now: Time)
    ensures forall p :: p in AcceptedProducts(rows, storeId, now) ==>
      (exists row :: row in rows && ValidateRow(row, storeId, now) == Accepted(p))
      && p.name != "" && p.price >= 0 && p.stock >= 0 && p.soldCount == 0 && p.storeId == storeId
  {
    if rows != [] {
      var init := rows[..|rows| - 1];
      AcceptedAreNormalised(init, storeId, now);
      assert forall x :: x in init ==> x in rows;
      assert rows[|rows| - 1] in rows;
    }
  }

  /** There are no rejections exactly when every row is valid. */
  lemma NoRejectionsIffAllValid(rows: seq<CsvRow>, storeId: StoreId, now: Time)
    ensures Rejections(rows, storeId, now) == [] <==>
      forall i :: 0 <= i < |rows| ==> ValidateRow(rows[i], storeId, now).Accepted?
  {
    if forall i :: 0 <= i < |rows| ==> ValidateRow(rows[i], storeId, now).Accepted? {
      AllValidNoRejections(rows, storeId, now);
    } else {
      var i :| 0 <= i < |rows| && ValidateRow(rows[i], storeId, now).Rejected?;
      RejectedRowIsListed(rows, storeId, now, i);
    }
  }

  lemma {:induction false} AllValidNoRejections(rows: seq<CsvRow>, storeId: StoreId, now: Time)
    requires forall i :: 0 <= i < |rows| ==> ValidateRow(rows[i], storeId, now).Accepted?
    ensures Rejections(rows, storeId, now) == []
  {
    if rows != [] {
      var init := rows[..|rows| - 1];
      assert forall i :: 0 <= i < |init| ==> init[i] == rows[i];
      AllValidNoRejections(init, storeId, now);
      assert ValidateRow(rows[|rows| - 1], storeId, now).Accepted?;
    }
  }

  /** A rejected row is among the rejections. */
  lemma {:induction false} RejectedRowIsListed(rows: seq<CsvRow>, storeId: StoreId, now: Time, i: nat)
    requires i < |rows| && ValidateRow(rows[i], storeId, now).Rejected?
    ensures RowError(rows[i], ValidateRow(rows[i], storeId, now).reason) in Rejections(rows, storeId, now)
  {
    var init := rows[..|rows| - 1];
    if i < |rows| - 1 {
      assert init[i] == rows[i];
      RejectedRowIsListed(init, storeId, now, i);
      RejectionsPrefix(rows, storeId, now);
      InPrefix(RowError(rows[i], ValidateRow(rows[i], storeId, now).reason),
               Rejections(init, storeId, now), Rejections(rows, storeId, now));
    }
  }

  lemma InPrefix<T>(x: T, a: seq<T>, b: seq<T>)
    requires x in a && a <= b
    ensures x in b
  {
    var k :| 0 <= k < |a| && a[k] == x;
    assert b[k] == x;
  }

  /** Dropping the last row keeps a prefix of the rejections. */
  lemma RejectionsPrefix(rows: seq<CsvRow>, storeId: StoreId, now: Time)
    requires rows != []
    ensures Rejections(rows[..|rows| - 1], storeId, now) <= Rejections(rows, storeId, now)
  {
  }

  /** There are no accepted products exactly when every row is rejected. */
  lemma NoProductsIffAllRejected(rows: seq<CsvRow>, storeId: StoreId, now: Time)
    ensures AcceptedProducts(rows, storeId, now) == [] <==>
      forall i :: 0 <= i < |rows| ==> ValidateRow(rows[i], storeId, now).Rejected?
  {
    if forall i :: 0 <= i < |rows| ==> ValidateRow(rows[i], storeId, now).Rejected? {
      AllRejectedNoProducts(rows, storeId, now);
    } else {
      var i :| 0 <= i < |rows| && ValidateRow(rows[i], storeId, now).Accepted?;
      AcceptedRowIsListed(rows, storeId, now, i);
    }
  }

  lemma {:induction false} AllRejectedNoProducts(rows: seq<CsvRow>, storeId: StoreId, now: Time)
    requires forall i :: 0 <= i < |rows| ==> ValidateRow(rows[i], storeId, now).Rejected?
    ensures AcceptedProducts(rows, storeId, now) == []
  {
    if rows != [] {
      var init := rows[..|rows| - 1];
      assert forall i :: 0 <= i < |init| ==> init[i] == rows[i];
      AllRejectedNoProducts(init, storeId, now);
      assert ValidateRow(rows[|rows| - 1], storeId, now).Rejected?;
    }
  }

  /** The product of a valid row is among the accepted products. */
  lemma {:induction false} AcceptedRowIsListed(rows: seq<CsvRow>, storeId: StoreId, now: Time, i: nat)
    requires i < |rows| && ValidateRow(rows[i], storeId, now).Accepted?
    ensures ValidateRow(rows[i], storeId, now).product in AcceptedProducts(rows, storeId, now)
  {
    var init := rows[..|rows| - 1];
    if i < |rows| - 1 {
      assert init[i] == rows[i];
      AcceptedRowIsListed(init, storeId, now, i);
      AcceptedPrefix(rows, storeId, now);
      InPrefix(ValidateRow(rows[i], storeId, now).product,
               AcceptedProducts(init, storeId, now), AcceptedProducts(rows, storeId, now));
    }
  }

  /** Dropping the last row keeps a prefix of the products. */
  lemma AcceptedPrefix(rows: seq<CsvRow>, storeId: StoreId, now: Time)
    requires rows != []
    ensures AcceptedProducts(rows[..|rows| - 1], storeId, now) <= AcceptedProducts(rows, storeId, now)
  {
  }

}
