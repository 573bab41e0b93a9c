# Products backend: CSV import, orders, carts and favourites

This project models the business logic of a small store backend written in
TypeScript. The backend runs on Fastify with a Prisma database and an S3
bucket. Four pieces are modelled:

- **CSV bulk import of products.**
  - The upload endpoint accepts a CSV file. It stores the file in the bucket
    under a key made of the user id, the upload time and the file name. It
    then creates a PENDING import job.
  - A background run reads the file back through the key re-extracted from
    the job's URL. It normalises the header names and validates each row.
    The first failing rule wins: name, then price present, then price valid,
    then stock valid.
  - The run writes intermediate progress, inserts the valid rows' products
    in one transaction, and records COMPLETED, COMPLETED_WITH_ERRORS or
    FAILED with its counts.
- **Order placement from the caller's cart.**
  - An empty cart is refused, and so is a line whose stock does not cover it.
  - The order is recorded with the cart's total and one line per cart line,
    each at the product's current price.
  - Each line's units move from stock to sold, and the cart is emptied.
- **The cart.**
  - Adding units of a product finds or creates the cart, then merges the
    units into the product's line or appends a new line.
  - Removing a line works only on the caller's own cart.
  - The cart view reports the total units and the total price.
- **Favourite toggling.** A toggle flips whether a (user, product) pair is a
  favourite.

How the model is built:

- The database is a `Shop` class whose fields are the tables, as maps and
  sets.
- The import job is an `ImportJob` class whose fields are updated step by
  step.
- The bucket is a `BlobStore` class, and the import's product table is a
  `ProductTable` class.
- The JavaScript built-ins that decide validation are modelled in the
  modules `JsString` and `JsNumber`, with the differences listed under
  "Left out". These are `trim`, `toLowerCase`, `endsWith`, `replace` with a
  character pattern, `split(...)[1]`, `parseFloat`, `parseInt` and
  `Math.round(x * 100)`.
- Prices are exact decimals rather than floating-point numbers.

Files:

- `wrappers.dfy`: `Option`.
- `js_string.dfy`, `js_number.dfy`: the JavaScript string and number
  built-ins.
- `csv_rows.dfy`: header normalisation, the row validator and normaliser,
  and the split into products and rejected rows.
- `upload.dfy`:
  - the file-type check;
  - the key and URL;
  - the import job;
  - progress;
  - the row loop;
  - the upload and import controllers.
- `shop.dfy`: the database, and the sums over cart lines.
- `carts.dfy`, `orders.dfy`, `favorites.dfy`: the three controllers.

## Model

| member | source | states |
|---|---|---|
| JsString.TrimStart | src/controllers/upload/index.ts:210 | the result is a suffix of the input, everything dropped is whitespace, and it does not start with whitespace |
| JsString.TrimEnd | src/controllers/upload/index.ts:210 | the result is a prefix of the input, everything dropped is whitespace, and it does not end with whitespace |
| JsString.TrimShape | src/controllers/upload/index.ts:210 | the result of `trim` has no whitespace at either end, and it is empty exactly when the input is all whitespace |
| JsString.TrimIdempotent | src/controllers/upload/index.ts:234 | trimming a trimmed string changes nothing |
| JsString.TrimKeeps | src/controllers/upload/index.ts:234 | a string with no whitespace at either end is its own trim |
| JsString.ToLowerProperties | src/controllers/upload/index.ts:186 | lower-casing keeps the length, leaves no upper-case letter, is idempotent and keeps whitespace where it was |
| JsString.EndsWithConcat | src/controllers/upload/index.ts:62 | `endsWith(suffix)` holds exactly when the string is some stem followed by the suffix |
| JsString.ReplaceFirst | src/controllers/upload/index.ts:220 | only the first occurrence of the character is replaced, and every other character is kept |
| JsString.ReplaceFirstAt | src/controllers/upload/index.ts:220 | in `x + [a] + y` with no `a` in `x`, exactly the `a` after `x` is replaced |
| JsString.ReplaceFirstAbsent | src/controllers/upload/index.ts:220 | a string without the character is unchanged |
| JsString.IndexOf | src/controllers/upload/index.ts:158 | the result is the first position at or after `from` where the separator occurs, and `None` means there is none |
| JsString.SplitPieceOneAfter | src/controllers/upload/index.ts:158 | `split(sep)[1]` of `p + sep + x`, with no earlier occurrence, is `x` exactly when `x` holds no `sep` |
| JsString.SplitPieceOneShape | src/controllers/upload/index.ts:158 | `split(sep)[1]` is undefined exactly when `sep` does not occur, and a defined piece holds no `sep` |
| JsString.FirstOccurrenceAfter | src/controllers/upload/index.ts:158 | the first occurrence of `sep` in `p + sep + x` is at `|p|` when none starts inside `p` |
| JsString.OccursShifted | src/controllers/upload/index.ts:158 | an occurrence in a suffix is an occurrence in the whole string, shifted |
| JsNumber.RunEnd | src/controllers/upload/index.ts:220-221 | the end of the run of digits that `parseFloat`/`parseInt` consume from a position |
| JsNumber.RoundHalfUp | src/controllers/upload/index.ts:236 | `Math.round` of `x/den` is the integer nearest to it, with halves rounded up |
| JsNumber.RoundedHundredths | src/controllers/upload/index.ts:236 | `Math.round(price * 100)` of a decimal is its exact cents when it has at most two decimals, and is rounded half-up otherwise |
| JsNumber.Render | src/controllers/upload/index.ts:73 | the decimal rendering of a number (as in `Date.now()` in a template) is nonempty, all digits, and has no leading zero |
| JsNumber.RenderValue | src/controllers/upload/index.ts:73 | reading the rendering back gives the number |
| JsNumber.ParseFloatNeedsDigit | src/controllers/upload/index.ts:220 | `parseFloat` of text that, after leading whitespace, starts with neither a sign, a dot nor a digit is NaN |
| JsNumber.ParseFloatSign | src/controllers/upload/index.ts:220 | a number read by `parseFloat` is negative exactly when the first non-blank character is '-' |
| JsNumber.ParseIntLead | src/controllers/upload/index.ts:221 | `parseInt` reads a number only when the first non-blank character is a digit or a sign, and a negative one only after '-' |
| JsNumber.ParseIntRender | src/controllers/upload/index.ts:221 | `parseInt` of a rendered number followed by a non-digit tail reads back the number |
| JsNumber.ParseIntUnsigned | src/controllers/upload/index.ts:221 | `parseInt` of text starting with a decimal digit reads exactly its leading run of digits |
| JsNumber.ParseFloatFixedPoint | src/controllers/upload/index.ts:220 | `parseFloat` of "units.hh" is exactly units + hh/100 |
| JsNumber.ParseFloatDigitsDotDigits | src/controllers/upload/index.ts:220 | `parseFloat` of "digits.digits" is the exact decimal those digits denote |
| JsNumber.ParseFloatUnsigned | src/controllers/upload/index.ts:220 | `parseFloat` of unsigned digits, a dot and digits, with no exponent, reads exactly that decimal |
| JsNumber.DigitsValueTwo | src/controllers/upload/index.ts:236 | appending two digits multiplies the value by 100 and adds them |
| CsvRows.MessageIdentifiesReason | src/controllers/upload/index.ts:210-231 | the four rejection messages are distinct, so a recorded message names its reason |
| CsvRows.NormalizeHeader | src/controllers/upload/index.ts:186 | a normalised header has no upper-case letter and no whitespace at either end |
| CsvRows.NormalizeHeaderIdempotent | src/controllers/upload/index.ts:186 | normalising a header twice is normalising it once |
| CsvRows.NormalizedHeaders | src/controllers/upload/index.ts:186 | every header cell is trimmed and lower-cased, and the count is kept |
| CsvRows.HeaderIndex | src/controllers/upload/index.ts:183-187 | the first column at or after `from` that bears the name, or `None` when there is none |
| CsvRows.FieldOfFirstMatch | src/controllers/upload/index.ts:183-187 | a row's field is the cell of the first column whose normalised header is the field's name |
| CsvRows.RowsOf | src/controllers/upload/index.ts:183-187 | one row per parsed record, and row `i` is the record `i` read through the normalised headers |
| CsvRows.PriceCents | src/controllers/upload/index.ts:220-226 | the price is invalid exactly when `parseFloat` after replacing the first ',' by '.' is NaN or negative; otherwise it is `Math.round(price * 100)` of the parsed number, which is non-negative |
| CsvRows.StockCount | src/controllers/upload/index.ts:221-231 | an absent or empty stock is 0; otherwise it is invalid exactly when `parseInt` is NaN or negative, and when valid it is the number `parseInt` reads |
| CsvRows.ValidateRow | src/controllers/upload/index.ts:210-243 | each rejection reason holds exactly when its rule is the first to fail (name, price present, price valid, stock valid); an accepted row's product is the trimmed name, the trimmed or empty description and image URL, the cents, the stock, 0 sold and the job's store |
| CsvRows.PriceRoundTrip | src/controllers/upload/index.ts:220-236 | a price written with two decimals and either '.' or ',' is read back as exactly its cents |
| CsvRows.RenderedPriceParses | src/controllers/upload/index.ts:220 | such a price, after the comma replacement, parses to the exact decimal cents/100 |
| CsvRows.RenderedPriceDotted | src/controllers/upload/index.ts:220 | replacing the first ',' turns either spelling into the dotted one |
| CsvRows.DottedPriceParses | src/controllers/upload/index.ts:220 | the dotted spelling parses to cents × 10^-2 |
| CsvRows.SeparatorBecomesDot | src/controllers/upload/index.ts:220 | in "digits sep digits" the separator becomes '.' and nothing else changes |
| CsvRows.StockRoundTrip | src/controllers/upload/index.ts:221 | a stock written in decimal is read back as itself |
| CsvRows.WellFormedRowAccepted | src/controllers/upload/index.ts:210-243 | a row with a non-blank name, a two-decimal price and a decimal stock is accepted with exactly those values |
| CsvRows.EmptyNameExample | src/controllers/upload/index.ts:210-213 | an empty name is rejected as name-required even though the price is valid |
| CsvRows.LetterPriceInvalid | src/controllers/upload/index.ts:220-226 | a price starting with a lower-case letter is invalid |
| CsvRows.LetterPriceRowRejected | src/controllers/upload/index.ts:223-231 | a named row whose price starts with a lower-case letter is rejected as invalid-price, whatever its stock |
| CsvRows.CommaPriceExample | src/controllers/upload/index.ts:220-243 | "19,90" with stock "5" becomes 1990 cents and stock 5 |
| CsvRows.CommaPriceRendering | src/controllers/upload/index.ts:220 | "19,90" is the comma spelling of 1990 cents |
| CsvRows.AcceptedProducts | src/controllers/upload/index.ts:206-253 | there are no more products than rows; which products they are is stated by PrefixStep, AcceptedAreNormalised and AcceptedRowIsListed |
| CsvRows.Rejections | src/controllers/upload/index.ts:206-253 | there are no more rejected rows than rows; which rows they are is stated by PrefixStep, RejectionsAreRejected and RejectedRowIsListed |
| CsvRows.PartitionCounts | src/controllers/upload/index.ts:206-253 | every row goes to exactly one of the products and the rejected rows, so their counts add up to the row count |
| CsvRows.RejectionsAreRejected | src/controllers/upload/index.ts:206-253 | every rejected-row entry is a row of the file with the reason its validation gives |
| CsvRows.AcceptedAreNormalised | src/controllers/upload/index.ts:233-243 | every product is the normalisation of some valid row of the file |
| CsvRows.NoRejectionsIffAllValid | src/controllers/upload/index.ts:206-253 | there are no rejected rows exactly when every row is valid |
| CsvRows.AllValidNoRejections | src/controllers/upload/index.ts:206-253 | a file whose rows are all valid yields no rejected row |
| CsvRows.RejectedRowIsListed | src/controllers/upload/index.ts:210-231 | each invalid row is listed with its reason |
| CsvRows.NoProductsIffAllRejected | src/controllers/upload/index.ts:206-253 | there are no products exactly when every row is rejected |
| CsvRows.AllRejectedNoProducts | src/controllers/upload/index.ts:206-253 | a file whose rows are all invalid yields no product |
| CsvRows.AcceptedRowIsListed | src/controllers/upload/index.ts:233-243 | each valid row's product is among the products |
| CsvRows.PrefixStep | src/controllers/upload/index.ts:206-253 | one more row adds its product or its rejection to the lists of the rows before it |
| Upload.IsValidCsvCases | src/controllers/upload/index.ts:61-63 | the ".csv" name alone suffices, either CSV media type alone suffices, and the name check is case-sensitive |
| Upload.IsValidCsv | src/controllers/upload/index.ts:61-63 | an upload is CSV exactly when its name is a stem followed by ".csv", or its media type is "text/csv" or "application/vnd.ms-excel" |
| Upload.UploadKey | src/controllers/upload/index.ts:73 | the key starts with "csv-uploads/", the user id and '/', and ends with '-' and the file name |
| Upload.FileUrl | src/controllers/upload/index.ts:90 | the URL starts with "https://", has ".amazonaws.com/" right after the host, and ends with the key |
| Upload.KeyOfUrl | src/controllers/upload/index.ts:158 | the key is undefined exactly when the URL holds no ".amazonaws.com/", and a key holds none |
| Upload.SeparatorEnds | src/controllers/upload/index.ts:158 | an occurrence of ".amazonaws.com/" starts with '.' and ends with '/' |
| Upload.NoSeparatorInHost | src/controllers/upload/index.ts:90 | for a bucket and region without '/', the host part of the URL holds no ".amazonaws.com/" |
| Upload.HostHasNoSlashAfterScheme | src/controllers/upload/index.ts:90 | the host part has no '/' after "https://" |
| Upload.KeyOfUrlRoundTrip | src/controllers/upload/index.ts:90-158 | the key re-extracted from a file URL is the key exactly when the key itself holds no ".amazonaws.com/" |
| Upload.UploadKeyHasNoSeparator | src/controllers/upload/index.ts:73 | an upload key, for a user id without '/' or '.' and a file name without '/', holds no ".amazonaws.com/" |
| Upload.UploadKeySlashes | src/controllers/upload/index.ts:73 | the only slashes of "csv-uploads/user/..." are the two the template puts there |
| Upload.UploadKeyDots | src/controllers/upload/index.ts:73 | there is no '.' before the time stamp of an upload key |
| Upload.UploadUrlRoundTrip | src/controllers/upload/index.ts:73-158 | for a bucket and region without '/', a user id without '/' or '.', and a file name without '/', the background run re-extracts from the job's URL exactly the key the upload was stored under |
| Upload.ImportJob.constructor | src/controllers/upload/index.ts:102-109 | a new job is PENDING at 0% with no counts and no error file |
| Upload.ImportJob.SetProgress | src/controllers/upload/index.ts:248-251 | a progress write during processing sets and logs the value, never lowering it |
| Upload.ImportJob.Start | src/controllers/upload/index.ts:152-155 | PENDING becomes PROCESSING at 10% |
| Upload.ImportJob.Fail | src/controllers/upload/index.ts:281-290 | an error during processing gives FAILED with no error file, the counts and progress kept |
| Upload.ImportJob.FailParse | src/controllers/upload/index.ts:189-199 | a parse error gives FAILED with the upload as error file, 0 processed and the record count as total |
| Upload.ImportJob.Finish | src/controllers/upload/index.ts:269-279 | the final update records the status, 100%, the three counts and the error file |
| Upload.ProgressStride | src/controllers/upload/index.ts:246 | `ceil(n/10)`: the least stride whose ten multiples reach `n` |
| Upload.ProgressAtIsFloor | src/controllers/upload/index.ts:247 | the progress at row `i` of `n` is 10 plus the floor of `i/n × 80` |
| Upload.ProgressAtBounds | src/controllers/upload/index.ts:247 | intermediate progress lies in 10..89 |
| Upload.ProgressAtMonotone | src/controllers/upload/index.ts:247 | intermediate progress never decreases as the row index grows |
| Upload.AcceptedFlagsAt | src/controllers/upload/index.ts:206-246 | the flag of row `i` says whether that row is valid |
| Upload.ProgressWritesShape | src/controllers/upload/index.ts:246-251 | the progress values written during the loop lie in 10..89, never decrease, and stay below the progress of the next row |
| Upload.ProgressWritesPerStride | src/controllers/upload/index.ts:246 | at most one write per stride of rows |
| Upload.ProgressWritesAtMostTen | src/controllers/upload/index.ts:246 | the loop writes progress at most ten times |
| Upload.FinalStatus | src/controllers/upload/index.ts:266-267 | the status is terminal: COMPLETED exactly when no row was rejected, COMPLETED_WITH_ERRORS exactly when some were rejected and some accepted, FAILED exactly when some were rejected and none accepted |
| Upload.FinalStatusOfRows | src/controllers/upload/index.ts:266-267 | COMPLETED exactly when every row is valid (an empty file included), FAILED exactly when there are rows and none is valid, COMPLETED_WITH_ERRORS exactly when there are both kinds |
| Upload.ReportProgress | src/controllers/upload/index.ts:246-251 | a progress write happens only for a valid row at a stride boundary, and keeps the log equal to the writes of the rows so far |
| Upload.SortRow | src/controllers/upload/index.ts:207-243 | one row of the loop extends the product list or the rejection list exactly as the lists of one more row require, and reports whether the row was valid |
| Upload.ProcessRows | src/controllers/upload/index.ts:202-253 | the loop yields exactly the products of the valid rows and the rejections of the others, in file order, and its progress log is the writes the rows call for |
| Upload.BlobStore.Put | src/controllers/upload/index.ts:75-87 | the object is stored under its key and nothing else changes |
| Upload.ProductTable.CreateMany | src/controllers/upload/index.ts:256-263 | the products are appended in order |
| Upload.UploadCsv | src/controllers/upload/index.ts:39-127 | no store, no file or not a CSV are refused in that order and leave the bucket alone; otherwise the file is stored under its key, and a new PENDING job is created whose URL leads back to that key when the bucket and region hold no '/', the user id no '/' or '.', and the file name no '/' |
| Upload.ImportRows | src/controllers/upload/index.ts:202-279 | after the loop: when the insert of valid rows fails, FAILED with counts kept and nothing inserted; otherwise the final status, 100%, counts that add up, the error file exactly when a row was rejected, and the products appended |
| Upload.StartCsvProcessing | src/controllers/upload/index.ts:144-292 | a missing job is ignored; otherwise PROCESSING at 10%, then FAILED without an error file when the object is missing, FAILED with the upload as error file when the parser reports errors, and otherwise the outcome of the rows |
| Shop.Shop.Available | src/controllers/cart/index.ts:27-39 | a product that can be bought exists and its store exists |
| Shop.Quantities | src/controllers/cart/index.ts:203 | with positive quantities the unit total is at least the number of lines |
| Shop.Value | src/controllers/cart/index.ts:204 | with non-negative quantities and prices the price total is non-negative |
| Shop.SumsAppend | src/controllers/cart/index.ts:203-204 | units, price total and per-product units of a concatenation are the sums of its parts |
| Shop.SumsOne | src/controllers/cart/index.ts:203-204 | the sums of a single line |
| Shop.QuantityOfOneLine | src/controllers/orders/index.ts:78-90 | in a cart with one line per product, a product's units are those of its line, or 0 |
| Shop.FirstWithIsFirst | src/controllers/cart/index.ts:66 | `find` returns the first line for the product, and finds one exactly when there is one |
| Carts.AddToItems | src/controllers/cart/index.ts:66-97 | the first line of the product, or a new last line with the given id, holds the earlier units plus the added ones at the new time; every other line is kept at its place, and at most one line is added |
| Carts.AddMerges | src/controllers/cart/index.ts:66-97 | adding adds a line exactly when the product had none |
| Carts.AddKeepsWellFormed | src/controllers/cart/index.ts:66-97 | adding a positive quantity (the only kind the handler lets through) keeps one line per product, distinct line ids, a positive quantity on every line, and lines naming existing products |
| Carts.AddSums | src/controllers/cart/index.ts:68-97 | adding `q` units raises the product's units by `q`, other products' units not at all, total units by `q` and total price by `q` × price |
| Carts.ReplaceLineSums | src/controllers/cart/index.ts:68-82 | replacing one line changes each sum by the difference of the two lines |
| Carts.SumsSplit | src/controllers/cart/index.ts:203-204 | the sums split around any line |
| Carts.AddCartItem | src/controllers/cart/index.ts:11-103 | a quantity ≤ 0, an unavailable product, and a quantity above stock (the added units alone) are refused in that order with no change; otherwise the cart is found or created and the units are merged into the product's line, or a new line is appended; nothing else changes |
| Carts.PutInCart | src/controllers/cart/index.ts:48-97 | the cart's lines become the merge of the added units, and the cart keeps its time, or is new at `now` |
| Carts.FindOrCreateCart | src/controllers/cart/index.ts:48-63 | a user without a cart gets an empty one, and an existing cart is untouched |
| Carts.MergeLine | src/controllers/cart/index.ts:66-97 | the existing line gets the units and the new time, or a new line with a fresh id is appended |
| Carts.IndexOfId | src/controllers/cart/index.ts:118-132 | the first line with the id, or the length when there is none |
| Carts.Without | src/controllers/cart/index.ts:135-139 | deleting line `k` leaves one line fewer: the lines before it at their places and the lines after it moved up by one |
| Carts.RemoveKeepsWellFormed | src/controllers/cart/index.ts:135-139 | deleting a line keeps the cart well formed and leaves no line with that id |
| Carts.RemoveSums | src/controllers/cart/index.ts:135-139 | deleting a line lowers each sum by that line's share |
| Carts.RemoveCartItem | src/controllers/cart/index.ts:105-159 | a line is deleted exactly when its id is in the caller's cart, the other lines keep their order and the cart is touched; otherwise nothing changes |
| Carts.GetCart | src/controllers/cart/index.ts:161-217 | a missing cart gives no lines and zero totals; otherwise the cart's lines, all naming existing products, with their unit total and their price total at current prices |
| Carts.AddRaisesTotals | src/controllers/cart/index.ts:203-204 | after an add, the view's total units and price are the earlier ones plus the added units and their price |
| Carts.RemoveLowersTotals | src/controllers/cart/index.ts:203-204 | after a delete, the view's totals are the earlier ones minus the deleted line's units and price |
| Orders.FindShortage | src/controllers/orders/index.ts:34-40 | the first line its stock does not cover, or none exactly when every line is covered |
| Orders.OrderLines | src/controllers/orders/index.ts:56-61 | one order line per cart line, with its product and quantity and the product's current price |
| Orders.TotalMatchesLines | src/controllers/orders/index.ts:43-61 | the order total equals the sum of unit price × quantity over its own lines |
| Orders.Sell | src/controllers/orders/index.ts:78-90 | selling moves exactly `q` units from stock to sold, and touches no other field |
| Orders.ApplySale | src/controllers/orders/index.ts:78-90 | after the loop each product has sold exactly the units of its lines and the set of products is the same |
| Orders.QuantityOfStep | src/controllers/orders/index.ts:78-90 | one more line adds its units to its product |
| Orders.SaleEffects | src/controllers/orders/index.ts:34-40 | a product without a line is unchanged, a product with a line loses that line's units from stock and gains them as sold, no stock goes negative, and with positive line quantities no sold count goes down |
| Orders.CreateOrder | src/controllers/orders/index.ts:6-116 | an empty cart, the first uncovered line (name, stock, units asked) and a failed commit are refused with no change; the stock refusal happens exactly when the cart is non-empty and some line asks for more units than its product has in stock; otherwise the COMPLETED order with the cart's total and lines is recorded, stock moves to sold, and the cart is emptied and touched; nothing else changes; no product's sold count goes down and no stock goes negative, and the database invariant (well-formed carts with positive quantities, non-negative stock and sold counts) is kept |
| Orders.SameCatalogueKeepsCarts | src/controllers/orders/index.ts:78-103 | changing product records without adding or removing products keeps carts well formed |
| Favorites.Flip | src/controllers/favorites/index.ts:46-75 | the pair's membership flips, and every other pair keeps its membership |
| Favorites.FlipTwice | src/controllers/favorites/index.ts:46-75 | toggling the same pair twice restores the favourites |
| Favorites.ToggleFavorite | src/controllers/favorites/index.ts:6-86 | an unavailable product is not found and changes nothing; otherwise the pair is flipped, the action is "removed" exactly when it was a favourite, and a favourite is returned exactly when it was added |

## Left out

- Floating point. Prices are parsed into exact decimals, and `Math.round(price * 100)` is exact half-up rounding. Binary rounding effects, `Infinity`, exponents beyond the decimal model, and `Int32` overflow of a huge price are not modelled.
- The CSV parser is a parameter. It returns the header cells, the records and an error count. Quoting, empty-line skipping and the rows it drops are not modelled. With duplicate headers, the first column with the name is used.
- The bucket and its streams are a map from key to text. The content type, the metadata, the signed download URL, the file size, the `Body` stream and the decoding of bytes as UTF-8 are not modelled.
- The database is in-memory state. `skipDuplicates` is treated as a plain append, because the table has no unique key in the model. Transactions are all-or-nothing through a `commitSucceeds` parameter. Any other database failure is not modelled.
- Concurrency. The background import is a separate call on the returned job, not a fire-and-forget task. The race between the order's stock check and its decrement is not modelled.
- Timestamps, `Date.now()` and generated ids are parameters. Cart line ids come from a counter on the database.
- Authentication and the user-id lookup from the token are not modelled. The user id is a parameter.
- HTTP status codes and reply bodies are not modelled. Each reply is one case of an outcome datatype.
- JsNumber.ParseFloatNeedsDigit: text starting with "Infinity" (after an optional sign) is read as NaN, while JavaScript reads plus or minus Infinity. In the source a price "Infinity" passes both checks, `Math.round` gives Infinity, and the insert then fails, so the job ends FAILED. The model instead rejects that row as an invalid price.
- JsNumber.ParseFloat: a number whose exponent or digits fall outside the double range is read exactly here, while JavaScript gives Infinity or 0; the model then accepts or rejects the price by its exact value.
- JsString.ToLowerProperties: case mapping covers ASCII letters only, not the full Unicode mapping of `toLowerCase`.
- Upload.ProgressAt: progress is computed exactly as `10 + floor(i * 80 / n)`. For a row count where the floating-point product `i / n * 80` rounds across an integer, the source may write one less.
- Upload.StartCsvProcessing: the products table of the import is separate from the store's catalogue.
- Carts.GetCart: it requires the database invariant that every cart line names an existing product, which the foreign keys guarantee. The `addedAt` descending order of the lines and the product details included in the reply are not modelled.
- Carts.AddCartItem: quantities are mathematical integers. A fractional or huge JSON number is not modelled.
- An empty CSV file ends COMPLETED with no products. The code decides this from the count of rejected rows, and the model follows the code.
