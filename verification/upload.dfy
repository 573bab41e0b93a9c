/**
 * The CSV product import: the upload's file-type check, the storage key and
 * URL of an uploaded file, the import job record, and the background run
 * that reads the file back, splits its rows and records the outcome.
 */
module Upload {
  import opened Wrappers
  import JsString
  import JsNumber
  import opened CsvRows

  // ------------------------------------------------------------ file type

  /** An upload is taken as CSV when its name ends in ".csv" (case matters)
      or its declared media type is one of the two CSV types. */
  function IsValidCsv(filename: string, mimetype: string): (ok: bool)
    ensures ok <==> (exists stem :: filename == stem + ".csv")
                    || mimetype == "text/csv" || mimetype == "application/vnd.ms-excel"
  {
    JsString.EndsWithConcat(filename, ".csv");
    JsString.EndsWith(filename, ".csv") || mimetype == "text/csv" || mimetype == "application/vnd.ms-excel"
  }

  /** The extension alone suffices, the media type alone suffices, and the
      extension check is case-sensitive. */
  lemma IsValidCsvCases(mimetype: string)
    ensures IsValidCsv("products.csv", mimetype)
    ensures IsValidCsv("products.txt", "text/csv")
    ensures IsValidCsv("products", "application/vnd.ms-excel")
    ensures !IsValidCsv("products.CSV", "text/plain")
    ensures !IsValidCsv("products.csv.txt", "application/octet-stream")
  {
    assert "products.csv"[8..] == ".csv";
    assert "products.CSV"[8..] != ".csv" by {
      assert "products.CSV"[8..][1] == 'C';
    }
    assert "products.csv.txt"[12..] != ".csv" by {
      assert "products.csv.txt"[12..][1] == 't';
    }
  }

  // -------------------------------------------------------- key and URL

  /** What separates the host from the key in an object URL. */
  const Separator: string := ".amazonaws.com/"

  /** The object key of an upload: folder, user, upload time in ms, name. */
  function UploadKey(userId: string, nowMs: nat, filename: string): (key: string)
    ensures |key| > 14 + |userId| + |filename|
    ensures key[..13 + |userId|] == "csv-uploads/" + userId + "/"
    ensures key[|key| - |filename| - 1] == '-' && key[|key| - |filename|..] == filename
  {
    "csv-uploads/" + userId + "/" + JsNumber.Render(nowMs) + "-" + filename
  }

  /** The URL up to the separator. */
  function HostPrefix(bucket: string, region: string): string {
    "https://" + bucket + ".s3." + region
  }

  /** The public URL recorded on the job. */
  function FileUrl(bucket: string, region: string, key: string): (url: string)
    ensures |url| >= 12 + |Separator| + |key|
    ensures url[..8] == "https://"
    ensures JsString.OccursAt(url, Separator, |HostPrefix(bucket, region)|)
    ensures url[|url| - |key|..] == key
  {
    var url := HostPrefix(bucket, region) + Separator + key;
    assert url[|HostPrefix(bucket, region)|..|HostPrefix(bucket, region)| + |Separator|] == Separator;
    url
  }

  /** `url.split(".amazonaws.com/")[1]`: `None` stands for `undefined`. */
  function KeyOfUrl(url: string): (key: Option<string>)
    ensures key.None? <==> forall k :: 0 <= k ==> !JsString.OccursAt(url, Separator, k)
    ensures key.Some? ==> forall k :: 0 <= k ==> !JsString.OccursAt(key.value, Separator, k)
  {
    JsString.SplitPieceOneShape(url, Separator);
    JsString.SplitPieceOne(url, Separator)
  }

  predicate HasSeparator(s: string) {
    exists k :: 0 <= k < |s| && JsString.OccursAt(s, Separator, k)
  }

  /** Every occurrence of the separator starts with a '.' and ends in a '/'. */
  lemma SeparatorEnds(s: string, k: int)
    requires 0 <= k
    ensures JsString.OccursAt(s, Separator, k) ==> s[k] == '.' && s[k + 14] == '/'
  {
    if JsString.OccursAt(s, Separator, k) {
      assert s[k..k + 15][0] == s[k];
      assert s[k..k + 15][14] == s[k + 14];
    }
  }

  /** With no '/' in the bucket or the region, the separator cannot start
      inside the host part of the URL. */
  lemma NoSeparatorInHost(bucket: string, region: string, key: string)
    requires '/' !in bucket && '/' !in region
    ensures var p := HostPrefix(bucket, region);
      forall k :: 0 <= k < |p| ==> !JsString.OccursAt(p + Separator + key, Separator, k)
  {
    var p := HostPrefix(bucket, region);
    var s := p + Separator + key;
    forall k | 0 <= k < |p|
      ensures !JsString.OccursAt(s, Separator, k)
    {
      SeparatorEnds(s, k);
      if k + 14 < |p| {
        HostHasNoSlashAfterScheme(bucket, region, k + 14);
        assert s[k + 14] == p[k + 14];
      } else {
        assert s[k + 14] == Separator[k + 14 - |p|];
      }
    }
  }

  lemma HostHasNoSlashAfterScheme(bucket: string, region: string, i: nat)
    requires '/' !in bucket && '/' !in region
    requires 8 <= i < |HostPrefix(bucket, region)|
    ensures HostPrefix(bucket, region)[i] != '/'
  {
    var p := HostPrefix(bucket, region);
    if i < 8 + |bucket| {
      assert p[i] == bucket[i - 8];
    } else if i < 12 + |bucket| {
      assert p[i] == ".s3."[i - 8 - |bucket|];
    } else {
      assert p[i] == region[i - 12 - |bucket|];
    }
  }

  /** Reading the key back out of the job's URL gives the key exactly when
      the key itself holds no ".amazonaws.com/". */
  lemma KeyOfUrlRoundTrip(bucket: string, region: string, key: string)
    requires '/' !in bucket && '/' !in region
    ensures KeyOfUrl(FileUrl(bucket, region, key)) == Some(key) <==> !HasSeparator(key)
  {
    NoSeparatorInHost(bucket, region, key);
    JsString.SplitPieceOneAfter(HostPrefix(bucket, region), Separator, key);
  }

  /** An upload key holds no ".amazonaws.com/" when the user id has no '/'
      and no '.', and the file name has no '/'. */
  lemma UploadKeyHasNoSeparator(userId: string, nowMs: nat, filename: string)
    requires '/' !in userId && '.' !in userId && '/' !in filename
    ensures !HasSeparator(UploadKey(userId, nowMs, filename))
  {
    var s := UploadKey(userId, nowMs, filename);
    var digits := JsNumber.Render(nowMs);
    var tail := digits + "-" + filename;
    assert s == "csv-uploads/" + userId + "/" + tail;
    forall k | 0 <= k
      ensures !JsString.OccursAt(s, Separator, k)
    {
      if k + 14 < |s| {
        SeparatorEnds(s, k);
        UploadKeySlashes(userId, tail, k + 14);
        if k < 13 + |userId| {
          UploadKeyDots(userId, tail, k);
        }
      }
    }
  }

  /** The only '/' characters of "csv-uploads/" + userId + "/" + tail before
      the tail are the two separators. */
  lemma UploadKeySlashes(userId: string, tail: string, i: nat)
    requires '/' !in userId && '/' !in tail
    requires i < |"csv-uploads/" + userId + "/" + tail|
    ensures ("csv-uploads/" + userId + "/" + tail)[i] == '/' ==> i == 11 || i == 12 + |userId|
  {
    var s := "csv-uploads/" + userId + "/" + tail;
    if i < 12 {
      assert s[i] == "csv-uploads/"[i];
    } else if i < 12 + |userId| {
      assert s[i] == userId[i - 12];
    } else if i > 12 + |userId| {
      assert s[i] == tail[i - 13 - |userId|];
    }
  }

  /** No '.' appears before the tail. */
  lemma UploadKeyDots(userId: string, tail: string, i: nat)
    requires '.' !in userId
    requires i < 13 + |userId| && i < |"csv-uploads/" + userId + "/" + tail|
    ensures ("csv-uploads/" + userId + "/" + tail)[i] != '.'
  {
    var s := "csv-uploads/" + userId + "/" + tail;
    if i < 12 {
      assert s[i] == "csv-uploads/"[i];
    } else if i < 12 + |userId| {
      assert s[i] == userId[i - 12];
    }
  }

  /** The URL recorded for an upload gives back its key, for user ids with no
      '/' or '.' and file names with no '/' (multipart file names arrive
      without a directory part). */
  lemma UploadUrlRoundTrip(bucket: string, region: string, userId: string, nowMs: nat, filename: string)
    requires '/' !in bucket && '/' !in region
    requires '/' !in userId && '.' !in userId && '/' !in filename
    ensures KeyOfUrl(FileUrl(bucket, region, UploadKey(userId, nowMs, filename)))
            == Some(UploadKey(userId, nowMs, filename))
  {
    UploadKeyHasNoSeparator(userId, nowMs, filename);
    KeyOfUrlRoundTrip(bucket, region, UploadKey(userId, nowMs, filename));
  }

  // ------------------------------------------------------------- the job

  datatype JobStatus = Pending | Processing | Completed | CompletedWithErrors | Failed
  {
    predicate IsTerminal() {
      this == Completed || this == CompletedWithErrors || this == Failed
    }
  }

  ghost predicate NonDecreasing(s: seq<int>) {
    forall i, j :: 0 <= i <= j < |s| ==> s[i] <= s[j]
  }

  /** An import job record. */
  class ImportJob {
    const userId: string
    const fileUrl: string
    var status: JobStatus
    var progress: int
    var totalRows: nat
    var processedRows: nat
    var errorRows: nat
    var errorFileUrl: Option<string>
    /** Every progress value the record has held, oldest first. */
    ghost var progressLog: seq<int>

    /** Progress is a percentage that never went down, and a job that has not
        started is at 0. */
    ghost predicate Valid()
      reads this
    {
      && |progressLog| > 0
      && progressLog[|progressLog| - 1] == progress
      && NonDecreasing(progressLog)
      && (forall i :: 0 <= i < |progressLog| ==> 0 <= progressLog[i] <= 100)
      && (status == Pending ==> progress == 0)
    }

    /** A new record: PENDING at 0%, nothing counted yet. */
    constructor (userId: string, fileUrl: string)
      ensures this.userId == userId && this.fileUrl == fileUrl
      ensures status == Pending && progress == 0
      ensures totalRows == 0 && processedRows == 0 && errorRows == 0 && errorFileUrl == None
      ensures progressLog == [0]
      ensures Valid()
    {
      this.userId := userId;
      this.fileUrl := fileUrl;
      status := Pending;
      progress := 0;
      totalRows := 0;
      processedRows := 0;
      errorRows := 0;
      errorFileUrl := None;
      progressLog := [0];
    }

    /** Records a new progress value of a running job. */
    method SetProgress(p: int)
      requires Valid() && status == Processing && progress <= p <= 100
      modifies this`progress, this`progressLog
      ensures progress == p && progressLog == old(progressLog) + [p]
      ensures Valid()
    {
      progress := p;
      progressLog := progressLog + [p];
    }

    /** A pending job is picked up: PROCESSING at 10%. */
    method Start()
      requires Valid() && status == Pending
      modifies this`status, this`progress, this`progressLog
      ensures status == Processing && progress == 10
      ensures progressLog == old(progressLog) + [10]
      ensures Valid()
    {
      status := Processing;
      progress := 10;
      progressLog := progressLog + [10];
    }

    /** The run broke off: FAILED, with no error file and the counts and
        progress left as they were. */
    method Fail()
      requires Valid() && status == Processing
      modifies this`status, this`errorFileUrl
      ensures status == Failed && errorFileUrl == None
      ensures Valid()
    {
      status := Failed;
      errorFileUrl := None;
    }

    /** The parser reported errors: FAILED, pointing at the uploaded file as
        the error file, with nothing processed out of `total` rows. */
    method FailParse(total: nat)
      requires Valid() && status == Processing
      modifies this`status, this`errorFileUrl, this`processedRows, this`totalRows
      ensures status == Failed && errorFileUrl == Some(fileUrl)
      ensures processedRows == 0 && totalRows == total
      ensures Valid()
    {
      status := Failed;
      errorFileUrl := Some(fileUrl);
      processedRows := 0;
      totalRows := total;
    }

    /** The run is over: the final status and counts, at 100%. */
    method Finish(final: JobStatus, total: nat, processed: nat, errors: nat, errorFile: Option<string>)
      requires Valid() && status == Processing && final.IsTerminal()
      modifies this`status, this`progress, this`progressLog, this`totalRows,
               this`processedRows, this`errorRows, this`errorFileUrl
      ensures status == final && progress == 100
      ensures progressLog == old(progressLog) + [100]
      ensures totalRows == total && processedRows == processed && errorRows == errors
      ensures errorFileUrl == errorFile
      ensures Valid()
    {
      status := final;
      progress := 100;
      progressLog := progressLog + [100];
      totalRows := total;
      processedRows := processed;
      errorRows := errors;
      errorFileUrl := errorFile;
    }
  }


  // ------------------------------------------------------------ progress

  /** `Math.ceil(n / 10)`: rows between two progress writes. */
  function ProgressStride(n: nat): (stride: nat)
    requires n > 0
    ensures stride >= 1 && (stride - 1) * 10 < n <= stride * 10
  {
    (n + 9) / 10
  }

  /** `10 + Math.floor((i / n) * 80)`: the progress reported at row `i`,
      10 plus the whole part of `i * 80 / n`. */
  function ProgressAt(i: nat, n: nat): int
    requires i < n
  {
    10 + i * 80 / n
  }

  /** The progress at row `i` is 10 plus the largest whole number `w` with
      `w * n <= i * 80`, which is `Math.floor((i / n) * 80)` in exact
      arithmetic. */
  lemma ProgressAtIsFloor(i: nat, n: nat)
    requires i < n
    ensures var w := ProgressAt(i, n) - 10;
      w * n <= i * 80 < (w + 1) * n
  {
    JsNumber.DivBounds(i * 80, n);
  }

  /** Progress during the row loop stays within 10..89. */
  lemma ProgressAtBounds(i: nat, n: nat)
    requires i < n
    ensures 10 <= ProgressAt(i, n) <= 89
  {
    var d := (i * 80) / n;
    JsNumber.DivBounds(i * 80, n);
    MulMonotone(80, d, n);
    MulMonotone(i + 1, n, 80);
  }

  /** Progress does not go down as the row index grows. */
  lemma ProgressAtMonotone(i: nat, j: nat, n: nat)
    requires i <= j < n
    ensures ProgressAt(i, n) <= ProgressAt(j, n)
  {
    DivMonotone(i * 80, j * 80, n);
  }

  /** Which rows are valid, in row order. */
  function AcceptedFlags(rows: seq<CsvRow>, storeId: StoreId, now: Time): (flags: seq<bool>)
    ensures |flags| == |rows|
  {
    if rows == [] then []
    else AcceptedFlags(rows[..|rows| - 1], storeId, now) + [ValidateRow(rows[|rows| - 1], storeId, now).Accepted?]
  }

  /** Flag `i` says whether row `i` is valid. */
  lemma {:induction false} AcceptedFlagsAt(rows: seq<CsvRow>, storeId: StoreId, now: Time, i: nat)
    requires i < |rows|
    ensures AcceptedFlags(rows, storeId, now)[i] == ValidateRow(rows[i], storeId, now).Accepted?
  {
    var init := rows[..|rows| - 1];
    if i < |rows| - 1 {
      AcceptedFlagsAt(init, storeId, now, i);
      assert init[i] == rows[i];
    }
  }

  /** Whether the loop writes progress at row `i` of `n`: only after a valid
      row, and only every `ProgressStride(n)` rows. */
  predicate WritesProgressAt(isValid: bool, i: nat, n: nat)
    requires i < n
  {
    isValid && i % ProgressStride(n) == 0
  }

  /** The progress values written over the first `|valid|` of `n` rows, given
      which of them are valid. */
  function ProgressWrites(valid: seq<bool>, n: nat): seq<int>
    requires |valid| <= n
  {
    if valid == [] then []
    else
      var k := |valid| - 1;
      ProgressWrites(valid[..k], n) + (if WritesProgressAt(valid[k], k, n) then [ProgressAt(k, n)] else [])
  }

  /** The written values lie in 10..89, never go down, and none exceeds the
      progress of the next row. */
  lemma {:induction false} ProgressWritesShape(valid: seq<bool>, n: nat)
    requires |valid| <= n
    ensures var w := ProgressWrites(valid, n);
      && (forall x :: 0 <= x < |w| ==> 10 <= w[x] <= 89)
      && NonDecreasing(w)
      && (|valid| < n ==> forall x :: 0 <= x < |w| ==> w[x] <= ProgressAt(|valid|, n))
  {
    if valid != [] {
      var k := |valid| - 1;
      var prev := ProgressWrites(valid[..k], n);
      var w := ProgressWrites(valid, n);
      ProgressWritesShape(valid[..k], n);
      var v := ProgressAt(k, n);
      ProgressAtBounds(k, n);
      assert forall x :: 0 <= x < |prev| ==> prev[x] <= v;
      if WritesProgressAt(valid[k], k, n) {
        assert w == prev + [v];
        AppendNonDecreasing(prev, v);
      } else {
        assert w == prev;
      }
      assert forall x :: 0 <= x < |w| ==> w[x] <= v;
      if |valid| < n {
        ProgressAtMonotone(k, |valid|, n);
      }
    }
  }

  lemma AppendNonDecreasing(s: seq<int>, v: int)
    requires NonDecreasing(s)
    requires forall x :: 0 <= x < |s| ==> s[x] <= v
    ensures NonDecreasing(s + [v])
  {
  }

  /** At most one progress value per stride of rows is written, so at most
      ten in all. */
  lemma ProgressWritesAtMostTen(valid: seq<bool>)
    requires |valid| > 0
    ensures |ProgressWrites(valid, |valid|)| <= 10
  {
    var n := |valid|;
    var stride := ProgressStride(n);
    ProgressWritesPerStride(valid, n);
    DivExact(10, stride - 1, stride);
    DivMonotone(n + stride - 1, 10 * stride + stride - 1, stride);
  }

  /** Among the first `|valid|` rows, at most one write per multiple of the
      stride. */
  lemma {:induction false} ProgressWritesPerStride(valid: seq<bool>, n: nat)
    requires 0 < n && |valid| <= n
    ensures var stride := ProgressStride(n);
      |ProgressWrites(valid, n)| <= (|valid| + stride - 1) / stride
  {
    if valid != [] {
      var stride := ProgressStride(n);
      var x := |valid| - 1;
      var init := valid[..x];
      ProgressWritesPerStride(init, n);
      var before := |ProgressWrites(init, n)|;
      assert before <= (x + stride - 1) / stride;
      var wrote := WritesProgressAt(valid[x], x, n);
      assert |ProgressWrites(valid, n)| == before + (if wrote then 1 else 0);
      if wrote {
        StrideBoundStep(x, stride);
      } else {
        DivMonotone(x + stride - 1, x + stride, stride);
      }
    }
  }

  /** Passing a multiple `x` of the stride raises the bound by one. */
  lemma StrideBoundStep(x: nat, stride: nat)
    requires stride > 0 && x % stride == 0
    ensures (x + stride - 1) / stride + 1 == (x + stride) / stride
  {
    var q := x / stride;
    JsNumber.DivBounds(x, stride);
    assert x == q * stride;
    assert x + stride - 1 == q * stride + (stride - 1);
    DivExact(q, stride - 1, stride);
    assert x + stride == (q + 1) * stride + 0;
    DivExact(q + 1, 0, stride);
  }

  /** Euclidean division of `q * m + r` by `m` for `r < m`. */
  lemma DivExact(q: nat, r: nat, m: nat)
    requires r < m
    ensures (q * m + r) / m == q
  {
    var x := q * m + r;
    var d := x / m;
    JsNumber.DivBounds(x, m);
    MulMonotone(d + 1, q, m);
    MulMonotone(q + 1, d, m);
  }

  lemma MulMonotone(a: int, b: int, m: nat)
    ensures a <= b ==> a * m <= b * m
  {
    if a <= b {
      assert b * m == a * m + (b - a) * m;
    }
  }

  lemma DivMonotone(a: nat, b: nat, m: nat)
    requires a <= b && m > 0
    ensures a / m <= b / m
  {
    JsNumber.DivBounds(a, m);
    JsNumber.DivBounds(b, m);
    MulMonotone(b / m + 1, a / m, m);
  }


  lemma AppendAssoc<T>(a: seq<T>, b: seq<T>, c: seq<T>)
    ensures (a + b) + c == a + (b + c)
  {
  }

  // --------------------------------------------------------- final status

  /** The status a finished run records from its two counts. */
  function FinalStatus(rejected: nat, accepted: nat): (status: JobStatus)
    ensures status.IsTerminal()
    ensures status == Completed <==> rejected == 0
    ensures status == CompletedWithErrors <==> rejected > 0 && accepted > 0
    ensures status == Failed <==> rejected > 0 && accepted == 0
  {
    if rejected == 0 then Completed
    else if accepted > 0 then CompletedWithErrors
    else Failed
  }

  /** In terms of the rows: COMPLETED exactly when every row is valid (so an
      empty file completes), FAILED exactly when there are rows and none is
      valid, and COMPLETED_WITH_ERRORS exactly when there are both kinds. */
  lemma FinalStatusOfRows(rows: seq<CsvRow>, storeId: StoreId, now: Time)
    ensures var st := FinalStatus(|Rejections(rows, storeId, now)|, |AcceptedProducts(rows, storeId, now)|);
      && (st == Completed <==>
            forall i :: 0 <= i < |rows| ==> ValidateRow(rows[i], storeId, now).Accepted?)
      && (st == Failed <==>
            |rows| > 0 && forall i :: 0 <= i < |rows| ==> ValidateRow(rows[i], storeId, now).Rejected?)
      && (st == CompletedWithErrors <==>
            (exists i :: 0 <= i < |rows| && ValidateRow(rows[i], storeId, now).Accepted?)
            && (exists i :: 0 <= i < |rows| && ValidateRow(rows[i], storeId, now).Rejected?))
  {
    NoRejectionsIffAllValid(rows, storeId, now);
    NoProductsIffAllRejected(rows, storeId, now);
    if |rows| > 0 && forall i :: 0 <= i < |rows| ==> ValidateRow(rows[i], storeId, now).Rejected? {
      assert ValidateRow(rows[0], storeId, now).Rejected?;
    }
  }

  // -------------------------------------------------------- the row loop

  /** One more row: its flag is appended to the flags of the rows before it. */
  lemma FlagsStep(rows: seq<CsvRow>, storeId: StoreId, now: Time, i: nat)
    requires i < |rows|
    ensures AcceptedFlags(rows[..i + 1], storeId, now)
         == AcceptedFlags(rows[..i], storeId, now) + [ValidateRow(rows[i], storeId, now).Accepted?]
  {
    assert rows[..i + 1][..i] == rows[..i];
  }

  /** The progress write after row `i` of `n`: only after a valid row, and
      only at a multiple of the stride. `flags` says which of the rows before
      `i` were valid and `base` is the log before the first of them. */
  method ReportProgress(job: ImportJob, ghost base: seq<int>, ghost flags: seq<bool>,
                        isValid: bool, i: nat, n: nat)
    requires |flags| == i < n
    requires job.Valid() && job.status == Processing && job.progress <= ProgressAt(i, n)
    requires job.progressLog == base + ProgressWrites(flags, n)
    modifies job`progress, job`progressLog
    ensures job.progressLog == base + ProgressWrites(flags + [isValid], n)
    ensures job.Valid() && job.status == Processing
    ensures i + 1 < n ==> job.progress <= ProgressAt(i + 1, n)
  {
    ghost var flags' := flags + [isValid];
    assert flags'[..i] == flags;
    ghost var written := if WritesProgressAt(isValid, i, n) then [ProgressAt(i, n)] else [];
    assert ProgressWrites(flags', n) == ProgressWrites(flags, n) + written;
    AppendAssoc(base, ProgressWrites(flags, n), written);
    if isValid && i % ProgressStride(n) == 0 {
      ProgressAtBounds(i, n);
      job.SetProgress(ProgressAt(i, n));
    }
    if i + 1 < n {
      ProgressAtMonotone(i, i + 1, n);
    }
  }

  /** One pass of the row loop: row `i` is validated and its product or its
      rejection is pushed onto the lists of the rows before it. */
  method SortRow(rows: seq<CsvRow>, storeId: StoreId, now: Time, i: nat,
                 products: seq<ProductDraft>, errors: seq<RowError>)
      returns (products': seq<ProductDraft>, errors': seq<RowError>, isValid: bool)
    requires i < |rows|
    requires products == AcceptedProducts(rows[..i], storeId, now)
    requires errors == Rejections(rows[..i], storeId, now)
    ensures products' == AcceptedProducts(rows[..i + 1], storeId, now)
    ensures errors' == Rejections(rows[..i + 1], storeId, now)
    ensures AcceptedFlags(rows[..i + 1], storeId, now) == AcceptedFlags(rows[..i], storeId, now) + [isValid]
  {
    var row := rows[i];
    PrefixStep(rows, storeId, now, i);
    FlagsStep(rows, storeId, now, i);
    var out := ValidateRow(row, storeId, now);
    isValid := out.Accepted?;
    products', errors' := products, errors;
    if out.Rejected? {
      errors' := errors + [RowError(row, out.reason)];
    } else {
      products' := products + [out.product];
    }
  }

  /** Walks the rows in order, collecting the products of valid rows and the
      rejected rows; after a valid row at a multiple of the stride it records
      the progress of that row. */
  method ProcessRows(job: ImportJob, rows: seq<CsvRow>, storeId: StoreId, now: Time)
      returns (products: seq<ProductDraft>, errors: seq<RowError>)
    requires job.Valid() && job.status == Processing && job.progress <= 10
    modifies job`progress, job`progressLog
    ensures products == AcceptedProducts(rows, storeId, now)
    ensures errors == Rejections(rows, storeId, now)
    ensures job.progressLog == old(job.progressLog) + ProgressWrites(AcceptedFlags(rows, storeId, now), |rows|)
    ensures job.Valid() && job.status == Processing
  {
    var n := |rows|;
    ghost var flags: seq<bool> := [];
    products := [];
    errors := [];
    var i := 0;
    while i < n
      invariant 0 <= i <= n
      invariant products == AcceptedProducts(rows[..i], storeId, now)
      invariant errors == Rejections(rows[..i], storeId, now)
      invariant flags == AcceptedFlags(rows[..i], storeId, now)
      invariant job.progressLog == old(job.progressLog) + ProgressWrites(flags, n)
      invariant job.Valid() && job.status == Processing
      invariant i < n ==> job.progress <= ProgressAt(i, n)
    {
      var isValid;
      products, errors, isValid := SortRow(rows, storeId, now, i, products, errors);
      ReportProgress(job, old(job.progressLog), flags, isValid, i, n);
      flags := flags + [isValid];
      i := i + 1;
    }
    assert rows[..i] == rows;
  }

  // ------------------------------------------------------- stores

  /** The object bucket: object bodies by key. */
  class BlobStore {
    var objects: map<string, string>

    constructor ()
      ensures objects == map[]
    {
      objects := map[];
    }

    /** Stores `body` under `key`, replacing any earlier object. */
    method Put(key: string, body: string)
      modifies this
      ensures objects == old(objects)[key := body]
    {
      objects := objects[key := body];
    }
  }

  /** The product table the import writes into. */
  class ProductTable {
    var rows: seq<ProductDraft>

    constructor ()
      ensures rows == []
    {
      rows := [];
    }

    /** Inserts the products, in order, after the existing rows. */
    method CreateMany(products: seq<ProductDraft>)
      modifies this
      ensures rows == old(rows) + products
    {
      rows := rows + products;
    }
  }

  // ------------------------------------------------------- the upload

  /** A file received from the multipart request. */
  datatype UploadedFile = UploadedFile(filename: string, mimetype: string, content: string)

  /** The reply to an upload: the three refusals, or the new job together
      with the file's URL and original name. */
  datatype UploadOutcome =
    | NoStore
    | NoFile
    | NotCsv
    | Received(job: ImportJob, fileUrl: string, fileName: string)

  /** Receives a CSV for the store of `userId`: refuses a user without a
      store, a request without a file and a file that is not a CSV, leaving
      the bucket alone; otherwise stores the file under its upload key and
      creates a PENDING job whose file URL leads back to that key (for
      bucket, region and user id without '/', a user id without '.', and a
      file name without a directory part). */
  method UploadCsv(userId: string, userStore: Option<StoreId>, file: Option<UploadedFile>, nowMs: nat,
                   bucket: string, region: string, store: BlobStore)
      returns (outcome: UploadOutcome)
    modifies store
    ensures userStore.None? ==> outcome == NoStore
    ensures userStore.Some? && file.None? ==> outcome == NoFile
    ensures userStore.Some? && file.Some? && !IsValidCsv(file.value.filename, file.value.mimetype)
      ==> outcome == NotCsv
    ensures !outcome.Received? ==> unchanged(store)
    ensures outcome.Received? <==>
      userStore.Some? && file.Some? && IsValidCsv(file.value.filename, file.value.mimetype)
    ensures outcome.Received? ==>
      var key := UploadKey(userId, nowMs, file.value.filename);
      && store.objects == old(store.objects)[key := file.value.content]
      && fresh(outcome.job)
      && outcome.job.Valid() && outcome.job.status == Pending
      && outcome.job.userId == userId
      && outcome.job.fileUrl == outcome.fileUrl == FileUrl(bucket, region, key)
      && outcome.fileName == file.value.filename
      && ('/' !in bucket && '/' !in region && '/' !in userId && '.' !in userId && '/' !in file.value.filename
          ==> KeyOfUrl(outcome.fileUrl) == Some(key))
  {
    if userStore.None? {
      return NoStore;
    }
    if file.None? {
      return NoFile;
    }
    var f := file.value;
    if !IsValidCsv(f.filename, f.mimetype) {
      return NotCsv;
    }
    var key := UploadKey(userId, nowMs, f.filename);
    store.Put(key, f.content);
    var url := FileUrl(bucket, region, key);
    if '/' !in bucket && '/' !in region && '/' !in userId && '.' !in userId && '/' !in f.filename {
      UploadUrlRoundTrip(bucket, region, userId, nowMs, f.filename);
    }
    var job := new ImportJob(userId, url);
    return Received(job, url, f.filename);
  }

  // ------------------------------------------------------- the import run

  /** Runs an import job, as the background task does. A missing job is
      ignored. Otherwise the job goes to PROCESSING at 10%, and then:
      - the object its URL names is missing: FAILED, no error file;
      - the parser reported errors: FAILED, the upload as error file,
        nothing processed;
      - there are valid rows but the insert fails: FAILED, no error file,
        nothing inserted;
      - otherwise the valid rows are inserted and the job gets its final
        status and counts at 100%, with the upload as error file exactly
        when some row was rejected.
      `parse` is the CSV parser and `commitSucceeds` whether the insert
      transaction commits. */
  method StartCsvProcessing(job: ImportJob?, storeId: StoreId, store: BlobStore,
                            parse: string -> ParsedCsv, commitSucceeds: bool, now: Time,
                            table: ProductTable)
    requires job != null ==> job.Valid() && job.status == Pending
    modifies job, table
    ensures job == null ==> unchanged(table)
    ensures job != null ==> job.Valid() && job.status.IsTerminal()
    ensures job != null ==>
      var key := KeyOfUrl(job.fileUrl);
      if key.None? || key.value !in store.objects then
        && job.status == Failed && job.errorFileUrl == None
        && job.progressLog == old(job.progressLog) + [10]
        && job.totalRows == old(job.totalRows) && job.processedRows == old(job.processedRows)
        && job.errorRows == old(job.errorRows)
        && unchanged(table)
      else
        var csv := parse(store.objects[key.value]);
        var rows := RowsOf(csv);
        if csv.errorCount > 0 then
          && job.status == Failed && job.errorFileUrl == Some(job.fileUrl)
          && job.progressLog == old(job.progressLog) + [10]
          && job.totalRows == |rows| && job.processedRows == 0
          && job.errorRows == old(job.errorRows)
          && unchanged(table)
        else ImportedAs(job, old(job.progressLog) + [10], old(job.totalRows), old(job.processedRows), old(job.errorRows),
                        rows, storeId, now, commitSucceeds, old(table.rows), table.rows)
  {
    if job == null {
      return;
    }
    job.Start();
    var key := KeyOfUrl(job.fileUrl);
    if key.None? || key.value !in store.objects {
      job.Fail();
      return;
    }
    var csv := parse(store.objects[key.value]);
    var rows := RowsOf(csv);
    if csv.errorCount > 0 {
      job.FailParse(|rows|);
      return;
    }
    ImportRows(job, rows, storeId, now, commitSucceeds, table);
  }

  /** The job's state after its rows were walked, from the progress log
      `log` and the counts `total`, `processed`, `errors`: when there are
      valid rows and the insert fails, FAILED without an error file and the
      counts as they were; otherwise the final status, the counts (which add
      up), 100%, the upload as error file exactly when a row was rejected,
      and the valid rows' products after the table's earlier rows. */
  ghost predicate ImportedAs(job: ImportJob, log: seq<int>, total: nat, processed: nat, errors: nat,
                             rows: seq<CsvRow>, storeId: StoreId, now: Time, commitSucceeds: bool,
                             tableBefore: seq<ProductDraft>, tableAfter: seq<ProductDraft>)
    reads job
  {
    var products := AcceptedProducts(rows, storeId, now);
    var rejected := Rejections(rows, storeId, now);
    var writes := ProgressWrites(AcceptedFlags(rows, storeId, now), |rows|);
    if |products| > 0 && !commitSucceeds then
      && job.status == Failed && job.errorFileUrl == None
      && job.progressLog == log + writes
      && job.totalRows == total && job.processedRows == processed && job.errorRows == errors
      && tableAfter == tableBefore
    else
      && job.status == FinalStatus(|rejected|, |products|)
      && job.progressLog == log + writes + [100]
      && job.totalRows == |rows| && job.processedRows == |products| && job.errorRows == |rejected|
      && job.processedRows + job.errorRows == job.totalRows
      && job.errorFileUrl == (if |rejected| > 0 then Some(job.fileUrl) else None)
      && tableAfter == tableBefore + products
  }

  /** Walks the rows of a started job, inserts the products of the valid
      rows as one transaction that commits when `commitSucceeds`, and
      records the outcome. */
  method ImportRows(job: ImportJob, rows: seq<CsvRow>, storeId: StoreId, now: Time,
                    commitSucceeds: bool, table: ProductTable)
    requires job.Valid() && job.status == Processing && job.progress <= 10
    modifies job, table
    ensures job.Valid() && job.status.IsTerminal()
    ensures ImportedAs(job, old(job.progressLog), old(job.totalRows),
                       old(job.processedRows), old(job.errorRows), rows, storeId, now, commitSucceeds,
                       old(table.rows), table.rows)
  {
    var products, errors := ProcessRows(job, rows, storeId, now);
    PartitionCounts(rows, storeId, now);
    if |products| > 0 {
      if !commitSucceeds {
        job.Fail();
        return;
      }
      table.CreateMany(products);
    }
    var final := FinalStatus(|errors|, |products|);
    job.Finish(final, |rows|, |products|, |errors|, if |errors| > 0 then Some(job.fileUrl) else None);
  }

}
