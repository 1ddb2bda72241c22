/**
 * The checks an uploaded file passes before the controller sees it: the
 * file-name/MIME filter, then a look at the bytes that rejects ZIP containers
 * (spreadsheets) and content with too many bytes that are not plain text.
 */
module UploadGate {
  import opened Base
  import opened Text

  newtype Byte = x: int | 0 <= x < 256

  /** An uploaded file: its original name (absent when the client sent none), its MIME type and its bytes. */
  datatype UploadedFile = UploadedFile(originalName: Option<string>, mimeType: string, bytes: seq<Byte>)

  /** What the route answers: an error status with its message, or passing the file on to the controller. */
  datatype Response = Reject(status: nat, message: string) | PassOn

  const CsvMimes: set<string> := {"text/csv", "application/csv", "application/vnd.ms-excel"}

  const FilterMessage: string := "Only .csv files are allowed"
  const NoFileMessage: string := "No file uploaded"
  const ZipMessage: string := "Only .csv files are allowed (no .xlsx/.xls)"
  const BinaryMessage: string := "File doesn’t look like plain-text CSV"

  // ---------- Name and type filter ----------

  /** `/\.csv$/i`: the name ends in ".csv", in any mix of upper and lower case. */
  predicate NameLooksCsv(name: string) {
    EndsWith(Lower(name), ".csv")
  }

  /** The filter: a `.csv` name or one of the CSV MIME types is enough. */
  predicate FileFilter(f: UploadedFile) {
    NameLooksCsv(f.originalName.GetOr("")) || f.mimeType in CsvMimes
  }

  /** The extension test, character by character: a dot, then c, s and v in either case, at the very end. */
  lemma NameLooksCsvChars(name: string)
    ensures NameLooksCsv(name) <==>
      |name| >= 4 && name[|name| - 4] == '.'
      && name[|name| - 3] in {'c', 'C'} && name[|name| - 2] in {'s', 'S'} && name[|name| - 1] in {'v', 'V'}
  {
    if |name| >= 4 {
      var n := |name|;
      var tail := Lower(name)[n - 4..];
      assert tail == [LowerChar(name[n - 4]), LowerChar(name[n - 3]), LowerChar(name[n - 2]), LowerChar(name[n - 1])];
    }
  }

  /** A name that only contains ".csv" further in, such as "data.csv.xlsx", is not accepted for its name. */
  lemma InnerCsvNotEnough()
    ensures !NameLooksCsv("data.csv.xlsx")
    ensures NameLooksCsv("Report.CSV")
  {
    NameLooksCsvChars("data.csv.xlsx");
    NameLooksCsvChars("Report.CSV");
  }

  // ---------- Content sniff ----------

  /** `PK\x03\x04` at the start: the signature of a ZIP container such as .xlsx. */
  predicate LooksZip(b: seq<Byte>) {
    |b| >= 4 && b[0] == 0x50 && b[1] == 0x4B && b[2] == 0x03 && b[3] == 0x04
  }

  /** Tab, line feed, carriage return, printable ASCII and the three UTF-8 byte-order-mark bytes. */
  predicate IsTextByte(c: Byte) {
    c == 0x09 || c == 0x0A || c == 0x0D || (0x20 <= c <= 0x7E) || c == 0xEF || c == 0xBB || c == 0xBF
  }

  const SampleSize: nat := 2048
  const Tolerance: nat := 16

  /** The first `min(length, 2048)` bytes. */
  function Sample(b: seq<Byte>): (s: seq<Byte>)
    ensures |s| <= SampleSize && |s| <= |b| && s == b[..|s|]
    ensures |b| <= SampleSize ==> s == b
  {
    if |b| <= SampleSize then b else b[..SampleSize]
  }

  /** Number of bytes of `s` that are not text bytes. */
  function NonText(s: seq<Byte>): (n: nat)
    ensures n <= |s|
    decreases |s|
  {
    if s == [] then 0 else NonText(s[..|s| - 1]) + (if IsTextByte(s[|s| - 1]) then 0 else 1)
  }

  /** The verdict on the bytes: ZIP signature first, then more than 16 non-text bytes in the sample. */
  function ContentVerdict(b: seq<Byte>): (r: Response)
    ensures r.PassOn? || r.status == 415
  {
    if LooksZip(b) then Reject(415, ZipMessage)
    else if NonText(Sample(b)) > Tolerance then Reject(415, BinaryMessage)
    else PassOn
  }

  /**
   * `rejectNonCsvContent` on a file's bytes: the loop counts non-text bytes of
   * the sample and stops as soon as the count passes 16.
   */
  method SniffContent(b: seq<Byte>) returns (r: Response)
    ensures r == ContentVerdict(b)
  {
    var looksZip := |b| >= 4 && b[0] == 0x50 && b[1] == 0x4B && b[2] == 0x03 && b[3] == 0x04;
    if looksZip {
      return Reject(415, ZipMessage);
    }
    var sample := b[..if |b| < 2048 then |b| else 2048];
    assert sample == Sample(b);
    var binish := 0;
    var i := 0;
    while i < |sample|
      invariant 0 <= i <= |sample|
      invariant binish == NonText(sample[..i])
      invariant binish <= Tolerance
      decreases |sample| - i
    {
      var c := sample[i];
      assert sample[..i + 1][..i] == sample[..i];
      if IsTextByte(c) {
        i := i + 1;
        continue;
      }
      binish := binish + 1;
      if binish > 16 {
        NonTextPrefix(sample, i + 1);
        break;
      }
      i := i + 1;
    }
    if binish > 16 {
      return Reject(415, BinaryMessage);
    }
    assert sample[..i] == sample;
    return PassOn;
  }

  /** A prefix never has more non-text bytes than the whole. */
  lemma {:induction false} NonTextPrefix(s: seq<Byte>, k: nat)
    requires k <= |s|
    ensures NonText(s[..k]) <= NonText(s)
    decreases |s| - k
  {
    if k < |s| {
      NonTextPrefix(s, k + 1);
      assert s[..k + 1][..k] == s[..k];
    } else {
      assert s[..k] == s;
    }
  }

  /** The whole gate: a missing file, the name/type filter, then the content sniff. */
  function Gate(file: Option<UploadedFile>): (r: Response)
    ensures file.None? ==> r == Reject(400, NoFileMessage)
    ensures file.Some? && !FileFilter(file.value) ==> r == Reject(415, FilterMessage)
    ensures r.PassOn? ==> file.Some? && FileFilter(file.value) && !LooksZip(file.value.bytes)
    ensures file.Some? && FileFilter(file.value) ==> r == ContentVerdict(file.value.bytes)
  {
    match file
    case None => Reject(400, NoFileMessage)
    case Some(f) => if !FileFilter(f) then Reject(415, FilterMessage) else ContentVerdict(f.bytes)
  }

  // ---------- Properties of the sniff ----------

  /** A ZIP signature is rejected whatever follows it. */
  lemma ZipRejectedWhateverFollows(rest: seq<Byte>)
    ensures ContentVerdict([0x50, 0x4B, 0x03, 0x04] + rest) == Reject(415, ZipMessage)
  {
  }

  /** Bytes after the first 2048 never change the verdict. */
  lemma OnlySampleMatters(b: seq<Byte>, extra: seq<Byte>)
    requires |b| >= SampleSize
    ensures ContentVerdict(b + extra) == ContentVerdict(b)
  {
    assert (b + extra)[..SampleSize] == b[..SampleSize];
    assert (b + extra)[..4] == b[..4];
  }

  /** A file of at most 16 bytes is only ever rejected for a ZIP signature, so one under four bytes always passes. */
  lemma SmallFilesPass(b: seq<Byte>)
    requires |b| <= Tolerance
    ensures ContentVerdict(b) == (if LooksZip(b) then Reject(415, ZipMessage) else PassOn)
    ensures |b| < 4 ==> ContentVerdict(b) == PassOn
  {
  }

  /** Text made only of text bytes passes, however long. */
  lemma TextPasses(b: seq<Byte>)
    requires !LooksZip(b)
    requires forall k :: 0 <= k < |b| ==> IsTextByte(b[k])
    ensures ContentVerdict(b) == PassOn
  {
    AllTextCountsZero(Sample(b));
  }

  lemma {:induction false} AllTextCountsZero(s: seq<Byte>)
    requires forall k :: 0 <= k < |s| ==> IsTextByte(s[k])
    ensures NonText(s) == 0
    decreases |s|
  {
    if s != [] {
      AllTextCountsZero(s[..|s| - 1]);
    }
  }

  /** Seventeen non-text bytes at the start reject the file, whatever follows. */
  lemma SeventeenBinaryBytesReject(b: seq<Byte>)
    requires |b| >= 17 && !LooksZip(b)
    requires forall k :: 0 <= k < 17 ==> !IsTextByte(b[k])
    ensures ContentVerdict(b) == Reject(415, BinaryMessage)
  {
    var s := Sample(b);
    AllBinaryCounts(s[..17]);
    NonTextPrefix(s, 17);
  }

  lemma {:induction false} AllBinaryCounts(s: seq<Byte>)
    requires forall k :: 0 <= k < |s| ==> !IsTextByte(s[k])
    ensures NonText(s) == |s|
    decreases |s|
  {
    if s != [] {
      AllBinaryCounts(s[..|s| - 1]);
    }
  }
}
