/** `clean_data(input_file, output_file)`: drop exact duplicate rows, drop rows
    missing `titre` or `prix`, save the result, and return it; any exception on
    the way is swallowed and an empty frame returned. Reading the CSV file is
    abstract (its parsed table, or `None` when `read_csv` raises), and so is
    whether the storage accepts the write. */
module Utils {
  import opened Wrappers
  import opened Frames
  import Scraper

  /** The `subset` given to `dropna`. */
  const RequiredColumns: seq<string> := ["titre", "prix"]

  // ----- os.path.dirname (POSIX) -----

  /** Index just past the last '/' of `p`, 0 when there is none (`p.rfind('/') + 1`). */
  function AfterLastSlash(p: string): (i: nat)
    ensures i <= |p|
    ensures i > 0 ==> p[i - 1] == '/'
    ensures forall k :: i <= k < |p| ==> p[k] != '/'
  {
    if p == [] then 0
    else if p[|p| - 1] == '/' then |p|
    else AfterLastSlash(p[..|p| - 1])
  }

  predicate AllSlashes(s: string)
  {
    forall k :: 0 <= k < |s| ==> s[k] == '/'
  }

  /** `s.rstrip('/')`. */
  function TrimSlashes(s: string): (r: string)
    ensures |r| <= |s| && r == s[..|r|]
    ensures forall k :: |r| <= k < |s| ==> s[k] == '/'
  {
    if |s| > 0 && s[|s| - 1] == '/' then TrimSlashes(s[..|s| - 1]) else s
  }

  /** `os.path.dirname(p)`: everything before the last '/', with trailing slashes
      removed unless there is nothing but slashes. */
  function DirName(p: string): string
  {
    var head := p[..AfterLastSlash(p)];
    if head != [] && !AllSlashes(head) then TrimSlashes(head) else head
  }

  /** The directory part is empty exactly when the path holds no '/'. */
  lemma DirNameEmptyIff(p: string)
    ensures DirName(p) == [] <==> '/' !in p
  {
    var i := AfterLastSlash(p);
    var head := p[..i];
    if '/' in p {
      var k :| 0 <= k < |p| && p[k] == '/';
      assert i > 0;
      if !AllSlashes(head) {
        var m :| 0 <= m < |head| && head[m] != '/';
        var r := TrimSlashes(head);
        assert m < |r|;
      }
    } else {
      assert i == 0;
    }
  }

  // ----- drop_duplicates and dropna -----

  datatype CleanError = ReadFailed | MissingColumns(columns: seq<string>) | SaveFailed

  /** The subset columns that the table lacks, in subset order. */
  function Absent(columns: seq<string>, subset: seq<string>): (r: seq<string>)
    ensures forall c :: c in r <==> c in subset && c !in columns
  {
    if subset == [] then []
    else (if subset[0] in columns then [] else [subset[0]]) + Absent(columns, subset[1..])
  }

  /** `df.drop_duplicates(inplace=True)` then `df.dropna(subset=['titre', 'prix'],
      inplace=True)`; `dropna` raises a KeyError when a subset column is absent. */
  function CleanFrame(t: Table): Result<Table, CleanError>
  {
    var missing := Absent(t.columns, RequiredColumns);
    if missing != [] then Failure(MissingColumns(missing))
    else Success(Table(t.columns, DropNa(DropDuplicates(t.rows), RequiredColumns)))
  }

  /** The frame `clean_data` returns, and the table it wrote to `output_file`, if any. */
  datatype Outcome = Outcome(frame: Table, saved: Option<Table>)

  /** The body of `clean_data`, its `try` and its `except`. `input` is what `pd.read_csv(input_file)` produced (`None`: it
      raised); `storageOk` says whether creating the output directory and writing
      the file succeed. `os.makedirs('')` raises, so an output path without a
      directory part always ends in the error path. */
  function CleanStep(input: Option<Table>, outputFile: string, storageOk: bool): Result<Table, CleanError>
  {
    if input.None? then Failure(ReadFailed)
    else
      match CleanFrame(input.value)
      case Failure(e) => Failure(e)
      case Success(cleaned) =>
        if DirName(outputFile) == [] || !storageOk then Failure(SaveFailed) else Success(cleaned)
  }

  function CleanData(input: Option<Table>, outputFile: string, storageOk: bool): (r: Outcome)
    ensures r.saved.Some? ==> r.saved.value == r.frame
    ensures r.saved.None? ==> r.frame == EmptyFrame
  {
    match CleanStep(input, outputFile, storageOk)
    case Failure(_) => Outcome(EmptyFrame, None)
    case Success(cleaned) => Outcome(cleaned, Some(cleaned))
  }

  // ----- properties -----

  /** The cleaner fails on a table exactly when it lacks `titre` or `prix`. */
  lemma CleanFrameFailsIff(t: Table)
    ensures CleanFrame(t).Failure? <==> "titre" !in t.columns || "prix" !in t.columns
  {
    var missing := Absent(t.columns, RequiredColumns);
    if "titre" !in t.columns {
      assert "titre" in missing;
    }
    if "prix" !in t.columns {
      assert "prix" in missing;
    }
    if missing != [] {
      assert missing[0] in missing;
    }
  }

  /** A missing `titre` or `prix` column gives an empty frame and writes nothing. */
  lemma MissingColumnGivesEmpty(t: Table, outputFile: string, storageOk: bool)
    requires "titre" !in t.columns || "prix" !in t.columns
    ensures CleanData(Some(t), outputFile, storageOk) == Outcome(EmptyFrame, None)
  {
    CleanFrameFailsIff(t);
  }

  /** So does a failed read, an output path without a directory part, and a failed
      directory creation or write. */
  lemma NoDirectoryGivesEmpty(input: Option<Table>, outputFile: string, storageOk: bool)
    requires '/' !in outputFile || input.None? || !storageOk
    ensures CleanData(input, outputFile, storageOk) == Outcome(EmptyFrame, None)
  {
    DirNameEmptyIff(outputFile);
  }

  /** Otherwise the cleaned table is returned and saved. */
  lemma CleanDataSucceeds(t: Table, outputFile: string)
    requires "titre" in t.columns && "prix" in t.columns && '/' in outputFile
    ensures CleanFrame(t).Success? && CleanData(Some(t), outputFile, true) ==
      Outcome(CleanFrame(t).value, Some(CleanFrame(t).value))
  {
    CleanFrameFailsIff(t);
    DirNameEmptyIff(outputFile);
  }

  /** For successive positions, composition of subsequences. */
  lemma SubsequenceCompose(a: seq<Row>, b: seq<Row>, c: seq<Row>, ia: seq<nat>, ib: seq<nat>)
    returns (ic: seq<nat>)
    requires SubsequenceAt(a, b, ia) && SubsequenceAt(b, c, ib)
    ensures SubsequenceAt(a, c, ic)
  {
    ic := seq(|ia|, k requires 0 <= k < |ia| => ib[ia[k]]);
    forall k, l | 0 <= k < l < |ic| ensures ic[k] < ic[l] {
      assert ia[k] < ia[l];
    }
  }

  /** A successful clean keeps the columns and takes its rows from the input in
      their original order, none renamed or rewritten. */
  lemma CleanFrameSubsequence(t: Table) returns (idx: seq<nat>)
    requires CleanFrame(t).Success?
    ensures CleanFrame(t).value.columns == t.columns
    ensures SubsequenceAt(CleanFrame(t).value.rows, t.rows, idx)
  {
    var c := CleanFrame(t).value;
    var d := DropDuplicates(t.rows);
    var keepN := CompleteMask(d, RequiredColumns);
    DropDuplicatesKeepsFirst(t.rows);
    SelectAt(d, keepN);
    idx := SubsequenceCompose(c.rows, d, t.rows, TrueIndices(keepN), TrueIndices(FirstOccurrenceMask(t.rows)));
  }

  /** No two rows of a cleaned table are alike. */
  lemma CleanFrameUnique(t: Table)
    requires CleanFrame(t).Success?
    ensures NoDuplicates(CleanFrame(t).value.rows)
  {
    var d := DropDuplicates(t.rows);
    var keepN := CompleteMask(d, RequiredColumns);
    SelectAt(d, keepN);
    DropDuplicatesUnique(t.rows);
    UniqueSubsequence(CleanFrame(t).value.rows, d, TrueIndices(keepN));
  }

  /** The rows a successful clean keeps are exactly the distinct input rows that
      have both a `titre` and a `prix`. */
  lemma CleanFrameKeeps(t: Table)
    requires CleanFrame(t).Success?
    ensures var c := CleanFrame(t).value;
      && (forall k :: 0 <= k < |c.rows| ==> !IsNa(c.rows[k], "titre") && !IsNa(c.rows[k], "prix"))
      && (forall x :: x in c.rows <==> x in t.rows && HasAll(x, RequiredColumns))
  {
    var c := CleanFrame(t).value;
    var d := DropDuplicates(t.rows);
    forall x ensures x in c.rows <==> x in t.rows && HasAll(x, RequiredColumns) {
      DropNaExactly(d, RequiredColumns, x);
      DropDuplicatesSameRows(t.rows, x);
    }
    forall k | 0 <= k < |c.rows| ensures !IsNa(c.rows[k], "titre") && !IsNa(c.rows[k], "prix") {
      assert c.rows[k] in c.rows;
    }
  }

  /** Cleaning a cleaned table changes nothing. */
  lemma CleanFrameIdempotent(t: Table)
    requires CleanFrame(t).Success?
    ensures CleanFrame(CleanFrame(t).value) == CleanFrame(t)
  {
    var c := CleanFrame(t).value;
    CleanFrameUnique(t);
    CleanFrameKeeps(t);
    assert Absent(c.columns, RequiredColumns) == Absent(t.columns, RequiredColumns);
    DropDuplicatesOfUnique(c.rows);
    forall k | 0 <= k < |c.rows| ensures HasAll(c.rows[k], RequiredColumns) {
      assert c.rows[k] in c.rows;
    }
    DropNaOfComplete(c.rows, RequiredColumns);
  }

  /** Running `clean_data` on the file it wrote returns the same frame and writes it again. */
  lemma CleanDataIdempotent(input: Option<Table>, outputFile: string, storageOk: bool)
    ensures var r := CleanData(input, outputFile, storageOk);
      && CleanData(Some(r.frame), outputFile, storageOk).frame == r.frame
      && CleanData(Some(r.frame), outputFile, storageOk).saved == r.saved
  {
    var r := CleanData(input, outputFile, storageOk);
    if r.saved.Some? {
      CleanFrameIdempotent(input.value);
    } else {
      MissingColumnGivesEmpty(EmptyFrame, outputFile, storageOk);
    }
  }

  /** Cleaning keeps a well-formed table well formed. */
  lemma CleanFrameWellFormed(t: Table)
    requires WellFormed(t) && CleanFrame(t).Success?
    ensures WellFormed(CleanFrame(t).value)
  {
    SelectWellFormed(t, FirstOccurrenceMask(t.rows));
    var d := Table(t.columns, DropDuplicates(t.rows));
    SelectWellFormed(d, CompleteMask(d.rows, RequiredColumns));
  }

  /** The scraper names its title column `nom`, so a table it produced never has a
      `titre` column and cleaning it always gives an empty frame. */
  lemma ScrapedTableCleansToEmpty(records: seq<Scraper.Record>, outputFile: string, storageOk: bool)
    requires forall i :: 0 <= i < |records| ==> records[i].Keys == set c | c in Scraper.RecordColumns
    ensures CleanData(Some(Scraper.ToFrame(records)), outputFile, storageOk) == Outcome(EmptyFrame, None)
  {
    assert "titre" !in Scraper.RecordColumns;
    MissingColumnGivesEmpty(Scraper.ToFrame(records), outputFile, storageOk);
  }
}
