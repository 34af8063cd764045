/** One run of the collector: locate yesterday's archive in the directory listing, clean
    the price table read from it, and split the rows into one output per configured region.
    The listing text, the run date and the parsed table are inputs; the written files are
    the returned map from region code to rows. */
module Collector {
  import opened Wrappers
  import opened Failures
  import opened Masks
  import Calendar
  import Locator
  import opened Cleaning
  import opened Regions

  /** What a successful run produces: the archive URL it read and the per-region outputs. */
  datatype Report = Report(url: string, files: map<string, seq<Row>>)

  /** The run as one expression: the first failing step decides the error. A run that
      succeeds exactly when the archive is located and the table cleans, and it writes exactly
      the QLD1 and NSW1 outputs. */
  function Collect(runDate: Calendar.Date, listing: string, table: seq<Row>): (r: Result<Report, Failure>)
    requires Calendar.Valid(runDate)
    ensures Locator.Locate(listing, runDate).Err? ==> r == Err(Locator.Locate(listing, runDate).error)
    ensures Locator.Locate(listing, runDate).Ok? && Clean(table).Err? ==> r == Err(EmptyFrame)
    ensures r.Ok? ==> r.value.files.Keys == {"QLD1", "NSW1"}
    ensures r.Ok? <==> Locator.Locate(listing, runDate).Ok? && Clean(table).Ok?
  {
    match Locator.ArchiveUrl(listing, runDate)
    case Err(e) => Err(e)
    case Ok(url) =>
      match Clean(table)
      case Err(e) => Err(e)
      case Ok(rows) => Ok(Report(url, RegionFiles(rows)))
  }

  /** What a run promises. It fails when yesterday's archive is not listed (whatever the
      table), or when the table has no row with a value; otherwise it reports the base URL
      followed by yesterday's archive name, and exactly two outputs, QLD1 and NSW1, each holding
      only rows of its region, none blank, none repeated, all taken from the table. */
  lemma CollectOutcome(runDate: Calendar.Date, listing: string, table: seq<Row>)
    requires Calendar.Valid(runDate)
    ensures var r := Collect(runDate, listing, table);
      && (Locator.Locate(listing, runDate).Err? ==> r == Err(Locator.Locate(listing, runDate).error))
      && (Locator.Locate(listing, runDate).Ok? ==>
            (r == Err(EmptyFrame) <==> forall x :: x in table ==> !HasSomeValue(x)))
      && (r.Ok? ==>
            && r.value.url == Locator.BASE_URL + Locator.Locate(listing, runDate).value
            && Locator.IsArchiveName(r.value.url[|Locator.BASE_URL|..],
                                     Calendar.Stamp(Calendar.Yesterday(runDate).value))
            && r.value.files.Keys == {"QLD1", "NSW1"}
            && forall code, x :: code in r.value.files && x in r.value.files[code] ==>
                 x.regionId == Some(code) && HasSomeValue(x) && x in table)
  {
    var r := Collect(runDate, listing, table);
    if r.Ok? {
      var rows := Clean(table).value;
      forall code, x | code in r.value.files && x in r.value.files[code]
        ensures x.regionId == Some(code) && HasSomeValue(x) && x in table
      {
        assert multiset(RegionRows(rows, code))[x] > 0;
      }
    }
  }

  /** Every region output is free of repeated rows. */
  lemma CollectOutputsDistinct(runDate: Calendar.Date, listing: string, table: seq<Row>, code: string)
    requires Calendar.Valid(runDate)
    requires Collect(runDate, listing, table).Ok? && code in Collect(runDate, listing, table).value.files
    ensures NoDuplicates(Collect(runDate, listing, table).value.files[code])
  {
    var rows := Clean(table).value;
    SelectKeepsDistinct(rows, Where(rows, InRegion(code)));
  }

  /** Reading and cleaning the frame in place: duplicates, then blank rows, then the row
      holding the last index label; the rows left are the ones Clean describes. */
  method ReadAndClean(table: seq<Row>) returns (r: Result<seq<Row>, Failure>)
    ensures r == Clean(table)
  {
    var frame := new Frame.ReadCsv(table);
    frame.DropDuplicates();
    frame.DropBlankRows();
    assert frame.rows == WithoutBlankRows(Deduplicated(table));
    var last := frame.LastLabel();
    if last.None? {
      return Err(EmptyFrame);
    }
    DropLastLabel(frame.index, frame.rows);
    frame.Drop(last.value);
    r := Ok(frame.rows);
  }

  /** The script, statement by statement: locate the archive, read and clean its table, run
      the per-region loop; the outcome is the one Collect describes. */
  method CollectRrpData(runDate: Calendar.Date, listing: string, table: seq<Row>)
    returns (r: Result<Report, Failure>)
    requires Calendar.Valid(runDate)
    ensures r == Collect(runDate, listing, table)
  {
    var url := Locator.ArchiveUrl(listing, runDate);
    if url.Err? {
      return Err(url.error);
    }
    var cleaned := ReadAndClean(table);
    if cleaned.Err? {
      return Err(cleaned.error);
    }
    var files := SplitByRegion(cleaned.value, STATES);
    assert files == RegionFiles(cleaned.value);
    r := Ok(Report(url.value, files));
  }
}
