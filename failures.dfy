/** The ways a run stops early. Python raises each of these as an exception that ends the script. */
module Failures {

  datatype Failure =
    | DateOverflow    // `date.today() - timedelta(days=1)` below 0001-01-01 (OverflowError)
    | NoArchiveMatch  // `re.search` found nothing and `.group()` was called on None (AttributeError)
    | EmptyFrame      // `df.index[-1]` on a frame with no rows left (IndexError)
}
