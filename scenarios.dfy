/** Concrete runs of the cleaning, splitting and locating steps. */
module Scenarios {
  import opened Wrappers
  import opened Masks
  import opened Cleaning
  import opened Regions
  import Locator

  const QLD_ROW := Row(Some("QLD1"), Some("2024-01-15 00:05:00"), Some(45.2))
  const NSW_ROW := Row(Some("NSW1"), None, None)
  const BLANK_ROW := Row(None, None, None)
  const TOTAL_ROW := Row(Some("TOTAL"), None, None)

  /** The four sample rows differ pairwise. */
  lemma SampleRowsDiffer()
    ensures QLD_ROW != NSW_ROW && QLD_ROW != BLANK_ROW && QLD_ROW != TOTAL_ROW
    ensures NSW_ROW != BLANK_ROW && NSW_ROW != TOTAL_ROW && BLANK_ROW != TOTAL_ROW
  {
    assert "QLD1"[0] != "NSW1"[0] && "QLD1"[0] != "TOTAL"[0] && "NSW1"[0] != "TOTAL"[0];
  }

  /** Selection from a mask of one more entry: the last element is appended when its entry
      is true. */
  lemma SelectSnoc<T>(s: seq<T>, keep: seq<bool>, x: T, b: bool)
    requires |keep| == |s|
    ensures Select(s + [x], keep + [b]) == Select(s, keep) + (if b then [x] else [])
  {
    assert (s + [x])[..|s|] == s;
    assert (keep + [b])[..|s|] == keep;
  }

  /** The duplicate mask of `[q, q, n, b, t]` for pairwise different rows. */
  lemma FirstOccurrencesRepeatAtFront(q: Row, n: Row, b: Row, t: Row)
    requires q != n && q != b && q != t && n != b && n != t && b != t
    ensures FirstOccurrences([q, q, n, b, t]) == [true, false, true, true, true]
  {
    var s := [q, q, n, b, t];
    assert s[..1] == [q] && s[..2] == [q, q];
    assert s[..3] == [q, q, n] && s[..4] == [q, q, n, b];
  }

  /** Selection with the second of five entries off. */
  lemma SelectAllButSecond<T>(a: T, b: T, c: T, d: T, e: T)
    ensures Select([a, b, c, d, e], [true, false, true, true, true]) == [a, c, d, e]
  {
    SelectSnoc([], [], a, true);
    assert [a] == [] + [a] && [true] == [] + [true];
    SelectSnoc([a], [true], b, false);
    assert [a, b] == [a] + [b] && [true, false] == [true] + [false];
    SelectSnoc([a, b], [true, false], c, true);
    assert [a, b, c] == [a, b] + [c] && [true, false, true] == [true, false] + [true];
    SelectSnoc([a, b, c], [true, false, true], d, true);
    assert [a, b, c, d] == [a, b, c] + [d] && [true, false, true, true] == [true, false, true] + [true];
    SelectSnoc([a, b, c, d], [true, false, true, true], e, true);
    assert [a, b, c, d, e] == [a, b, c, d] + [e];
    assert [true, false, true, true, true] == [true, false, true, true] + [true];
  }

  /** Deduplication of `[q, q, n, b, t]` for pairwise different rows removes the repeat. */
  lemma DeduplicatedRepeatAtFront(q: Row, n: Row, b: Row, t: Row)
    requires q != n && q != b && q != t && n != b && n != t && b != t
    ensures Deduplicated([q, q, n, b, t]) == [q, n, b, t]
  {
    FirstOccurrencesRepeatAtFront(q, n, b, t);
    SelectAllButSecond(q, q, n, b, t);
  }

  /** Selection with the third of four entries off. */
  lemma SelectAllButThird<T>(a: T, b: T, c: T, d: T)
    ensures Select([a, b, c, d], [true, true, false, true]) == [a, b, d]
  {
    SelectSnoc([], [], a, true);
    assert [a] == [] + [a] && [true] == [] + [true];
    SelectSnoc([a], [true], b, true);
    assert [a, b] == [a] + [b] && [true, true] == [true] + [true];
    SelectSnoc([a, b], [true, true], c, false);
    assert [a, b, c] == [a, b] + [c] && [true, true, false] == [true, true] + [false];
    SelectSnoc([a, b, c], [true, true, false], d, true);
    assert [a, b, c, d] == [a, b, c] + [d];
    assert [true, true, false, true] == [true, true, false] + [true];
  }

  /** Removing blank rows from `[q, n, b, t]` where only `b` is blank. */
  lemma WithoutBlankRowsOneBlank(q: Row, n: Row, b: Row, t: Row)
    requires HasSomeValue(q) && HasSomeValue(n) && !HasSomeValue(b) && HasSomeValue(t)
    ensures WithoutBlankRows([q, n, b, t]) == [q, n, t]
  {
    assert Where([q, n, b, t], HasSomeValue) == [true, true, false, true];
    SelectAllButThird(q, n, b, t);
  }

  /** A repeated row, a row with only its region, a blank row and a trailer: the repeat and
      the blank row go, and the trailer is the row dropped last. */
  lemma CleaningScenario()
    ensures Clean([QLD_ROW, QLD_ROW, NSW_ROW, BLANK_ROW, TOTAL_ROW]) == Ok([QLD_ROW, NSW_ROW])
  {
    SampleRowsDiffer();
    DeduplicatedRepeatAtFront(QLD_ROW, NSW_ROW, BLANK_ROW, TOTAL_ROW);
    WithoutBlankRowsOneBlank(QLD_ROW, NSW_ROW, BLANK_ROW, TOTAL_ROW);
    assert [QLD_ROW, NSW_ROW, TOTAL_ROW][..2] == [QLD_ROW, NSW_ROW];
  }

  /** The cleaned table above gives one row to each configured region. */
  lemma SplitScenario()
    ensures RegionRows([QLD_ROW, NSW_ROW], "QLD1") == [QLD_ROW]
    ensures RegionRows([QLD_ROW, NSW_ROW], "NSW1") == [NSW_ROW]
  {
    SampleRowsDiffer();
    var mq := Where([QLD_ROW, NSW_ROW], InRegion("QLD1"));
    var mn := Where([QLD_ROW, NSW_ROW], InRegion("NSW1"));
    assert mq == [true, false] && mn == [false, true];
    assert [QLD_ROW] == [] + [QLD_ROW] && [QLD_ROW, NSW_ROW] == [QLD_ROW] + [NSW_ROW];
    SelectSnoc([], [], QLD_ROW, true);
    SelectSnoc([QLD_ROW], [true], NSW_ROW, false);
    assert [true] == [] + [true] && mq == [true] + [false];
    SelectSnoc([], [], QLD_ROW, false);
    SelectSnoc([QLD_ROW], [false], NSW_ROW, true);
    assert [false] == [] + [false] && mn == [false] + [true];
  }

  /** One row left after the first two steps: the drop empties the table, and so every
      region output is empty. */
  lemma SingleRowScenario(q: Row, b: Row)
    requires HasSomeValue(q) && !HasSomeValue(b)
    ensures Clean([q, b]) == Ok([])
  {
    DeduplicatedOfDistinct([q, b]);
    WithoutBlankRowsTrailingBlank(q, b);
  }

  /** Removing blank rows from `[q, b]` where only `b` is blank. */
  lemma WithoutBlankRowsTrailingBlank(q: Row, b: Row)
    requires HasSomeValue(q) && !HasSomeValue(b)
    ensures WithoutBlankRows([q, b]) == [q]
  {
    assert Where([q, b], HasSomeValue) == [true, false];
    SelectSnoc([q], [true], b, false);
    SelectAll([q], [true]);
    assert [q, b] == [q] + [b] && [true, false] == [true] + [false];
  }

  /** The row dropped last is the last row left after cleaning, not the last row read: when
      the last row read repeats an earlier one, deduplication removes it and the drop then
      removes a data row. */
  lemma DroppedRowIsNotLastRowRead(q: Row, n: Row)
    requires q != n && HasSomeValue(q) && HasSomeValue(n)
    ensures Clean([q, n, q]) == Ok([q])
  {
    DeduplicatedTrailingRepeat(q, n);
    WithoutBlankRowsOfFilled([q, n]);
    assert [q, n][..1] == [q];
  }

  /** Deduplicating `[q, n, q]` removes the trailing repeat. */
  lemma DeduplicatedTrailingRepeat(q: Row, n: Row)
    requires q != n
    ensures Deduplicated([q, n, q]) == [q, n]
  {
    assert [q, n, q][..1] == [q] && [q, n, q][..2] == [q, n];
    assert FirstOccurrences([q, n, q]) == [true, true, false];
    SelectSnoc([q, n], [true, true], q, false);
    SelectAll([q, n], [true, true]);
    assert [q, n, q] == [q, n] + [q] && [true, true, false] == [true, true] + [false];
  }

  /** A match at `j` puts `P` at `j` and the `.` of `.zip` at the fixed distance after it. */
  lemma MatchLetters(text: string, stamp: string, j: nat)
    requires Locator.MatchesAt(text, stamp, j)
    ensures text[j] == 'P' && text[j + Locator.NameLength(stamp) - 4] == '.'
  {
    var end := j + Locator.NameLength(stamp);
    assert text[j..j + 14][0] == text[j];
    assert text[end - 4..end][0] == text[end - 4];
  }

  /** A 52-character text in which no candidate start has both the `P` and the `.` a match
      needs holds no match for an 8-digit stamp. */
  lemma NoMatchWithoutLetters(text: string, stamp: string)
    requires |stamp| == 8 && |text| == Locator.NameLength(stamp) + 7
    requires forall j :: 0 <= j <= 7 ==> text[j] != 'P' || text[j + Locator.NameLength(stamp) - 4] != '.'
    ensures Locator.Search(text, stamp, 0).None?
  {
    forall j: nat | j + Locator.NameLength(stamp) <= |text|
      ensures !Locator.MatchesAt(text, stamp, j)
    {
      if Locator.MatchesAt(text, stamp, j) {
        MatchLetters(text, stamp, j);
      }
    }
  }

  /** A name with a 20-digit timestamp directly followed by `"` is not located: the pattern
      wants exactly 14 digits before `.zip`, and the lookahead rejects a following quote. */
  lemma OverlongTimestampNotLocated()
    ensures Locator.Search("PUBLIC_PRICES_202401159999_20240115235959123456.zip\"", "20240115", 0).None?
  {
    var text := "PUBLIC_PRICES_202401159999_20240115235959123456.zip\"";
    var head := "PUBLIC_PRI";
    assert text == head + text[10..];
    forall j | 0 <= j <= 7
      ensures text[j] != 'P' || text[j + 41] != '.'
    {
      if j == 0 {
        assert text[41] == '1';
      } else if j == 7 {
        assert text[48] == 'z';
      } else {
        assert text[j] == head[j];
      }
    }
    NoMatchWithoutLetters(text, "20240115");
  }
}
