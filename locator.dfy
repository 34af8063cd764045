/** Finding the day's archive in the directory listing: the pattern
    `PUBLIC_PRICES_<stamp>\d{4}_\d{14}\.zip(?!")` searched with `re.search`, and the
    download URL formed by appending the match to the base URL. */
module Locator {
  import opened Wrappers
  import opened Text
  import opened Failures
  import Calendar

  const BASE_URL := "https://nemweb.com.au/Reports/Current/Public_Prices/"
  const PREFIX := "PUBLIC_PRICES_"
  const EXTENSION := ".zip"

  /** Every match of the pattern has this length: prefix, stamp, 4 digits, `_`, 14 digits, `.zip`. */
  function NameLength(stamp: string): nat {
    |PREFIX| + |stamp| + 4 + 1 + 14 + |EXTENSION|
  }

  /** `name` is, in its entirety, `PUBLIC_PRICES_<stamp>\d{4}_\d{14}\.zip`. */
  predicate IsArchiveName(name: string, stamp: string) {
    var k := |PREFIX| + |stamp|;
    && |name| == NameLength(stamp)
    && name[..k] == PREFIX + stamp
    && AllDigits(name[k..k + 4])
    && name[k + 4] == '_'
    && AllDigits(name[k + 5..k + 19])
    && name[k + 19..] == EXTENSION
  }

  /** An archive name built from its parts: the grammar read forwards. */
  function ArchiveName(stamp: string, time: string, published: string): string {
    PREFIX + stamp + time + "_" + published + EXTENSION
  }

  /** The pattern accepts exactly the names built from a 4-digit time and a 14-digit
      publication timestamp. */
  lemma ArchiveNameGrammar(name: string, stamp: string)
    ensures IsArchiveName(name, stamp) <==>
      exists time, published ::
        && |time| == 4 && AllDigits(time)
        && |published| == 14 && AllDigits(published)
        && name == ArchiveName(stamp, time, published)
  {
    var k := |PREFIX| + |stamp|;
    if IsArchiveName(name, stamp) {
      var time, published := name[k..k + 4], name[k + 5..k + 19];
      assert name == name[..k] + time + [name[k + 4]] + published + name[k + 19..];
      assert name == ArchiveName(stamp, time, published);
    }
    if exists time, published ::
        && |time| == 4 && AllDigits(time)
        && |published| == 14 && AllDigits(published)
        && name == ArchiveName(stamp, time, published)
    {
      var time, published :|
        && |time| == 4 && AllDigits(time)
        && |published| == 14 && AllDigits(published)
        && name == ArchiveName(stamp, time, published);
      assert name[k..k + 4] == time;
      assert name[k + 5..k + 19] == published;
    }
  }

  /** The pattern matches `text` at position `i`: an archive name starts there and the
      negative lookahead `(?!")` holds, i.e. the name is not directly followed by `"`.
      The text there then spells the prefix, then the stamp, and ends in `.zip`. */
  predicate MatchesAt(text: string, stamp: string, i: nat): (b: bool)
    ensures b ==> i + NameLength(stamp) <= |text|
    ensures b ==> text[i..i + |PREFIX|] == PREFIX
    ensures b ==> text[i + |PREFIX|..i + |PREFIX| + |stamp|] == stamp
    ensures b ==> text[i + NameLength(stamp) - |EXTENSION|..i + NameLength(stamp)] == EXTENSION
  {
    var end := i + NameLength(stamp);
    if end <= |text| && IsArchiveName(text[i..end], stamp) then
      NameInText(text, stamp, i);
      end == |text| || text[end] != '"'
    else
      false
  }

  /** An archive name found at position i of the text puts the prefix, the stamp and the
      extension at the matching positions of the text. */
  lemma NameInText(text: string, stamp: string, i: nat)
    requires i + NameLength(stamp) <= |text| && IsArchiveName(text[i..i + NameLength(stamp)], stamp)
    ensures text[i..i + |PREFIX|] == PREFIX
    ensures text[i + |PREFIX|..i + |PREFIX| + |stamp|] == stamp
    ensures text[i + NameLength(stamp) - |EXTENSION|..i + NameLength(stamp)] == EXTENSION
  {
    var end := i + NameLength(stamp);
    var name := text[i..end];
    var k := |PREFIX| + |stamp|;
    assert text[i..i + k] == name[..k] == PREFIX + stamp;
    assert text[i..i + |PREFIX|] == (PREFIX + stamp)[..|PREFIX|];
    assert text[i + |PREFIX|..i + k] == (PREFIX + stamp)[|PREFIX|..];
    assert text[end - |EXTENSION|..end] == name[k + 19..];
  }

  /** `re.search` from position `from`: the leftmost position at or after `from` where the
      pattern matches, or None. */
  function Search(text: string, stamp: string, from: nat): (r: Option<nat>)
    ensures r.Some? ==> from <= r.value && MatchesAt(text, stamp, r.value)
    ensures r.Some? ==> forall j: nat :: from <= j < r.value ==> !MatchesAt(text, stamp, j)
    ensures r.None? ==> forall j: nat :: from <= j ==> !MatchesAt(text, stamp, j)
    decreases |text| - from
  {
    if from + NameLength(stamp) > |text| then None
    else if MatchesAt(text, stamp, from) then Some(from)
    else Search(text, stamp, from + 1)
  }

  /** Any position that matches with no match before it is what the search returns. */
  lemma SearchFindsLeftmost(text: string, stamp: string, p: nat)
    requires MatchesAt(text, stamp, p)
    requires forall j: nat :: j < p ==> !MatchesAt(text, stamp, j)
    ensures Search(text, stamp, 0) == Some(p)
  {
  }

  /** The archive name for the run date: the text of the leftmost match in the listing for
      yesterday's stamp. Fails when yesterday does not exist or nothing matches. */
  function Locate(listing: string, runDate: Calendar.Date): (r: Result<string, Failure>)
    requires Calendar.Valid(runDate)
    ensures r.Err? ==> r.error == DateOverflow || r.error == NoArchiveMatch
    ensures r.Err? && r.error == DateOverflow <==> Calendar.Yesterday(runDate).None?
    ensures r.Ok? ==> IsArchiveName(r.value, Calendar.Stamp(Calendar.Yesterday(runDate).value))
  {
    match Calendar.Yesterday(runDate)
    case None => Err(DateOverflow)
    case Some(day) =>
      var stamp := Calendar.Stamp(day);
      match Search(listing, stamp, 0)
      case None => Err(NoArchiveMatch)
      case Some(i) => Ok(listing[i..i + NameLength(stamp)])
  }

  /** When yesterday's name occurs un-quoted at `p` and nowhere un-quoted before, the
      located name is the text at `p`. */
  lemma LocateReturnsLeftmostMatch(listing: string, runDate: Calendar.Date, day: Calendar.Date, p: nat)
    requires Calendar.Valid(runDate) && Calendar.Yesterday(runDate) == Some(day)
    requires MatchesAt(listing, Calendar.Stamp(day), p)
    requires forall j: nat :: j < p ==> !MatchesAt(listing, Calendar.Stamp(day), j)
    ensures Locate(listing, runDate) == Ok(listing[p..p + NameLength(Calendar.Stamp(day))])
  {
    SearchFindsLeftmost(listing, Calendar.Stamp(day), p);
  }

  /** The run stops for want of an archive exactly when yesterday's name occurs nowhere
      un-quoted in the listing: there is no fallback name. */
  lemma LocateFailsOnlyWithoutMatch(listing: string, runDate: Calendar.Date, day: Calendar.Date)
    requires Calendar.Valid(runDate) && Calendar.Yesterday(runDate) == Some(day)
    ensures Locate(listing, runDate) == Err(NoArchiveMatch) <==>
      forall j: nat :: !MatchesAt(listing, Calendar.Stamp(day), j)
  {
  }

  /** The download URL: the base URL followed by the located name. */
  function ArchiveUrl(listing: string, runDate: Calendar.Date): (r: Result<string, Failure>)
    requires Calendar.Valid(runDate)
    ensures r.Ok? <==> Locate(listing, runDate).Ok?
    ensures r.Err? ==> r.error == Locate(listing, runDate).error
    ensures r.Ok? ==> |r.value| == |BASE_URL| + NameLength(Calendar.Stamp(Calendar.Yesterday(runDate).value))
    ensures r.Ok? ==> r.value[..|BASE_URL|] == BASE_URL
    ensures r.Ok? ==> r.value[|BASE_URL|..] == Locate(listing, runDate).value
  {
    match Locate(listing, runDate)
    case Err(e) => Err(e)
    case Ok(name) => Ok(BASE_URL + name)
  }

  /** A match starts with the letters `PU`. */
  lemma MatchStart(text: string, stamp: string, j: nat)
    requires MatchesAt(text, stamp, j)
    ensures text[j] == 'P' && text[j + 1] == 'U'
  {
    var name := text[j..j + NameLength(stamp)];
    var k := |PREFIX| + |stamp|;
    assert name[..k][0] == PREFIX[0] && name[..k][1] == PREFIX[1];
    assert text[j] == name[0] && text[j + 1] == name[1];
  }

  /** Inside `NAME">` no `P` is followed by `U` except at its very start. */
  lemma NoInnerStart(name: string, stamp: string, t: nat)
    requires AllDigits(stamp) && IsArchiveName(name, stamp)
    requires 1 <= t < |name| + 2
    ensures (name + "\">")[t] == 'P' ==> t + 1 < |name| + 2 && (name + "\">")[t + 1] != 'U'
  {
    var w := name + "\">";
    var k := |PREFIX| + |stamp|;
    if t < |PREFIX| {
      assert w[t] == name[..k][t] == PREFIX[t];
      if t == 7 {
        assert w[t + 1] == name[..k][t + 1] == PREFIX[t + 1] == 'R';
      }
    } else if t < k {
      assert w[t] == name[..k][t] == stamp[t - |PREFIX|];
    } else if t < k + 4 {
      assert w[t] == name[k..k + 4][t - k];
    } else if t == k + 4 {
    } else if t < k + 19 {
      assert w[t] == name[k + 5..k + 19][t - k - 5];
    } else if t < |name| {
      assert w[t] == EXTENSION[t - k - 19];
    }
  }

  /** No match starts strictly inside a quoted link target `NAME">` found at `s`. */
  lemma NoMatchInsideLink(text: string, stamp: string, name: string, s: nat, j: nat)
    requires AllDigits(stamp) && IsArchiveName(name, stamp)
    requires s + |name| + 2 <= |text| && text[s..s + |name| + 2] == name + "\">"
    requires s <= j < s + |name| + 2
    ensures !MatchesAt(text, stamp, j)
  {
    var w := name + "\">";
    var t := j - s;
    if t == 0 {
      assert text[j + NameLength(stamp)] == w[|name|];
    } else {
      assert text[j] == w[t];
      if t + 1 < |w| {
        assert text[j + 1] == w[t + 1];
      }
      NoInnerStart(name, stamp, t);
      if MatchesAt(text, stamp, j) {
        MatchStart(text, stamp, j);
      }
    }
  }

  /** A listing links each archive as `<a href="NAME">NAME</a>`. When the first un-quoted
      candidate is such a link, with `NAME">` at `s`: the first NAME is followed by `"` and
      the lookahead rejects it, no match starts inside it or in `">`, so the search returns
      the link text NAME. */
  lemma LinkTextFound(text: string, stamp: string, name: string, s: nat)
    requires AllDigits(stamp) && IsArchiveName(name, stamp)
    requires s + 2 * |name| + 2 <= |text|
    requires text[s..s + |name| + 2] == name + "\">"
    requires text[s + |name| + 2..s + 2 * |name| + 2] == name
    requires s + 2 * |name| + 2 == |text| || text[s + 2 * |name| + 2] != '"'
    requires forall j: nat :: j < s ==> !MatchesAt(text, stamp, j)
    ensures Search(text, stamp, 0) == Some(s + |name| + 2)
  {
    forall j: nat | s <= j < s + |name| + 2
      ensures !MatchesAt(text, stamp, j)
    {
      NoMatchInsideLink(text, stamp, name, s, j);
    }
    SearchFindsLeftmost(text, stamp, s + |name| + 2);
  }
}
