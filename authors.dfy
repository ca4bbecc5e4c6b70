/**
 * The author resolver: `identify_authors` builds the table of distinct (name, email, offset)
 * identities from the commit table, and `guess_city` attaches a location to each offset.
 */
module Authors {
  import opened Wrappers

  /** The identity columns of one commit-table row; offsets are in seconds. */
  datatype CommitRow = CommitRow(
    authorName: string, authorEmail: string, authorTz: int,
    committerName: string, committerEmail: string, committerTz: int)

  /** One row of the author or committer view after the rename to (name, email, timezone). */
  datatype Identity = Identity(name: string, email: string, timezone: int)

  /** A guessed location; `state` is `None` where `guess_city` leaves the cell unset. */
  datatype Location = Location(city: string, state: Option<string>, country: string)

  /** One row of the author table. */
  datatype AuthorRow = AuthorRow(
    name: string, email: string, timezone: int, timezoneHours: real, location: Location)

  /** The sentinel for an offset the table does not know. */
  const Unknown: Location := Location("Unknown", Some("Unknown"), "Unknown")

  /** The offsets, in hours, that `guess_city` tests. */
  predicate Mapped(tz: real)
  {
    tz == 10.0 || tz == 8.0 || tz == 7.0 || tz == 6.0 || tz == 5.0 || tz == 4.0 || tz == 3.0 ||
    tz == 0.0 || tz == -1.0 || tz == -2.0 || tz == -3.0 || tz == -4.0 || USOffset(tz) || tz == -13.0
  }

  /** The offsets that also set a US state. */
  predicate USOffset(tz: real)
  {
    tz == -5.0 || tz == -5.3 || tz == -6.0 || tz == -7.0 || tz == -8.0 || tz == -9.0
  }

  /**
   * `guess_city` without the diagnostic print: an if/elif chain on the offset in hours, ending in
   * the "Unknown" sentinel. The literal for Sao Paulo is the one in the source file, whose
   * characters are U+00C3 U+00A3 where a reader expects U+00E3.
   */
  function GuessCity(tz: real): (loc: Location)
    ensures Mapped(tz) <==> loc != Unknown
    ensures loc.state.Some? <==> USOffset(tz) || !Mapped(tz)
    ensures USOffset(tz) ==> loc.country == "United States"
  {
    if tz == 10.0 then Location("Melbourne", None, "Australia")
    else if tz == 8.0 then Location("Beijing", None, "China")
    else if tz == 7.0 then Location("Bangkok", None, "Thailand")
    else if tz == 6.0 then Location("Dhakar", None, "Senegal")
    else if tz == 5.0 then Location("New Delhi", None, "India")
    else if tz == 4.0 then Location("Abu Dhabi", None, "United Arab Emirates")
    else if tz == 3.0 then Location("Moscow", None, "Russia")
    else if tz == 0.0 then Location("London", None, "United Kingdom")
    else if tz == -1.0 then Location("Praia", None, "Cape Verde")
    else if tz == -2.0 then Location("Nuuk", None, "Greenland")
    else if tz == -3.0 then Location("S\U{00C3}\U{00A3}o Paulo", None, "Brazil")
    else if tz == -4.0 then Location("St. John's", None, "Canada")
    else if tz == -5.0 then Location("New York", Some("NY"), "United States")
    else if tz == -5.3 then Location("Indianapolis", Some("IN"), "United States")
    else if tz == -6.0 then Location("Chicago", Some("IL"), "United States")
    else if tz == -7.0 then Location("Phoenix", Some("AZ"), "United States")
    else if tz == -8.0 then Location("Redmond", Some("WA"), "United States")
    else if tz == -9.0 then Location("Anchorage", Some("AK"), "United States")
    else if tz == -13.0 then Location("Sydney", None, "Australia")
    else Unknown
  }

  /**
   * `guess_city` as written: in the last branch, `'Unknown time zone: ' + tz` adds a string to a
   * float and raises `TypeError` before the sentinel is assigned. `None` is that exception: it
   * happens exactly for the offsets off the table, and every other offset gets a known location.
   */
  function GuessCityAsWritten(tz: real): (r: Option<Location>)
    ensures r.None? <==> !Mapped(tz)
    ensures r.Some? ==> r.value != Unknown && r.value.city != "" && r.value.country != ""
  {
    if Mapped(tz) then Some(GuessCity(tz)) else None
  }

  /** The lookup table written out as (offset, location) entries, independently of the chain. */
  const LocationTable: seq<(real, Location)> := [
    (10.0, Location("Melbourne", None, "Australia")),
    (8.0, Location("Beijing", None, "China")),
    (7.0, Location("Bangkok", None, "Thailand")),
    (6.0, Location("Dhakar", None, "Senegal")),
    (5.0, Location("New Delhi", None, "India")),
    (4.0, Location("Abu Dhabi", None, "United Arab Emirates")),
    (3.0, Location("Moscow", None, "Russia")),
    (0.0, Location("London", None, "United Kingdom")),
    (-1.0, Location("Praia", None, "Cape Verde")),
    (-2.0, Location("Nuuk", None, "Greenland")),
    (-3.0, Location("S\U{00C3}\U{00A3}o Paulo", None, "Brazil")),
    (-4.0, Location("St. John's", None, "Canada")),
    (-5.0, Location("New York", Some("NY"), "United States")),
    (-5.3, Location("Indianapolis", Some("IN"), "United States")),
    (-6.0, Location("Chicago", Some("IL"), "United States")),
    (-7.0, Location("Phoenix", Some("AZ"), "United States")),
    (-8.0, Location("Redmond", Some("WA"), "United States")),
    (-9.0, Location("Anchorage", Some("AK"), "United States")),
    (-13.0, Location("Sydney", None, "Australia"))]

  /**
   * The chain is a function of the table: its keys are pairwise distinct, each key yields its
   * own entry, and every other offset yields the sentinel.
   */
  lemma GuessCityIsTableLookup(tz: real)
    ensures forall i, j :: 0 <= i < j < |LocationTable| ==> LocationTable[i].0 != LocationTable[j].0
    ensures forall i :: 0 <= i < |LocationTable| ==> GuessCity(LocationTable[i].0) == LocationTable[i].1
    ensures (forall i :: 0 <= i < |LocationTable| ==> LocationTable[i].0 != tz) ==> GuessCity(tz) == Unknown
  {
    if GuessCity(tz) != Unknown {
      var keys := seq(|LocationTable|, i requires 0 <= i < |LocationTable| => LocationTable[i].0);
      assert keys == [10.0, 8.0, 7.0, 6.0, 5.0, 4.0, 3.0, 0.0, -1.0, -2.0, -3.0, -4.0,
                      -5.0, -5.3, -6.0, -7.0, -8.0, -9.0, -13.0];
      assert tz in keys;
      var i :| 0 <= i < |keys| && keys[i] == tz;
      assert LocationTable[i].0 == tz;
    }
  }

  /** Two entries of the table, one per hemisphere, spelled out. */
  lemma GuessCityExamples()
    ensures GuessCity(10.0) == Location("Melbourne", None, "Australia")
    ensures GuessCity(0.0) == Location("London", None, "United Kingdom")
    ensures GuessCity(-5.0) == Location("New York", Some("NY"), "United States")
    ensures GuessCity(11.5) == Unknown
  {
  }

  /** Among whole-second offsets, exactly -19080 seconds (-5.3 hours) yields Indianapolis. */
  lemma IndianapolisOffset(seconds: int)
    ensures GuessCity(Hours(seconds)).city == "Indianapolis" <==> seconds == -19080
  {
    if seconds == -19080 {
      assert Hours(seconds) == -5.3;
    }
  }

  /** `df['timezone'] / (60 * 60)`: the offset in hours, which has the sign of the offset in seconds. */
  function Hours(seconds: int): (h: real)
    ensures h * 3600.0 == seconds as real
    ensures h < 0.0 <==> seconds < 0
  {
    seconds as real / 3600.0
  }

  /** Finding: as written, every offset outside the table stops the run instead of yielding the sentinel. */
  lemma UnmappedOffsetRaises(tz: real)
    ensures GuessCityAsWritten(tz).None? <==> !Mapped(tz)
    ensures GuessCityAsWritten(11.5).None?
    ensures Mapped(tz) ==> GuessCityAsWritten(tz) == Some(GuessCity(tz))
  {
  }

  /** The corrected lookup is total and gives the sentinel exactly off the table. */
  lemma GuessCityTotal(tz: real)
    ensures GuessCity(tz) == Unknown <==> !Mapped(tz)
    ensures GuessCity(tz).city != "" && GuessCity(tz).country != ""
  {
  }

  /** No two elements of `s` are equal. */
  predicate Distinct<T(==)>(s: seq<T>)
  {
    forall i, j :: 0 <= i < j < |s| ==> s[i] != s[j]
  }

  /**
   * `drop_duplicates`: the first occurrence of each row, in order. The result holds every row of
   * the input, nothing else, and no row twice.
   */
  function DropDuplicates(s: seq<Identity>): (r: seq<Identity>)
    ensures forall x :: x in r <==> x in s
    ensures Distinct(r)
    ensures |r| <= |s|
  {
    if |s| == 0 then []
    else
      var d := DropDuplicates(s[..|s| - 1]);
      if s[|s| - 1] in d then d else d + [s[|s| - 1]]
  }

  /** Dropping duplicates of a sequence without any is the identity. */
  lemma {:induction false} DropDuplicatesOfDistinct(s: seq<Identity>)
    requires Distinct(s)
    ensures DropDuplicates(s) == s
  {
    if |s| > 0 {
      var init := s[..|s| - 1];
      assert Distinct(init);
      DropDuplicatesOfDistinct(init);
      assert s[|s| - 1] !in init;
      assert s == init + [s[|s| - 1]];
    }
  }

  /** A row is kept exactly when no earlier row equals it. */
  lemma {:induction false} DropDuplicatesAppend(s: seq<Identity>, x: Identity)
    ensures DropDuplicates(s + [x]) == if x in s then DropDuplicates(s) else DropDuplicates(s) + [x]
  {
    assert (s + [x])[..|s|] == s;
  }

  /** The author view: author columns renamed to (name, email, timezone). */
  function AuthorView(df: seq<CommitRow>): seq<Identity>
  {
    seq(|df|, i requires 0 <= i < |df| => Identity(df[i].authorName, df[i].authorEmail, df[i].authorTz))
  }

  /** The committer view: committer columns renamed to (name, email, timezone). */
  function CommitterView(df: seq<CommitRow>): seq<Identity>
  {
    seq(|df|, i requires 0 <= i < |df| =>
      Identity(df[i].committerName, df[i].committerEmail, df[i].committerTz))
  }

  /** The identity columns of an author-table row. */
  function IdentityOf(r: AuthorRow): Identity
  {
    Identity(r.name, r.email, r.timezone)
  }

  /** The identity columns of a whole author table. */
  function Identities(rows: seq<AuthorRow>): seq<Identity>
  {
    seq(|rows|, i requires 0 <= i < |rows| => IdentityOf(rows[i]))
  }

  /** The author-table row of one identity: its offset in hours and the guessed location. */
  function ToAuthorRow(id: Identity): (r: AuthorRow)
    ensures IdentityOf(r) == id
    ensures r.timezoneHours * 3600.0 == id.timezone as real
    ensures r.location == GuessCity(r.timezoneHours)
    ensures r.location != Unknown <==> Mapped(r.timezoneHours)
  {
    var h := Hours(id.timezone);
    AuthorRow(id.name, id.email, id.timezone, h, GuessCity(h))
  }

  /** Both views of one commit row are in the concatenation, authors first. */
  lemma ViewsAt(df: seq<CommitRow>, k: nat)
    requires k < |df|
    ensures (AuthorView(df) + CommitterView(df))[k] == AuthorView(df)[k]
    ensures (AuthorView(df) + CommitterView(df))[|df| + k] == CommitterView(df)[k]
  {
  }

  /**
   * `identify_authors` between reading and writing the table: concatenate the two views, drop
   * duplicate rows, convert seconds to hours and guess a location per row.
   */
  method IdentifyAuthors(df: seq<CommitRow>) returns (unified: seq<AuthorRow>)
    ensures Identities(unified) == DropDuplicates(AuthorView(df) + CommitterView(df))
    ensures Distinct(Identities(unified))
    ensures forall k :: 0 <= k < |df| ==>
              AuthorView(df)[k] in Identities(unified) && CommitterView(df)[k] in Identities(unified)
    ensures forall x :: x in Identities(unified) ==> x in AuthorView(df) || x in CommitterView(df)
    ensures |unified| <= 2 * |df|
    ensures forall i :: 0 <= i < |unified| ==>
              unified[i].timezoneHours == unified[i].timezone as real / 3600.0 &&
              unified[i].location == GuessCity(unified[i].timezoneHours)
  {
    var authors := AuthorView(df);
    var committers := CommitterView(df);
    var concat := authors + committers;
    var ids := DropDuplicates(concat);
    unified := seq(|ids|, i requires 0 <= i < |ids| => ToAuthorRow(ids[i]));
    assert Identities(unified) == ids;
    forall k | 0 <= k < |df|
      ensures authors[k] in ids && committers[k] in ids
    {
      ViewsAt(df, k);
      assert concat[k] in concat && concat[|df| + k] in concat;
    }
  }

  /** The worked example, first half: the identity seen as author and committer survives once. */
  lemma NewYorkExampleDedup()
    ensures DropDuplicates(AuthorView([CommitRow("A", "a@x.com", -18000, "A", "a@x.com", -18000)]) +
                           CommitterView([CommitRow("A", "a@x.com", -18000, "A", "a@x.com", -18000)]))
         == [Identity("A", "a@x.com", -18000)]
  {
    var row := CommitRow("A", "a@x.com", -18000, "A", "a@x.com", -18000);
    var id := Identity("A", "a@x.com", -18000);
    assert AuthorView([row]) + CommitterView([row]) == [id] + [id];
    DropDuplicatesAppend([id], id);
    DropDuplicatesOfDistinct([id]);
  }

  /** The worked example, second half: -18000 seconds is -5.0 hours, New York. */
  lemma NewYorkExampleRow()
    ensures ToAuthorRow(Identity("A", "a@x.com", -18000))
         == AuthorRow("A", "a@x.com", -18000, -5.0, Location("New York", Some("NY"), "United States"))
  {
    var h := Hours(-18000);
    assert h == -5.0;
    assert GuessCity(h) == Location("New York", Some("NY"), "United States");
  }
}
