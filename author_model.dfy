/** The author schema: its validators and the `age` virtual field. */
module AuthorModel {
  import opened Common
  import opened Text
  import opened Dates
  import opened Email

  const MAX_NAME := 100
  const MAX_NATIONALITY := 50
  const MAX_BIOGRAPHY := 2000
  const MAX_AWARD_NAME := 200
  const MIN_AWARD_YEAR := 1900

  datatype Award = Award(name: string, year: Option<int>)

  datatype Author = Author(
    name: string,
    email: string,          // "" when absent
    nationality: string,    // "" when absent
    birthDate: Option<Date>,
    biography: string,      // "" when absent
    website: string,        // "" when absent
    awards: seq<Award>)

  // ---------------------------------------------------------------------------------------------
  // Validators

  predicate HasPrefix(s: string, p: string)
  {
    |p| <= |s| && s[..|p|] == p
  }

  /** Optional; otherwise `^https?:\/\/.+`: the scheme, then at least one character that is not
      a line terminator (the pattern is not anchored at the end). */
  predicate ValidWebsite(w: string)
  {
    || w == ""
    || (HasPrefix(w, "http://") && |w| > 7 && !IsLineTerminator(w[7]))
    || (HasPrefix(w, "https://") && |w| > 8 && !IsLineTerminator(w[8]))
  }

  /** An award year is optional; when present it lies between 1900 and the year in which the
      schema was defined (`startYear`). */
  predicate ValidAward(a: Award, startYear: int)
  {
    |a.name| <= MAX_AWARD_NAME
    && (a.year.None? || MIN_AWARD_YEAR <= a.year.value <= startYear)
  }

  /** Everything the schema checks when an author is saved, on day `today`. */
  predicate ValidAuthor(a: Author, today: Date, startYear: int)
  {
    && 1 <= |a.name| <= MAX_NAME
    && (a.email == "" || ValidEmail(a.email))
    && |a.nationality| <= MAX_NATIONALITY
    && (a.birthDate.None? || NotAfter(a.birthDate.value, today))
    && |a.biography| <= MAX_BIOGRAPHY
    && ValidWebsite(a.website)
    && (forall i :: 0 <= i < |a.awards| ==> ValidAward(a.awards[i], startYear))
  }

  /** A non-empty accepted website is "http://" or "https://" followed by at least one
      character, and every such text whose first character after the scheme is not a line
      terminator is accepted. */
  lemma WebsiteShape(w: string, rest: string)
    ensures ValidWebsite(w) && w != "" ==>
      (HasPrefix(w, "http://") && |w| > 7) || (HasPrefix(w, "https://") && |w| > 8)
    ensures rest != [] && !IsLineTerminator(rest[0]) ==>
      ValidWebsite("http://" + rest) && ValidWebsite("https://" + rest)
  {
    if rest != [] {
      assert ("http://" + rest)[..7] == "http://" && ("http://" + rest)[7] == rest[0];
      assert ("https://" + rest)[..8] == "https://" && ("https://" + rest)[8] == rest[0];
    }
  }

  lemma WebsitesAccepted()
    ensures ValidWebsite("http://a")
    ensures ValidWebsite("https://a")
    ensures ValidWebsite("")
  {
    assert "http://a"[..7] == "http://";
    assert "https://a"[..8] == "https://";
  }

  lemma WebsitesRejected()
    ensures !ValidWebsite("http://")
    ensures !ValidWebsite("ftp://a")
    ensures !ValidWebsite("http://\n")
  {
    assert "ftp://a"[..7][0] != "http://"[0];
    assert "http://\n"[..8][4] != "https://"[4];
  }

  // ---------------------------------------------------------------------------------------------
  // The `age` virtual field

  /** Completed years between `birth` and `today`: the year difference, less one when this
      year's birthday is still to come. The result is the unique `r` whose anniversary
      `birth.year + r` has been reached and whose next anniversary has not. */
  function Age(birth: Date, today: Date): (r: int)
    ensures NotAfter(Date(birth.year + r, birth.month, birth.day), today)
    ensures Before(today, Date(birth.year + r + 1, birth.month, birth.day))
  {
    var age := today.year - birth.year;
    var monthDiff := today.month - birth.month;
    if monthDiff < 0 || (monthDiff == 0 && today.day < birth.day) then age - 1 else age
  }

  /** No age without a birth date. */
  function AgeOf(a: Author, today: Date): (r: Option<int>)
    ensures r.Some? <==> a.birthDate.Some?
    ensures r.Some? ==> r.value == Age(a.birthDate.value, today)
  {
    if a.birthDate.None? then None else Some(Age(a.birthDate.value, today))
  }

  /** The anniversary characterisation determines the age. */
  lemma AgeUnique(birth: Date, today: Date, r: int)
    requires NotAfter(Date(birth.year + r, birth.month, birth.day), today)
    requires Before(today, Date(birth.year + r + 1, birth.month, birth.day))
    ensures r == Age(birth, today)
  {
  }

  /** An author whose birth date passed validation has a non-negative age. */
  lemma ValidAuthorAgeNonNegative(a: Author, today: Date, startYear: int)
    requires ValidAuthor(a, today, startYear) && a.birthDate.Some?
    ensures AgeOf(a, today).Some? && AgeOf(a, today).value >= 0
  {
  }

  /** On the birthday itself the age is the plain difference of the years. */
  lemma AgeOnBirthday(birth: Date, year: int)
    ensures Age(birth, Date(year, birth.month, birth.day)) == year - birth.year
  {
  }
}
