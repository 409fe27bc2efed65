/** `check_certification_validity`: whether the first certification of a
    scraped result has not expired yet. "Today" is a parameter: `datetime.now()`
    is compared with the parsed date at midnight, so the certification is valid
    exactly when today is an earlier day than its expiry day. */
module CertValidity {
  import opened Wrappers
  import opened Strings
  import opened ExpiryDate
  import opened CredlyScraper

  /** The dict the scraping tool hands to the agent, one field per key the
      agent can look at: "error" (set only when the tool itself fails),
      "Name", "Certifications" and "Error" (set by `scrape_credly` when the
      page could not be read). A missing key is `None`. */
  datatype CertData = CertData(
    error: Option<string>,
    name: Option<string>,
    certifications: Option<seq<Cert>>,
    scrapeFailure: Option<string>)

  /** The dict of a scraper run. */
  function FromScrape(r: ScrapeResult): CertData {
    CertData(None, Some(r.name), Some(r.certifications), r.error)
  }

  /** `{"error": message}`, what the tool returns when calling a scraper fails. */
  function ToolError(message: string): CertData {
    CertData(Some(message), None, None, None)
  }

  /** The empty dict `{}`. */
  const NoCertData: CertData := CertData(None, None, None, None)

  /** The verdict on one "Certification Expiry Date" text. A date found by the
      search decides alone; a date that does not parse (an unknown month
      word, day 0, February 30, year 0) is the caught exception, hence
      `false`. Only without a date does "no expiration" count. */
  function ExpiryValid(expiry: string, today: Date): bool {
    match SearchDate(expiry)
    case Some(m) =>
      (match ParseDate(m)
       case Some(d) => Before(today, d)
       case None => false)
    case None => Contains(Lower(expiry), "no expiration")
  }

  /** `check_certification_validity(cert_data)`. */
  function CheckValidity(data: CertData, today: Date): bool {
    match data.certifications
    case None => false
    case Some(certs) => |certs| > 0 && ExpiryValid(certs[0].expiry, today)
  }

  /** Without a "Certifications" entry, or with an empty one, nothing is valid. */
  lemma ValidityNeedsCertifications(data: CertData, today: Date)
    requires data.certifications.None? || data.certifications == Some([])
    ensures !CheckValidity(data, today)
  {
  }

  /** Only the first certification is examined: two results whose first
      certifications carry the same expiry text get the same verdict,
      whatever else they hold. */
  lemma ValidityReadsFirstOnly(a: CertData, b: CertData, today: Date)
    requires a.certifications.Some? && |a.certifications.value| > 0
    requires b.certifications.Some? && |b.certifications.value| > 0
    requires a.certifications.value[0].expiry == b.certifications.value[0].expiry
    ensures CheckValidity(a, today) == CheckValidity(b, today)
  {
  }

  /** A date in the expiry text decides alone: after a digit-free prefix
      (which may itself say "No expiration"), a date written as the badge
      page writes it makes the certification valid exactly on the days
      before it, and invalid from that day on. */
  lemma DatedExpiryValidity(p: string, d: Date, q: string, today: Date)
    requires ValidDate(d)
    requires forall k :: 0 <= k < |p| ==> !IsDigit(p[k])
    requires p == [] || !IsWordChar(p[|p| - 1])
    ensures ExpiryValid(p + FormatDate(d) + q, today) <==> Before(today, d)
  {
    SearchFormatted(p, d, q);
  }

  /** A certification valid on some day was valid on every earlier day. */
  lemma ValidityMonotone(expiry: string, earlier: Date, later: Date)
    requires Before(earlier, later) && ExpiryValid(expiry, later)
    ensures ExpiryValid(expiry, earlier)
  {
    match SearchDate(expiry)
    case Some(m) =>
      var d := ParseDate(m).value;
      BeforeStrictTotal(earlier, later, d);
    case None =>
  }

  /** Without any digit there is no date, and the verdict is whether the text
      says "no expiration" in any case, on every day alike. */
  lemma UndatedExpiry(expiry: string, today: Date)
    requires forall k :: 0 <= k < |expiry| ==> !IsDigit(expiry[k])
    ensures ExpiryValid(expiry, today) == Contains(Lower(expiry), "no expiration")
  {
    NoDigitsNoMatch(expiry, 0);
  }

  /** "No Expiration Date" is valid on every day. */
  lemma NoExpirationExample(today: Date)
    ensures ExpiryValid("No Expiration Date", today)
  {
    NoExpirationText();
    UndatedExpiry("No Expiration Date", today);
  }

  lemma NoExpirationText()
    ensures forall k :: 0 <= k < |"No Expiration Date"| ==> !IsDigit("No Expiration Date"[k])
    ensures Contains(Lower("No Expiration Date"), "no expiration")
  {
    var lowered := Lower("No Expiration Date");
    forall k | 0 <= k < 13 ensures lowered[k] == "no expiration"[k] { }
    assert lowered[..13] == "no expiration";
    assert OccursAt(lowered, 0, "no expiration");
  }

  /** "garbage text", with neither a date nor "no expiration", is not valid
      on any day. */
  lemma GarbageExample(today: Date)
    ensures !ExpiryValid("garbage text", today)
  {
    GarbageText();
    UndatedExpiry("garbage text", today);
  }

  lemma GarbageText()
    ensures forall k :: 0 <= k < |"garbage text"| ==> !IsDigit("garbage text"[k])
    ensures !Contains(Lower("garbage text"), "no expiration")
  {
    LowerAvoids("garbage text", 'n');
    NotContainsChar(Lower("garbage text"), "no expiration", 0);
  }

  /** "Expires: September 26, 2027" is valid on 1 January 2024 and invalid
      from 26 September 2027 on. */
  lemma SeptemberExample(today: Date)
    ensures ExpiryValid("Expires: September 26, 2027", Date(2024, 1, 1))
    ensures !Before(today, Date(2027, 9, 26)) ==> !ExpiryValid("Expires: September 26, 2027", today)
  {
    ExpiresPrefix();
    FormatDateExamples();
    var d := Date(2027, 9, 26);
    assert "Expires: " + FormatDate(d) + "" == "Expires: September 26, 2027";
    DatedExpiryValidity("Expires: ", d, "", Date(2024, 1, 1));
    DatedExpiryValidity("Expires: ", d, "", today);
  }

  /** "Expires: January 15, 2023" is invalid on 1 January 2024. */
  lemma JanuaryExample()
    ensures !ExpiryValid("Expires: January 15, 2023", Date(2024, 1, 1))
  {
    ExpiresPrefix();
    FormatDateExamples();
    var d := Date(2023, 1, 15);
    assert "Expires: " + FormatDate(d) + "" == "Expires: January 15, 2023";
    DatedExpiryValidity("Expires: ", d, "", Date(2024, 1, 1));
  }

  lemma ExpiresPrefix()
    ensures forall k :: 0 <= k < |"Expires: "| ==> !IsDigit("Expires: "[k])
    ensures !IsWordChar("Expires: "[|"Expires: "| - 1])
  {
  }

  /** A date that the search finds but `strptime` cannot read (an unknown
      month word, a day the month does not have, year 0) raises, the
      exception is caught, and the certification counts as expired on every
      day, whatever follows the date. */
  lemma UnparsedDateExpired(p: string, word: string, day: string, year: string, q: string, today: Date)
    requires forall k :: 0 <= k < |p| ==> !IsDigit(p[k])
    requires p == [] || !IsWordChar(p[|p| - 1])
    requires word != [] && forall k :: 0 <= k < |word| ==> IsWordChar(word[k])
    requires !IsDigit(word[0])
    requires day != [] && AllDigits(day)
    requires |year| == 4 && AllDigits(year)
    requires ParseDate(DateMatch(word, day, year)) == None
    ensures !ExpiryValid(p + DateText(word, day, year) + q, today)
  {
    SearchAfterPrefix(p, word, day, year, q);
  }

  /** "Expires: Septembre 26, 2027": "Septembre" is not a month name, so
      `strptime` raises and the certification counts as expired. */
  lemma UnknownMonthExample(today: Date)
    ensures !ExpiryValid("Expires: Septembre 26, 2027", today)
  {
    ExpiresPrefix();
    SeptembreWord();
    SeptembreText();
    UnparsedDateExpired("Expires: ", "Septembre", "26", "2027", "", today);
  }

  lemma SeptembreText()
    ensures "Expires: " + DateText("Septembre", "26", "2027") + "" == "Expires: Septembre 26, 2027"
  {
  }

  lemma SeptembreWord()
    ensures forall k :: 0 <= k < |"Septembre"| ==> IsWordChar("Septembre"[k])
    ensures MonthNumber(Lower("Septembre")) == None
  {
    assert Lower("Septembre") == "septembre";
    assert "septembre"[7] != "september"[7];
    assert "septembre" !in MonthNames;
  }
}
