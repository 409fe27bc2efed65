# Credly certification credit agent — a Dafny model

The system is a chat agent that awards training credit points for cloud
certifications. A user pastes a Credly badge URL, or asks what a
certification would be worth. For a URL the agent scrapes the badge page,
checks whether the first certification on it has expired, and looks up the
points of the tier of the page's "Name" field. That field is filled by the
profile-name selectors (`webscrap_cred_v2.py:49-61`, `177-193`), not from a
certification's "Certification Name". For a question it asks a language model for the
certification's name and reports that name's tier.

This project models the decision logic of that agent and the text-level
extraction of its two scrapers:

- `strings.dfy` (module `Strings`): the Python string operations the code
  relies on: `lower`, `strip`, `split(sep)`, `split()`, `in`, slicing, and
  maximal character runs.
- `wrappers.dfy` (module `Wrappers`): `Option`.
- `credly_scraper.dfy` (module `CredlyScraper`): `scrape_credly` and
  `scrape_credly_alternative`. Each of their loops is a method proved equal
  to a specification function:
  - the name selectors;
  - the container and badge selectors;
  - the tag loop that picks a card's name;
  - the text-part loop that picks its dates;
  - the card loop;
  - the loop over the first five badges.

  Lemmas state what those functions promise. A page is given as what the
  HTML or XPath queries return.
- `cert_points.dfy` (module `CertPoints`): `get_certification_points`, the
  keyword classifier. Points are counted in halves (20, 10 and 5 for 10, 5
  and 2.5 points), so the lowest tier is exact.
- `expiry_date.dfy` (module `ExpiryDate`): the calendar; the search of
  `re.search(r'(\w+\s+\d+,\s+\d{4})', ...)`; the part of `strptime(...,
  "%B %d, %Y")` that the validity test needs; and the way the badge page writes a
  date, with the round trip from written date back to date.
- `cert_validity.dfy` (module `CertValidity`): `check_certification_validity`.
  Today's date is a parameter. `datetime.now() < expiry` at midnight holds
  exactly when today is an earlier day than the expiry day.
- `cert_agent.dfy` (module `CertAgent`): `agent_node`. This covers:
  - the badge-URL pattern of `re.findall(...)[0]`;
  - the tool-error path;
  - the validity verdict, the name and the credit;
  - the three reply texts;
  - the hypothetical-question path.

  The scraping tool and the language model are function parameters. The
  database is a success-or-failure parameter.

Points where the code does something other than a first reading suggests;
the model follows the code:

- The validity test searches the expiry text for a date first. "No
  expiration" is consulted only when the text holds no date.
- The comment at `webscrap_cred_v2.py:219` speaks of 20 badges, but the code
  slices the first 5.
- `scrape_credly` reports a failure under the key "Error", while
  `agent_node` tests for "error". The tool calls `scrape_credly_alternative`
  (`langgraph_cred_agent.py:53`), which never sets "Error"; `scrape_credly`
  runs when loading or calling `scrape_credly_alternative` raises an
  `AttributeError` (`langgraph_cred_agent.py:55-59`); that function has a
  `try`/`finally` without `except` around its page load, so such an error can
  come from inside it.
  A failed `scrape_credly` result that reached the agent would not be
  reported as an error: it would read as an expired certification named
  "N/A" (`CertAgent.ScrapeFailureReadsAsExpired`).

## Model

| member | source | states |
|---|---|---|
| `CredlyScraper.FirstNonBlankNone` | webscrap_cred_v2.py:49-61 | when no name selector yields non-blank text, the name stays "N/A" |
| `CredlyScraper.FirstNonBlank` | webscrap_cred_v2.py:49-61 | definition: the stripped text of the first selector whose text is non-blank, else "N/A"; its properties are stated by `FirstNonBlankNone` and `FirstNonBlankFirst` |
| `CredlyScraper.FirstNonBlankFirst` | webscrap_cred_v2.py:177-193 | the name is the stripped text of the first selector, in list order, whose text is non-blank; later selectors are ignored |
| `CredlyScraper.FindName` | webscrap_cred_v2.py:56-61 | the name loop with its `break` computes the first-non-blank choice |
| `CredlyScraper.FirstNonEmptyNone` | webscrap_cred_v2.py:77-84 | when no selector finds anything, there are no containers |
| `CredlyScraper.FirstNonEmpty` | webscrap_cred_v2.py:77-82 | definition: the result of the first selector that finds something, else nothing; stated by `FirstNonEmptyNone` and `FirstNonEmptyFirst` |
| `CredlyScraper.FirstNonEmptyFirst` | webscrap_cred_v2.py:208-217 | the first selector or XPath with a non-empty result wins, and later ones are ignored |
| `CredlyScraper.FindFirstNonEmpty` | webscrap_cred_v2.py:77-82 | the selector loop with its `break` computes the first non-empty result |
| `CredlyScraper.FilterMap` | webscrap_cred_v2.py:89-134 | definition: what a loop that appends the record of some of its elements collects, in element order (the card loop here, the badge loop at `webscrap_cred_v2.py:219-243`); stated by `FilterMapLength`, `FilterMapAt`, `KeptIndicesIncrease` and `KeptIndicesComplete` |
| `CredlyScraper.FilterMapLength` | webscrap_cred_v2.py:89-134 | a loop that appends only some of its elements keeps one per kept index, never more than it reads |
| `CredlyScraper.FilterMapAt` | webscrap_cred_v2.py:89-134 | the k-th appended record is the record of the element at the k-th kept index |
| `CredlyScraper.KeptIndicesIncrease` | webscrap_cred_v2.py:89-134 | the kept indices strictly increase, so the records keep the page order |
| `CredlyScraper.KeptIndicesComplete` | webscrap_cred_v2.py:89-134 | every element that yields a record is kept |
| `CredlyScraper.FirstAccepted` | webscrap_cred_v2.py:95-101 | the index returned is the first accepted text: no earlier text is accepted and the one at the index is |
| `CredlyScraper.IsCardName` | webscrap_cred_v2.py:96-99 | definition: the stripped tag text is non-empty, 6 to 149 characters long and, lower-cased, none of "view badge", "share", "download" and "verify"; stated by `CardNameSpec` and `CardRecordSpec` |
| `CredlyScraper.CardNameSpec` | webscrap_cred_v2.py:92-101 | the card name is "N/A" exactly when no tag text passes the filter; otherwise it is 6 to 149 characters long and is no button label in any case |
| `CredlyScraper.CardName` | webscrap_cred_v2.py:93-101 | definition: the first tag text that is 6 to 149 characters long and no button label, else "N/A"; stated by `CardNameSpec` |
| `CredlyScraper.FindCardName` | webscrap_cred_v2.py:93-101 | the tag loop with its `break` computes the card name |
| `CredlyScraper.LastWhere` | webscrap_cred_v2.py:111-116 | definition: the loop that overwrites a date with every matching part: the last part that matches, else the default; stated by `LastWhereNone`, `LastWhereLast`, `LastWhereIsMember` and `ScanParts` |
| `CredlyScraper.LastWhereNone` | webscrap_cred_v2.py:104-116 | without a matching part the date stays "N/A" |
| `CredlyScraper.TextParts` | webscrap_cred_v2.py:108-109 | the text split at "\|" with each part stripped: one part per piece, in order |
| `CredlyScraper.TimeValue` | webscrap_cred_v2.py:121-123 | definition: a `<time>` element's `datetime` attribute, or else its stripped text |
| `CredlyScraper.IsIssuePart` | webscrap_cred_v2.py:113 | definition: the lower-cased part contains "issued" or "earned"; stated by `IssueWinsOverExpiry` and `ScanParts` |
| `CredlyScraper.IsExpiryPart` | webscrap_cred_v2.py:115 | definition: the part is no issue part (the `elif`) and, lower-cased, contains "expires" or "expiration"; stated by `IssueWinsOverExpiry` and `ScanParts` |
| `CredlyScraper.CardIssued` | webscrap_cred_v2.py:104-121 | definition: the first `<time>` value, or else the last issue part, or else "N/A"; stated by `IssueWinsOverExpiry` and `FindCardDates` |
| `CredlyScraper.CardExpiry` | webscrap_cred_v2.py:105-123 | definition: the second `<time>` value, or else the last expiry part that is no issue part, or else "N/A"; stated by `IssueWinsOverExpiry` and `FindCardDates` |
| `CredlyScraper.LastWhereLast` | webscrap_cred_v2.py:111-116 | the date is the last matching part, since later assignments overwrite earlier ones |
| `CredlyScraper.LastWhereIsMember` | webscrap_cred_v2.py:111-116 | a date other than the default is a part that matches |
| `CredlyScraper.IssueWinsOverExpiry` | webscrap_cred_v2.py:113-116 | on a card with fewer than two `<time>` elements, a part with both an issue and an expiry keyword never becomes the expiry date (the `elif`) |
| `CredlyScraper.ScanParts` | webscrap_cred_v2.py:108-116 | the text-part loop yields the last issue part and the last expiry part, each "N/A" when there is none |
| `CredlyScraper.FindCardDates` | webscrap_cred_v2.py:103-123 | the first and second `<time>` elements override the text-part dates, using `datetime` or else the stripped text |
| `CredlyScraper.CardRecordSpec` | webscrap_cred_v2.py:125-130 | a card gives a record exactly when one of its tags passes the name filter, and the record carries that name and the card's dates |
| `CredlyScraper.CardRecord` | webscrap_cred_v2.py:125-130 | definition: the record of a card whose name is not "N/A"; stated by `CardRecordSpec` |
| `CredlyScraper.ExtractCards` | webscrap_cred_v2.py:89-134 | the card loop appends, in order, the record of every card whose name is not "N/A" |
| `CredlyScraper.ScrapeCredly` | webscrap_cred_v2.py:49-145 | a timeout gives "N/A", no certifications and error "Timeout"; another failure gives its message; a loaded page gives the first-non-blank name and the records of the first non-empty container list |
| `CredlyScraper.BadgeRecordSpec` | webscrap_cred_v2.py:219-243 | a badge is skipped exactly when its text has fewer than six line breaks; otherwise the record holds the stripped line 6 as name, lines 2 and 3 as issue and expiry dates (no line break inside), and the words of line 1 from the sixth on |
| `CredlyScraper.BadgeRecord` | webscrap_cred_v2.py:221-241 | definition: the record built from lines 1, 2, 3 and 6 of a badge text, none when line 6 is missing; stated by `BadgeRecordSpec` |
| `CredlyScraper.BadgeCerts` | webscrap_cred_v2.py:219-243 | definition: the records of the first five badges, skipping the short ones; stated by `BadgeCertsSpec` and `BadgeCertsAllWellFormed` |
| `CredlyScraper.BadgeCertsSpec` | webscrap_cred_v2.py:219-243 | at most five records, each the record of one of the first five badges, and every well-formed badge among those five is present |
| `CredlyScraper.BadgeCertsInOrder` | webscrap_cred_v2.py:219-243 | the records follow badge order: the k-th record is the record of the badge at the k-th kept index, which is among the first five, and kept indices strictly increase |
| `CredlyScraper.BadgeCertsAllWellFormed` | webscrap_cred_v2.py:219-241 | when the first five badges are all well-formed, the result is exactly their records, one for one, in order |
| `CredlyScraper.AllKept` | webscrap_cred_v2.py:219-241 | when every element yields a record, all are kept, one for one |
| `CredlyScraper.ExtractBadges` | webscrap_cred_v2.py:219-243 | the loop over `badge_elements[:5]` computes the badge records |
| `CredlyScraper.ScrapeCredlyAlternative` | webscrap_cred_v2.py:176-249 | the result is the first-non-blank name and the records of the first non-empty XPath result |
| `Strings.Lower` | langgraph_cred_agent.py:87 | `lower()` on A-Z keeps the length; it works character by character, stated by `LowerIdempotent` and `LowerAppend` |
| `Strings.Contains` | langgraph_cred_agent.py:90-92 | definition: Python's `w in s`, `w` occurs at some index of `s`; stated by `ClassifyPriority`, `ClassifyMonotone` and `UndatedExpiry` |
| `Strings.LowerIdempotent` | langgraph_cred_agent.py:87 | lower-casing twice is lower-casing once |
| `Strings.LowerAppend` | langgraph_cred_agent.py:87 | lower-casing distributes over concatenation |
| `Strings.Strip` | webscrap_cred_v2.py:96 | definition: `strip()`, the front strip after the back strip; stated by `StripStartSpec`, `StripEndSpec` and `StripSpec` |
| `Strings.StripStartSpec` | webscrap_cred_v2.py:96 | stripping the front removes exactly a prefix of whitespace, and what remains does not start with whitespace |
| `Strings.StripEndSpec` | webscrap_cred_v2.py:96 | stripping the back removes exactly a suffix of whitespace, and what remains does not end with whitespace |
| `Strings.StripSpec` | webscrap_cred_v2.py:58-59 | a stripped text is empty exactly when the text is all whitespace, and otherwise starts and ends with a non-space |
| `Strings.Take` | webscrap_cred_v2.py:219 | `xs[:n]`: the first `n` elements, or all of them when there are fewer, in order |
| `Strings.Drop` | webscrap_cred_v2.py:238 | `xs[n:]`: the elements from index `n` on, or none when there are at most `n` |
| `Strings.SplitWords` | webscrap_cred_v2.py:238 | `split()` yields non-empty words with no whitespace in them |
| `Strings.SplitWordsConcat` | webscrap_cred_v2.py:238 | the words of `split()`, concatenated, are the text's non-space characters in order |
| `Strings.SplitWordsSpaced` | webscrap_cred_v2.py:238 | round trip: words without whitespace, separated by non-empty whitespace runs, with any whitespace before and after, are given back one for one by `split()` |
| `Strings.Split` | webscrap_cred_v2.py:109 | `split(sep)` yields at least one piece and no piece contains the separator |
| `Strings.JoinSplit` | webscrap_cred_v2.py:109 | joining the pieces of `split(sep)` with `sep` gives the text back |
| `Strings.SplitCount` | webscrap_cred_v2.py:221-231 | `split(sep)` yields one more piece than there are separators in the text |
| `ExpiryDate.DaysInMonth` | langgraph_cred_agent.py:122 | months have 28 to 31 days, and 29 only for February of a leap year |
| `ExpiryDate.Before` | langgraph_cred_agent.py:124 | definition: `current_date < expiry_date` at the granularity of days, the expiry being at midnight: year, then month, then day; stated by `BeforeStrictTotal`, `DatedExpiryValidity` and `ValidityMonotone` |
| `ExpiryDate.BeforeStrictTotal` | langgraph_cred_agent.py:123-124 | the comparison of days is a strict total order |
| `ExpiryDate.MatchAtShape` | langgraph_cred_agent.py:119 | every match has a non-empty word, non-empty day digits and four year digits |
| `ExpiryDate.MatchAt` | langgraph_cred_agent.py:119 | definition: the match that starts at one index, every run maximal; stated by `MatchAtShape` and `SearchAfterPrefix` |
| `ExpiryDate.SearchDate` | langgraph_cred_agent.py:119-120 | definition: the leftmost match; stated by `NoDigitsNoMatch`, `SearchAfterPrefix`, `SearchFormatted` and, conversely, `SearchDateShape` |
| `ExpiryDate.NoDigitsNoMatch` | langgraph_cred_agent.py:119-120 | a text without a digit has no date match |
| `ExpiryDate.SearchAfterPrefix` | langgraph_cred_agent.py:118-121 | after a digit-free prefix that does not end in a word character, the search returns the word, day and year written next |
| `ExpiryDate.SearchDateShape` | langgraph_cred_agent.py:119-120 | converse: whatever the search returns matches at some index `j` where no earlier index matches, and from `j` the text holds a non-empty run of word characters, a non-empty whitespace run, day digits, a comma, a non-empty whitespace run and four year digits, the three parts being the returned word, day and year |
| `ExpiryDate.SearchFromFound` | langgraph_cred_agent.py:119 | the search started at `i`, past indices without a match, returns the match at the first index from `i` on where one starts |
| `ExpiryDate.MatchAtText` | langgraph_cred_agent.py:119 | a match at `j` lies in the text as word, whitespace, day, comma, whitespace and year, each run of the pattern non-empty |
| `ExpiryDate.MonthNumber` | langgraph_cred_agent.py:122 | `%B` accepts a word exactly when, lower-cased, it is one of the twelve month names, and gives that month's number |
| `ExpiryDate.MonthNumberOfName` | langgraph_cred_agent.py:122 | each month name gives back its own number |
| `ExpiryDate.ParseDate` | langgraph_cred_agent.py:122 | whatever `strptime` accepts is a valid calendar date in years 1 to 9999 |
| `ExpiryDate.NatTextValue` | langgraph_cred_agent.py:122 | reading back the decimal text of a day gives the day |
| `ExpiryDate.YearTextValue` | langgraph_cred_agent.py:122 | reading back the four-digit text of a year gives the year |
| `ExpiryDate.MonthTitle` | langgraph_cred_agent.py:122 | a month's written name is a word that lower-cases to that month's `%B` name |
| `ExpiryDate.ParseFormatted` | langgraph_cred_agent.py:122 | parsing a written date gives the date back |
| `ExpiryDate.SearchFormatted` | langgraph_cred_agent.py:118-124 | round trip: after a digit-free prefix such as "Expires: ", search and parse give the written date back |
| `ExpiryDate.FormatDateExamples` | langgraph_cred_agent.py:118 | the badge page writes 26 September 2027 as "September 26, 2027" and 15 January 2023 as "January 15, 2023" |
| `CertPoints.HalfPoints` | langgraph_cred_agent.py:90-95 | every tier is worth 10, 5 or 2.5 points |
| `CertPoints.Category` | langgraph_cred_agent.py:91-95 | definition: the "category" string of each tier, as the three returns write it; stated by `TiersDistinct` and `PointsTotal` |
| `CertPoints.Classify` | langgraph_cred_agent.py:87-95 | definition: the if/elif chain over the lower-cased name; stated by `ClassifyPriority`, `ClassifyIgnoresCase` and `ClassifyMonotone` |
| `CertPoints.GetCertificationPoints` | langgraph_cred_agent.py:77-98 | definition: the category and points of the tier, or the database error; stated by `PointsTotal` |
| `CertPoints.ClassifyIgnoresCase` | langgraph_cred_agent.py:87 | a name and its lower-cased form fall in the same tier |
| `CertPoints.ClassifyPriority` | langgraph_cred_agent.py:87-95 | the top tier holds exactly the names with a professional or specialty keyword; the middle tier exactly the others with an associate or HashiCorp keyword; the rest are the lowest tier |
| `CertPoints.ClassifyMonotone` | langgraph_cred_agent.py:90-95 | adding text before or after a name never lowers its points |
| `CertPoints.PointsTotal` | langgraph_cred_agent.py:77-98 | with a working database the tool answers one of the three category and points pairs; a database failure gives only "Database error: " and the reason |
| `CertPoints.TiersDistinct` | langgraph_cred_agent.py:90-95 | different tiers report different categories and different points |
| `CertPoints.ClassifyProfessionalExample` | langgraph_cred_agent.py:90-91 | "AWS Solutions Architect Professional" is in the top tier |
| `CertPoints.ClassifyHashicorpExample` | langgraph_cred_agent.py:92-93 | "HashiCorp Terraform Associate" is in the middle tier |
| `CertPoints.ClassifyOtherExample` | langgraph_cred_agent.py:94-95 | "Random Badge" is in the lowest tier |
| `CertValidity.FromScrape` | webscrap_cred_v2.py:137-145 | definition: a scraper's dict as the agent reads it: "Name", "Certifications" and the failure reason under "Error", never an "error" key; stated by `AgentCredit` and `ScrapeFailureReadsAsExpired` |
| `CertValidity.ValidityNeedsCertifications` | langgraph_cred_agent.py:112-113 | without a "Certifications" entry, or with an empty one, nothing is valid |
| `CertValidity.ExpiryValid` | langgraph_cred_agent.py:116-133 | definition: the verdict on one expiry text; stated by `DatedExpiryValidity`, `UndatedExpiry` and `ValidityMonotone` |
| `CertValidity.CheckValidity` | langgraph_cred_agent.py:111-133 | definition: false without certifications, else the verdict on the first one's expiry text; stated by `ValidityNeedsCertifications` and `ValidityReadsFirstOnly` |
| `CertValidity.ValidityReadsFirstOnly` | langgraph_cred_agent.py:115-116 | two results whose first certifications have the same expiry text get the same verdict |
| `CertValidity.DatedExpiryValidity` | langgraph_cred_agent.py:118-124 | a written expiry date after a digit-free prefix makes the certification valid exactly on the days before it |
| `CertValidity.ValidityMonotone` | langgraph_cred_agent.py:119-124 | a certification valid on some day was valid on every earlier day |
| `CertValidity.UndatedExpiry` | langgraph_cred_agent.py:126-130 | without a digit, the verdict is whether the text says "no expiration" in any case |
| `CertValidity.NoExpirationExample` | langgraph_cred_agent.py:126-128 | "No Expiration Date" is valid on every day |
| `CertValidity.GarbageExample` | langgraph_cred_agent.py:126-130 | the text "garbage text", which holds neither a date nor "no expiration", is not valid on any day (the general statement is `UndatedExpiry`) |
| `CertValidity.SeptemberExample` | langgraph_cred_agent.py:118-124 | "Expires: September 26, 2027" is valid on 1 January 2024 and invalid from 26 September 2027 on |
| `CertValidity.JanuaryExample` | langgraph_cred_agent.py:118-124 | "Expires: January 15, 2023" is invalid on 1 January 2024 |
| `CertValidity.UnparsedDateExpired` | langgraph_cred_agent.py:119-133 | a date the search finds after a digit-free prefix but `strptime` cannot read (unknown month word, impossible day, year 0) raises; the exception is caught and the certification is not valid on any day, whatever follows the date |
| `CertValidity.UnknownMonthExample` | langgraph_cred_agent.py:131-133 | the text "Expires: Septembre 26, 2027" is not valid on any day: "Septembre" is no month name, so `strptime` raises |
| `CertAgent.NoSchemeNoUrl` | langgraph_cred_agent.py:163-166 | a message without "http" holds no badge URL |
| `CertAgent.UrlAt` | langgraph_cred_agent.py:163 | definition: the badge URL that starts at one index, its id the longest run of id characters; stated by `UrlAtShape` |
| `CertAgent.FirstBadgeUrl` | langgraph_cred_agent.py:163-168 | definition: the leftmost badge URL; stated by `NoSchemeNoUrl`, `UrlAfterPrefix` and `FoundUrlShape` |
| `CertAgent.UrlFrom` | langgraph_cred_agent.py:163-164 | definition: the `findall` scan from an index on, the first URL that starts there or later; stated by `UrlFromFound`, `UrlAfterPrefix` and `FoundUrlShape` |
| `CertAgent.UrlAfterPrefix` | langgraph_cred_agent.py:163-168 | after text without "http", a badge URL, with or without `s` and `www.`, is found in full, up to the first character that cannot be part of a badge id |
| `CertAgent.ExampleQueryUrl` | langgraph_cred_agent.py:285 | in the program's first example query the URL is found and stops before the question mark |
| `CertAgent.SecondQueryUrl` | langgraph_cred_agent.py:286 | in the second example query, whose "What" holds an h but no "http", the URL is found and stops before the space |
| `CertAgent.FoundUrlShape` | langgraph_cred_agent.py:163-168 | conversely, whatever is found is a scheme, a host and a non-empty run of id characters, written in the text at a position before which no URL starts, and not followed by an id character |
| `CertAgent.UrlAtShape` | langgraph_cred_agent.py:163 | a URL found at an index is a badge URL written there in full, not followed by an id character |
| `CertAgent.AgentKeepsHistory` | langgraph_cred_agent.py:142-226 | without messages the state is returned unchanged; otherwise the history is kept and exactly one message of the agent is added |
| `CertAgent.AgentNode` | langgraph_cred_agent.py:137-226 | definition: no messages, the state unchanged; a badge URL, the tool's data handed to `BadgeTurn`; else the model's stripped answer handed to `QueryTurn`; stated by the `Agent...` lemmas |
| `CertAgent.BadgeTurn` | langgraph_cred_agent.py:169-199 | definition: the error reply, or the verdict, name, credit and reply for the scraped data; stated by `BadgeTurnCredit` and `AgentApologisesIffExpired` |
| `CertAgent.QueryTurn` | langgraph_cred_agent.py:212-226 | definition: the points of the extracted name, reported valid; stated by `AgentNoUrl` |
| `CertAgent.AgentBadgeTurn` | langgraph_cred_agent.py:166-169 | with a badge URL in the last message, the turn goes on with what the tool returns for that URL |
| `CertAgent.AgentToolError` | langgraph_cred_agent.py:169-174 | an "error" from the tool ends the turn with "I encountered an error: " and the message |
| `CertAgent.AgentScraperRaises` | langgraph_cred_agent.py:60-63 | when calling the scraper raises, the tool's `{"error": message}` ends the turn with "I encountered an error: " and the message |
| `CertAgent.AgentCredit` | langgraph_cred_agent.py:176-199 | for a badge URL: the scraped data is kept; the verdict is the validity check; the name is "Name" or "Unknown"; the credit is that name's tier points when valid (0 when the database fails) and 0 when expired |
| `CertAgent.BadgeTurnCredit` | langgraph_cred_agent.py:176-199 | the same facts, for the scraped data itself |
| `CertAgent.PointsOfName` | langgraph_cred_agent.py:183-184 | `points_data.get("points", 0)`: the tier points of the name, or 0 when the database fails |
| `CertAgent.PointsOf` | langgraph_cred_agent.py:184 | definition: `points_data.get("points", 0)` in half-points: the tier's points, or 0 for the database error reply, which has no "points"; stated by `PointsOfName` and `AgentCreditValues` |
| `CertAgent.AgentCreditValues` | langgraph_cred_agent.py:184-223 | the credit is always 0, 2.5, 5 or 10 points |
| `CertAgent.AgentApologisesIffExpired` | langgraph_cred_agent.py:187-191 | for a badge URL the reply starts with "Sorry" exactly when the certification has expired |
| `CertAgent.ReplyOpenings` | langgraph_cred_agent.py:188-218 | only the expired reply starts with "Sorry"; the valid and hypothetical replies do not |
| `CertAgent.ExpiredReply` | langgraph_cred_agent.py:188-189 | definition: the expired reply; stated by `ReplyOpenings` |
| `CertAgent.ValidReply` | langgraph_cred_agent.py:190-191 | definition: the valid reply; stated by `ReplyOpenings` |
| `CertAgent.HypotheticalReply` | langgraph_cred_agent.py:218 | definition: the reply to a hypothetical question; stated by `ReplyOpenings` and `AgentNoUrl` |
| `CertAgent.ErrorText` | langgraph_cred_agent.py:173 | definition: "I encountered an error: " and the message; stated by `AgentToolError` |
| `CertAgent.AgentNoUrl` | langgraph_cred_agent.py:200-226 | without a badge URL, the stripped answer of the language model is classified; the result is reported valid with `{}` as data, and the reply prints the points |
| `CertAgent.ScrapeFailureReadsAsExpired` | langgraph_cred_agent.py:169-199 | a failed `scrape_credly` result (key "Error") reads as an expired certification named "N/A", with no credit |
| `CertAgent.PointsTextExamples` | langgraph_cred_agent.py:189-218 | points print as "10", "5", "2.5" and the default "0" |
| `CertAgent.PointsText` | langgraph_cred_agent.py:189-218 | definition: the half-points printed as Python prints 10, 5, 2.5 and 0; stated by `PointsTextExamples` |

## Left out

- The browser is not modelled. This covers Selenium, the Chrome driver and its options, page loading, scrolling, the sleeps and `driver.quit()`. A page is given as what its queries return.
- BeautifulSoup and XPath matching are not modelled: which elements a selector or XPath finds, and the `get_text(separator=" | ")` text. These are given as data.
- Writing `debug_page.html` when no container is found is file output and is not modelled. The write sits inside the `try`: when it raises, `scrape_credly` returns "N/A", no certifications and the exception's message, which the model covers as a `Failed` page load carrying that message.
- The per-card `except Exception` of `scrape_credly` is not modelled. No step of the card loop that is modelled can raise.
- The `except` of the badge loop is modelled only for the `IndexError` of a text with fewer than seven lines.
- The `.get("Certification Expiry Date", "")` default cannot arise: both scrapers always set that key.
- `print` calls and the "Error checking validity" message are console output.
- The language model call is a function parameter: its model name, its API key and the prompt text.
- The Groq client is built (`langgraph_cred_agent.py:156-160`) on every turn with messages, before the URL test, so a failure to build it would raise on the badge path too. The model assumes that construction succeeds.
- The LangGraph graph is not modelled: `should_continue`, the state schema and `run_agent`.
- The `__main__` blocks of both files are not modelled. Only the URLs of the two example queries with a URL are proved to be found.
- `extract_certification_data` is a function parameter. It loads `webscrap_cred_v2.py` dynamically and calls `scrape_credly_alternative`, or `scrape_credly` when loading or calling that one raises an `AttributeError`, and its error dicts are `{"error": ...}` (`CertValidity.ToolError`, used by `CertAgent.AgentScraperRaises`).
- The SQLite database is a success-or-failure parameter. The rows the query returns never influence the answer. `sqlite_cert.py` is not part of this model.
- `datetime.now()` is replaced by today's date, a parameter. Time of day is dropped because the expiry is compared at midnight.
- `\w`, `\d`, `\s` and `lower()` are modelled on ASCII letters and digits and on Python's whitespace characters. Non-ASCII letters and digits, and Unicode case mappings, are not modelled.
- `strptime` is modelled only for the English month names. It accepts the same words case-insensitively. Locale-dependent names are not modelled.
- Points are counted in halves instead of Python floats. `PointsText` prints them as Python prints 10, 5, 2.5 and 0.
- Messages that arrive as plain dicts are not modelled. `last_message.get("content", "")` is modelled like `.content`, and the message is a record with a role and a content.
