/** The text-level rules of the two Credly scrapers, `scrape_credly` and
    `scrape_credly_alternative`. The browser and the HTML/XPath queries are
    not modelled: a page is given as what those queries return, in the order
    the scraper asks for them, as strings and sequences of strings. Each loop
    of the scrapers is a method proved equal to a specification function, and
    the lemmas state what those functions promise. */
module CredlyScraper {
  import opened Wrappers
  import opened Strings

  /** The placeholder the scrapers use for a value they did not find. */
  const NotAvailable: string := "N/A"

  /** One certification as a scraper reports it: `scrape_credly` builds
      `CardCert` dicts, `scrape_credly_alternative` builds `BadgeCert` dicts.
      Both carry the name and the "Certification Expiry Date" text. */
  datatype Cert =
    | CardCert(name: string, date: string, expiry: string)
    | BadgeCert(name: string, userName: seq<string>, issueDate: string, expiry: string)

  /** The dict a scraper returns: "Name", "Certifications" and, after a
      failure of `scrape_credly`, "Error". */
  datatype ScrapeResult = ScrapeResult(name: string, certifications: seq<Cert>, error: Option<string>)

  /** A `<time>` element: its `datetime` attribute, if any, and its text. */
  datatype TimeElement = TimeElement(datetime: Option<string>, text: string)

  /** A badge card as BeautifulSoup sees it: the texts of its h2/h3/h4/div/span
      descendants in document order, its `get_text(separator=" | ")` and its
      `<time>` elements. */
  datatype Card = Card(nameTagTexts: seq<string>, allText: string, times: seq<TimeElement>)

  /** What `soup.find` returns for each name selector (None when nothing
      matches) and what `soup.find_all` returns for each container selector. */
  datatype SoupPage = SoupPage(nameFinds: seq<Option<string>>, containerFinds: seq<seq<Card>>)

  /** How loading the page ended for `scrape_credly`. */
  datatype PageLoad = Loaded(page: SoupPage) | TimedOut | Failed(reason: string)

  /** What Selenium returns for each name XPath (the element's text, None when
      `find_element` raises) and for each badge XPath (the `.text` of every
      element found; a raising `find_elements` is an empty list here, as both
      make the loop go on to the next XPath). */
  datatype XPathPage = XPathPage(nameFinds: seq<Option<string>>, badgeFinds: seq<seq<string>>)

  // ---------------------------------------------------------------------
  // First selector that yields something
  // ---------------------------------------------------------------------

  predicate NonBlankAt(finds: seq<Option<string>>, i: int) {
    0 <= i < |finds| && finds[i].Some? && Strip(finds[i].value) != []
  }

  /** The stripped text of the first selector whose element has non-blank
      text, or "N/A". */
  function FirstNonBlank(finds: seq<Option<string>>): string {
    if finds == [] then NotAvailable
    else if finds[0].Some? && Strip(finds[0].value) != [] then Strip(finds[0].value)
    else FirstNonBlank(finds[1..])
  }

  /** The name is "N/A" when no selector yields non-blank text. */
  lemma {:induction false} FirstNonBlankNone(finds: seq<Option<string>>)
    requires forall i :: 0 <= i < |finds| ==> !NonBlankAt(finds, i)
    ensures FirstNonBlank(finds) == NotAvailable
  {
    if finds != [] {
      assert !NonBlankAt(finds, 0);
      forall i | 0 <= i < |finds| - 1 ensures !NonBlankAt(finds[1..], i) {
        assert !NonBlankAt(finds, i + 1);
      }
      FirstNonBlankNone(finds[1..]);
    }
  }

  /** The name is the stripped text of the first selector, in list order,
      that yields non-blank text; later selectors are ignored. */
  lemma {:induction false} FirstNonBlankFirst(finds: seq<Option<string>>, k: nat)
    requires NonBlankAt(finds, k)
    requires forall j :: 0 <= j < k ==> !NonBlankAt(finds, j)
    ensures FirstNonBlank(finds) == Strip(finds[k].value)
  {
    if k > 0 {
      assert !NonBlankAt(finds, 0);
      assert NonBlankAt(finds[1..], k - 1);
      forall j | 0 <= j < k - 1 ensures !NonBlankAt(finds[1..], j) {
        assert !NonBlankAt(finds, j + 1);
      }
      FirstNonBlankFirst(finds[1..], k - 1);
    }
  }

  /** The name loop of both scrapers (`for ... in name_selectors: ... break`). */
  method FindName(finds: seq<Option<string>>) returns (name: string)
    ensures name == FirstNonBlank(finds)
  {
    name := NotAvailable;
    var i := 0;
    while i < |finds|
      invariant 0 <= i <= |finds|
      invariant FirstNonBlank(finds[i..]) == FirstNonBlank(finds)
    {
      if finds[i].Some? && Strip(finds[i].value) != [] {
        name := Strip(finds[i].value);
        break;
      }
      assert finds[i..][1..] == finds[i + 1..];
      i := i + 1;
    }
  }

  /** The result of the first selector that found anything, or nothing. */
  function FirstNonEmpty<T>(finds: seq<seq<T>>): seq<T> {
    if finds == [] then [] else if finds[0] != [] then finds[0] else FirstNonEmpty(finds[1..])
  }

  /** Nothing is chosen when every selector found nothing. */
  lemma {:induction false} FirstNonEmptyNone<T>(finds: seq<seq<T>>)
    requires forall i :: 0 <= i < |finds| ==> finds[i] == []
    ensures FirstNonEmpty(finds) == []
  {
    if finds != [] {
      assert finds[0] == [];
      forall i | 0 <= i < |finds| - 1 ensures finds[1..][i] == [] {
        assert finds[1..][i] == finds[i + 1];
      }
      FirstNonEmptyNone(finds[1..]);
    }
  }

  /** The first selector, in list order, with a non-empty result wins;
      later selectors are ignored. */
  lemma {:induction false} FirstNonEmptyFirst<T>(finds: seq<seq<T>>, k: nat)
    requires k < |finds| && finds[k] != []
    requires forall j :: 0 <= j < k ==> finds[j] == []
    ensures FirstNonEmpty(finds) == finds[k]
  {
    if k > 0 {
      assert finds[0] == [];
      assert finds[1..][k - 1] == finds[k];
      forall j | 0 <= j < k - 1 ensures finds[1..][j] == [] {
        assert finds[1..][j] == finds[j + 1];
      }
      FirstNonEmptyFirst(finds[1..], k - 1);
    }
  }

  /** The container loop of `scrape_credly` and the badge loop of
      `scrape_credly_alternative` (`if containers: ... break`). */
  method FindFirstNonEmpty<T>(finds: seq<seq<T>>) returns (chosen: seq<T>)
    ensures chosen == FirstNonEmpty(finds)
  {
    chosen := [];
    var i := 0;
    while i < |finds|
      invariant 0 <= i <= |finds|
      invariant FirstNonEmpty(finds[i..]) == FirstNonEmpty(finds)
    {
      if finds[i] != [] {
        chosen := finds[i];
        break;
      }
      assert finds[i..][1..] == finds[i + 1..];
      i := i + 1;
    }
  }

  // ---------------------------------------------------------------------
  // Keeping some elements, in order
  // ---------------------------------------------------------------------

  function Kept<B>(o: Option<B>): seq<B> {
    match o
    case Some(b) => [b]
    case None => []
  }

  /** Map each element through `f` and keep the `Some` results, in order
      (a loop that appends only some of its elements). */
  function FilterMap<A, B>(xs: seq<A>, f: A -> Option<B>): seq<B> {
    if xs == [] then [] else FilterMap(xs[..|xs| - 1], f) + Kept(f(xs[|xs| - 1]))
  }

  lemma FilterMapSnoc<A, B>(xs: seq<A>, x: A, f: A -> Option<B>)
    ensures FilterMap(xs + [x], f) == FilterMap(xs, f) + Kept(f(x))
  {
    assert (xs + [x])[..|xs|] == xs;
  }

  lemma FilterMapStep<A, B>(xs: seq<A>, k: nat, f: A -> Option<B>)
    requires k < |xs|
    ensures FilterMap(xs[..k + 1], f) == FilterMap(xs[..k], f) + Kept(f(xs[k]))
  {
    assert xs[..k + 1][..k] == xs[..k];
  }

  /** The indices of the elements `FilterMap` keeps, in increasing order. */
  function KeptIndices<A, B>(xs: seq<A>, f: A -> Option<B>): seq<nat> {
    if xs == [] then []
    else KeptIndices(xs[..|xs| - 1], f) + (if f(xs[|xs| - 1]).Some? then [|xs| - 1] else [])
  }

  /** `FilterMap` keeps one element per kept index, so at most as many as it is given. */
  lemma {:induction false} FilterMapLength<A, B>(xs: seq<A>, f: A -> Option<B>)
    ensures |KeptIndices(xs, f)| == |FilterMap(xs, f)| <= |xs|
  {
    if xs != [] {
      FilterMapLength(xs[..|xs| - 1], f);
    }
  }

  /** The k-th kept element is what `f` gives for the element at the k-th kept index. */
  lemma {:induction false} FilterMapAt<A, B>(xs: seq<A>, f: A -> Option<B>)
    ensures |KeptIndices(xs, f)| == |FilterMap(xs, f)|
    ensures forall k :: 0 <= k < |KeptIndices(xs, f)| ==>
              KeptIndices(xs, f)[k] < |xs| && f(xs[KeptIndices(xs, f)[k]]) == Some(FilterMap(xs, f)[k])
  {
    FilterMapLength(xs, f);
    if xs != [] {
      var init := xs[..|xs| - 1];
      FilterMapAt(init, f);
      FilterMapLength(init, f);
      var ks, ys := KeptIndices(xs, f), FilterMap(xs, f);
      forall k | 0 <= k < |ks| ensures ks[k] < |xs| && f(xs[ks[k]]) == Some(ys[k]) {
        if k < |KeptIndices(init, f)| {
          assert ks[k] == KeptIndices(init, f)[k] && ys[k] == FilterMap(init, f)[k];
          assert init[ks[k]] == xs[ks[k]];
        }
      }
    }
  }

  /** The kept indices are strictly increasing: the kept elements keep their order. */
  lemma {:induction false} KeptIndicesIncrease<A, B>(xs: seq<A>, f: A -> Option<B>)
    ensures forall k :: 0 <= k < |KeptIndices(xs, f)| ==> KeptIndices(xs, f)[k] < |xs|
    ensures forall k, l :: 0 <= k < l < |KeptIndices(xs, f)| ==> KeptIndices(xs, f)[k] < KeptIndices(xs, f)[l]
  {
    if xs != [] {
      KeptIndicesIncrease(xs[..|xs| - 1], f);
    }
  }

  /** Every element for which `f` gives a value is kept. */
  lemma {:induction false} KeptIndicesComplete<A, B>(xs: seq<A>, f: A -> Option<B>)
    ensures forall i :: 0 <= i < |xs| && f(xs[i]).Some? ==> i in KeptIndices(xs, f)
  {
    if xs != [] {
      var init := xs[..|xs| - 1];
      KeptIndicesComplete(init, f);
      forall i | 0 <= i < |xs| && f(xs[i]).Some? ensures i in KeptIndices(xs, f) {
        if i < |init| {
          assert init[i] == xs[i];
          assert i in KeptIndices(init, f);
        }
      }
    }
  }

  // ---------------------------------------------------------------------
  // scrape_credly: one card
  // ---------------------------------------------------------------------

  /** The lower-cased texts that are buttons rather than certification names:
      "view badge", "share", "download" and "verify" (each compared together
      with its length, which is implied by the string equality). */
  predicate IsUiLabel(t: string) {
    (|t| == 10 && t == "view badge") || (|t| == 5 && t == "share")
    || (|t| == 8 && t == "download") || (|t| == 6 && t == "verify")
  }

  /** A tag text that is taken as the card's certification name. */
  predicate IsCardName(text: string) {
    var t := Strip(text);
    t != [] && 5 < |t| < 150 && !IsUiLabel(Lower(t))
  }

  /** The index of the first text that `accept` takes, or `|texts|` when it
      takes none. */
  function FirstAccepted(texts: seq<string>, accept: string -> bool): (i: nat)
    ensures i <= |texts|
    ensures forall j :: 0 <= j < i ==> !accept(texts[j])
    ensures i < |texts| ==> accept(texts[i])
  {
    if texts == [] then 0
    else if accept(texts[0]) then 0
    else 1 + FirstAccepted(texts[1..], accept)
  }

  lemma FirstAcceptedAt(texts: seq<string>, accept: string -> bool, i: nat)
    requires i < |texts| && accept(texts[i]) && FirstAccepted(texts, accept) >= i
    ensures FirstAccepted(texts, accept) == i
  {
  }

  lemma FirstAcceptedPast(texts: seq<string>, accept: string -> bool, i: nat)
    requires i < |texts| && !accept(texts[i]) && FirstAccepted(texts, accept) >= i
    ensures FirstAccepted(texts, accept) > i
  {
  }

  /** The stripped text of the first tag that passes the name filter, or "N/A". */
  function CardName(texts: seq<string>): string {
    var i := FirstAccepted(texts, IsCardName);
    if i < |texts| then Strip(texts[i]) else NotAvailable
  }

  /** The card name is "N/A" exactly when no tag passes the filter; any other
      card name is the stripped text of the first tag that passes it, longer
      than 5 and shorter than 150 characters and none of the button labels,
      whatever its case. */
  lemma CardNameSpec(texts: seq<string>)
    ensures CardName(texts) == NotAvailable <==> forall i :: 0 <= i < |texts| ==> !IsCardName(texts[i])
    ensures CardName(texts) != NotAvailable ==> 5 < |CardName(texts)| < 150 && !IsUiLabel(Lower(CardName(texts)))
    ensures CardName(texts) != NotAvailable ==>
              exists i :: 0 <= i < |texts| && IsCardName(texts[i])
                && (forall j :: 0 <= j < i ==> !IsCardName(texts[j]))
                && CardName(texts) == Strip(texts[i])
  {
    var i := FirstAccepted(texts, IsCardName);
    if i < |texts| {
      assert IsCardName(texts[i]);
      assert |NotAvailable| == 3;
    }
  }

  /** The name loop over a card's tags (`for tag in name_tags: ... break`). */
  method FindCardName(texts: seq<string>) returns (certName: string)
    ensures certName == CardName(texts)
  {
    certName := NotAvailable;
    var i := 0;
    while i < |texts|
      invariant 0 <= i <= |texts|
      invariant FirstAccepted(texts, IsCardName) >= i
    {
      var text := Strip(texts[i]);
      var isName := text != [] && 5 < |text| < 150 && !IsUiLabel(Lower(text));
      assert isName == IsCardName(texts[i]);
      if isName {
        FirstAcceptedAt(texts, IsCardName, i);
        certName := text;
        break;
      }
      FirstAcceptedPast(texts, IsCardName, i);
      i := i + 1;
    }
  }

  /** The card text cut at every "|", each piece stripped. */
  function TextParts(allText: string): (parts: seq<string>)
  {
    var pieces := Split(allText, '|');
    seq(|pieces|, i requires 0 <= i < |pieces| => Strip(pieces[i]))
  }

  /** A lower-cased text that mentions an issue date. */
  predicate MentionsIssue(lowered: string) {
    Contains(lowered, "issued") || Contains(lowered, "earned")
  }

  /** A lower-cased text that mentions an expiry date. */
  predicate MentionsExpiry(lowered: string) {
    Contains(lowered, "expires") || Contains(lowered, "expiration")
  }

  /** A text part that names the issue date. */
  predicate IsIssuePart(part: string) {
    MentionsIssue(Lower(part))
  }

  /** A text part that names the expiry date: only when it is not an issue part. */
  predicate IsExpiryPart(part: string) {
    !IsIssuePart(part) && MentionsExpiry(Lower(part))
  }

  /** The last part for which `p` holds, or `default`. */
  function LastWhere(parts: seq<string>, p: string -> bool, default: string): string {
    if parts == [] then default
    else if p(parts[|parts| - 1]) then parts[|parts| - 1]
    else LastWhere(parts[..|parts| - 1], p, default)
  }

  /** `LastWhere` is `default` when no part satisfies `p`. */
  lemma {:induction false} LastWhereNone(parts: seq<string>, p: string -> bool, default: string)
    requires forall i :: 0 <= i < |parts| ==> !p(parts[i])
    ensures LastWhere(parts, p, default) == default
  {
    if parts != [] {
      var n := |parts| - 1;
      assert !p(parts[n]);
      forall i | 0 <= i < n ensures !p(parts[..n][i]) {
        assert parts[..n][i] == parts[i];
      }
      LastWhereNone(parts[..n], p, default);
    }
  }

  /** `LastWhere` is the last part satisfying `p`: no later part satisfies it. */
  lemma {:induction false} LastWhereLast(parts: seq<string>, p: string -> bool, default: string, k: nat)
    requires k < |parts| && p(parts[k])
    requires forall j :: k < j < |parts| ==> !p(parts[j])
    ensures LastWhere(parts, p, default) == parts[k]
  {
    var n := |parts| - 1;
    if k < n {
      assert !p(parts[n]);
      assert parts[..n][k] == parts[k];
      forall j | k < j < n ensures !p(parts[..n][j]) {
        assert parts[..n][j] == parts[j];
      }
      LastWhereLast(parts[..n], p, default, k);
    }
  }

  lemma LastWhereStep(parts: seq<string>, i: nat, p: string -> bool, default: string)
    requires i < |parts|
    ensures LastWhere(parts[..i + 1], p, default)
            == if p(parts[i]) then parts[i] else LastWhere(parts[..i], p, default)
  {
    assert parts[..i + 1][..i] == parts[..i];
  }

  /** `time_elements[i].get("datetime", time_elements[i].text.strip())`. */
  function TimeValue(t: TimeElement): string {
    t.datetime.GetOr(Strip(t.text))
  }

  /** The issue date of a card: the first `<time>` element when there is one,
      else the last issue part of its text, else "N/A". */
  function CardIssued(card: Card): string {
    if |card.times| >= 1 then TimeValue(card.times[0])
    else LastWhere(TextParts(card.allText), IsIssuePart, NotAvailable)
  }

  /** The expiry date of a card: the second `<time>` element when there is
      one, else the last expiry part of its text, else "N/A". */
  function CardExpiry(card: Card): string {
    if |card.times| >= 2 then TimeValue(card.times[1])
    else LastWhere(TextParts(card.allText), IsExpiryPart, NotAvailable)
  }

  /** A part that mentions both an issue and an expiry keyword only ever
      becomes the issue date (the `elif`). */
  lemma IssueWinsOverExpiry(card: Card)
    requires |card.times| < 2
    ensures !IsIssuePart(CardExpiry(card)) || CardExpiry(card) == NotAvailable
  {
    var parts := TextParts(card.allText);
    if CardExpiry(card) != NotAvailable {
      LastWhereIsMember(parts, IsExpiryPart, NotAvailable);
    }
  }

  lemma {:induction false} LastWhereIsMember(parts: seq<string>, p: string -> bool, default: string)
    requires LastWhere(parts, p, default) != default
    ensures p(LastWhere(parts, p, default))
  {
    if !p(parts[|parts| - 1]) {
      LastWhereIsMember(parts[..|parts| - 1], p, default);
    }
  }

  /** The loop over a card's text parts (`for part in text_parts`): the last
      issue part and the last expiry part, each "N/A" when there is none. */
  method ScanParts(parts: seq<string>) returns (issued: string, expires: string)
    ensures issued == LastWhere(parts, IsIssuePart, NotAvailable)
    ensures expires == LastWhere(parts, IsExpiryPart, NotAvailable)
  {
    issued, expires := NotAvailable, NotAvailable;
    for i := 0 to |parts|
      invariant issued == LastWhere(parts[..i], IsIssuePart, NotAvailable)
      invariant expires == LastWhere(parts[..i], IsExpiryPart, NotAvailable)
    {
      var part := parts[i];
      var partLower := Lower(part);
      LastWhereStep(parts, i, IsIssuePart, NotAvailable);
      LastWhereStep(parts, i, IsExpiryPart, NotAvailable);
      if MentionsIssue(partLower) {
        issued := part;
      } else if MentionsExpiry(partLower) {
        expires := part;
      }
    }
    assert parts[..|parts|] == parts;
  }

  /** The dates of one card: the text-part loop followed by the `<time>`
      overrides. */
  method FindCardDates(card: Card) returns (issued: string, expires: string)
    ensures issued == CardIssued(card) && expires == CardExpiry(card)
  {
    issued, expires := ScanParts(TextParts(card.allText));
    if |card.times| >= 1 {
      issued := TimeValue(card.times[0]);
    }
    if |card.times| >= 2 {
      expires := TimeValue(card.times[1]);
    }
  }

  /** What `scrape_credly` appends for one card: nothing when its name stayed "N/A". */
  function CardRecord(card: Card): Option<Cert> {
    var name := CardName(card.nameTagTexts);
    if name == NotAvailable then None else Some(CardCert(name, CardIssued(card), CardExpiry(card)))
  }

  /** A card is kept exactly when one of its tags passes the name filter, and
      then with the stripped text of the first such tag as its name, and its
      dates. */
  lemma CardRecordSpec(card: Card)
    ensures CardRecord(card).Some? <==> exists i :: 0 <= i < |card.nameTagTexts| && IsCardName(card.nameTagTexts[i])
    ensures CardRecord(card).Some? ==>
              var c := CardRecord(card).value;
              5 < |c.name| < 150 && !IsUiLabel(Lower(c.name))
              && c.date == CardIssued(card) && c.expiry == CardExpiry(card)
    ensures CardRecord(card).Some? ==>
              exists i :: 0 <= i < |card.nameTagTexts| && IsCardName(card.nameTagTexts[i])
                && (forall j :: 0 <= j < i ==> !IsCardName(card.nameTagTexts[j]))
                && CardRecord(card).value.name == Strip(card.nameTagTexts[i])
  {
    CardNameSpec(card.nameTagTexts);
  }

  /** The card loop of `scrape_credly`. */
  method ExtractCards(cards: seq<Card>) returns (certs: seq<Cert>)
    ensures certs == FilterMap(cards, CardRecord)
  {
    certs := [];
    for idx := 0 to |cards|
      invariant certs == FilterMap(cards[..idx], CardRecord)
    {
      var card := cards[idx];
      var certName := FindCardName(card.nameTagTexts);
      var certDate, certExpiry := FindCardDates(card);
      FilterMapStep(cards, idx, CardRecord);
      if certName != NotAvailable {
        certs := certs + [CardCert(certName, certDate, certExpiry)];
      }
    }
    assert cards[..|cards|] == cards;
  }

  /** `scrape_credly`: the name, the certifications of the first container
      selector that found any cards, and the fixed failure dicts. */
  method ScrapeCredly(load: PageLoad) returns (r: ScrapeResult)
    ensures load.TimedOut? ==> r == ScrapeResult(NotAvailable, [], Some("Timeout"))
    ensures load.Failed? ==> r == ScrapeResult(NotAvailable, [], Some(load.reason))
    ensures load.Loaded? ==>
              r == ScrapeResult(FirstNonBlank(load.page.nameFinds),
                                FilterMap(FirstNonEmpty(load.page.containerFinds), CardRecord), None)
  {
    match load
    case TimedOut =>
      r := ScrapeResult(NotAvailable, [], Some("Timeout"));
    case Failed(reason) =>
      r := ScrapeResult(NotAvailable, [], Some(reason));
    case Loaded(page) =>
      var name := FindName(page.nameFinds);
      var containers := FindFirstNonEmpty(page.containerFinds);
      var certs := ExtractCards(containers);
      r := ScrapeResult(name, certs, None);
  }

  // ---------------------------------------------------------------------
  // scrape_credly_alternative: positional fields of a badge's text
  // ---------------------------------------------------------------------

  /** How many badges the alternative scraper looks at. */
  const BadgeLimit: nat := 5

  /** What `scrape_credly_alternative` appends for one badge text: nothing
      when the text has fewer than 7 lines (the `IndexError` it swallows). */
  function BadgeRecord(text: string): Option<Cert> {
    var lines := Split(text, '\n');
    if |lines| < 7 then None
    else Some(BadgeCert(Strip(lines[6]), Drop(SplitWords(lines[1]), 5), lines[2], lines[3]))
  }

  /** A badge is skipped exactly when its text has fewer than six line
      breaks; otherwise line 6 (stripped) is the name, line 2 the issue date,
      line 3 the expiry and the words of line 1 from the sixth on the user name. */
  lemma BadgeRecordSpec(text: string)
    ensures BadgeRecord(text).None? <==> multiset(text)['\n'] < 6
    ensures BadgeRecord(text).Some? ==>
              var lines := Split(text, '\n');
              var c := BadgeRecord(text).value;
              c.name == Strip(lines[6]) && c.issueDate == lines[2] && c.expiry == lines[3]
              && '\n' !in c.issueDate && '\n' !in c.expiry
              && c.userName == Drop(SplitWords(lines[1]), 5)
  {
    SplitCount(text, '\n');
    var lines := Split(text, '\n');
    if |lines| >= 7 {
      assert lines[2] in lines && lines[3] in lines;
    }
  }

  /** The certifications of `scrape_credly_alternative` for the badges found. */
  function BadgeCerts(badges: seq<string>): seq<Cert> {
    FilterMap(Take(badges, BadgeLimit), BadgeRecord)
  }

  /** At most the first five badges are read; the result holds the record of
      each of those badges with at least seven lines and nothing else (its
      order is `BadgeCertsInOrder`). */
  lemma BadgeCertsSpec(badges: seq<string>)
    ensures |BadgeCerts(badges)| <= BadgeLimit && |BadgeCerts(badges)| <= |badges|
    ensures forall k :: 0 <= k < |BadgeCerts(badges)| ==>
              exists i :: 0 <= i < |badges| && i < BadgeLimit && BadgeRecord(badges[i]) == Some(BadgeCerts(badges)[k])
    ensures forall i :: 0 <= i < |badges| && i < BadgeLimit && BadgeRecord(badges[i]).Some? ==>
              BadgeRecord(badges[i]).value in BadgeCerts(badges)
  {
    var xs := Take(badges, BadgeLimit);
    FilterMapLength(xs, BadgeRecord);
    FilterMapAt(xs, BadgeRecord);
    KeptIndicesComplete(xs, BadgeRecord);
    var ks := KeptIndices(xs, BadgeRecord);
    forall k | 0 <= k < |BadgeCerts(badges)|
      ensures exists i :: 0 <= i < |badges| && i < BadgeLimit && BadgeRecord(badges[i]) == Some(BadgeCerts(badges)[k])
    {
      assert BadgeRecord(badges[ks[k]]) == Some(BadgeCerts(badges)[k]);
    }
    forall i | 0 <= i < |badges| && i < BadgeLimit && BadgeRecord(badges[i]).Some?
      ensures BadgeRecord(badges[i]).value in BadgeCerts(badges)
    {
      assert xs[i] == badges[i];
      assert i in ks;
      var k :| 0 <= k < |ks| && ks[k] == i;
      assert BadgeCerts(badges)[k] == BadgeRecord(badges[i]).value;
    }
  }

  /** The records follow badge order: the k-th record comes from the badge
      at the k-th kept index, one of the first five, and kept indices
      increase. */
  lemma BadgeCertsInOrder(badges: seq<string>)
    ensures var ks := KeptIndices(Take(badges, BadgeLimit), BadgeRecord);
            |ks| == |BadgeCerts(badges)|
            && (forall k :: 0 <= k < |ks| ==>
                  ks[k] < |badges| && ks[k] < BadgeLimit && BadgeRecord(badges[ks[k]]) == Some(BadgeCerts(badges)[k]))
            && (forall k1, k2 :: 0 <= k1 < k2 < |ks| ==> ks[k1] < ks[k2])
  {
    var xs := Take(badges, BadgeLimit);
    FilterMapAt(xs, BadgeRecord);
    KeptIndicesIncrease(xs, BadgeRecord);
    var ks := KeptIndices(xs, BadgeRecord);
    forall k | 0 <= k < |ks|
      ensures ks[k] < |badges| && ks[k] < BadgeLimit && BadgeRecord(badges[ks[k]]) == Some(BadgeCerts(badges)[k])
    {
      assert xs[ks[k]] == badges[ks[k]];
    }
  }

  /** When each of the first five badges has at least seven lines, the
      result is exactly their records, one for one, in badge order. */
  lemma {:induction false} BadgeCertsAllWellFormed(badges: seq<string>)
    requires forall i :: 0 <= i < |badges| && i < BadgeLimit ==> BadgeRecord(badges[i]).Some?
    ensures |BadgeCerts(badges)| == if |badges| < BadgeLimit then |badges| else BadgeLimit
    ensures forall k :: 0 <= k < |BadgeCerts(badges)| ==> Some(BadgeCerts(badges)[k]) == BadgeRecord(badges[k])
  {
    AllKept(Take(badges, BadgeLimit), BadgeRecord);
  }

  lemma {:induction false} AllKept<A, B>(xs: seq<A>, f: A -> Option<B>)
    requires forall i :: 0 <= i < |xs| ==> f(xs[i]).Some?
    ensures |FilterMap(xs, f)| == |xs|
    ensures forall k :: 0 <= k < |xs| ==> Some(FilterMap(xs, f)[k]) == f(xs[k])
  {
    if xs != [] {
      var init := xs[..|xs| - 1];
      AllKept(init, f);
    }
  }

  /** The badge loop of `scrape_credly_alternative` (`for badge in badge_elements[:5]`). */
  method ExtractBadges(badges: seq<string>) returns (certs: seq<Cert>)
    ensures certs == BadgeCerts(badges)
  {
    certs := [];
    var first := Take(badges, BadgeLimit);
    for k := 0 to |first|
      invariant certs == FilterMap(first[..k], BadgeRecord)
    {
      var lines := Split(first[k], '\n');
      FilterMapStep(first, k, BadgeRecord);
      if |lines| >= 7 {
        var userName := lines[1];
        var issueDate := lines[2];
        var expiryDate := lines[3];
        var certName := lines[6];
        certs := certs + [BadgeCert(Strip(certName), Drop(SplitWords(userName), 5), issueDate, expiryDate)];
      }
    }
    assert first[..|first|] == first;
  }

  /** `scrape_credly_alternative`: the name and the badges of the first
      badge XPath that found any elements. */
  method ScrapeCredlyAlternative(page: XPathPage) returns (r: ScrapeResult)
    ensures r == ScrapeResult(FirstNonBlank(page.nameFinds), BadgeCerts(FirstNonEmpty(page.badgeFinds)), None)
  {
    var name := FindName(page.nameFinds);
    var badgeElements := FindFirstNonEmpty(page.badgeFinds);
    var certs := ExtractBadges(badgeElements);
    r := ScrapeResult(name, certs, None);
  }
}
