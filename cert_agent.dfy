/** `agent_node`: one turn of the certification agent. The scraping tool and
    the language model are parameters (any function of the URL, any function
    of the last message), the database is its `DbStatus`, and today's date
    is given. */
module CertAgent {
  import opened Wrappers
  import opened Strings
  import opened ExpiryDate
  import opened CredlyScraper
  import opened CertPoints
  import opened CertValidity

  datatype Role = Human | Ai

  /** A chat message; only its content is read. */
  datatype Message = Message(role: Role, content: string)

  // ---------------------------------------------------------------------
  // https?://(?:www\.)?credly\.com/badges/[a-zA-Z0-9\-]+
  // ---------------------------------------------------------------------

  predicate IsIdChar(c: char) {
    ('a' <= c <= 'z') || ('A' <= c <= 'Z') || ('0' <= c <= '9') || c == '-'
  }

  /** The badge URL that starts at index `i`, if any. The optional `s` and
      `www.` are taken whenever they are present: when the rest fails after
      them, it fails without them as well, because the character that
      would have to be ':' or 'c' is then 's' or 'w'. The badge id is the
      longest run of id characters, and it must not be empty. */
  function UrlAt(s: string, i: nat): Option<string>
    requires i <= |s|
  {
    if !OccursAt(s, i, "http") then None
    else
      var a := if OccursAt(s, i + 4, "s") then i + 5 else i + 4;
      if !OccursAt(s, a, "://") then None
      else
        var b := if OccursAt(s, a + 3, "www.") then a + 7 else a + 3;
        if !OccursAt(s, b, "credly.com/badges/") then None
        else
          var e := RunEnd(s, b + 18, IsIdChar);
          if e == b + 18 then None else Some(s[i..e])
  }

  function UrlFrom(s: string, i: nat): Option<string>
    requires i <= |s|
    decreases |s| - i
  {
    match UrlAt(s, i)
    case Some(u) => Some(u)
    case None => if i == |s| then None else UrlFrom(s, i + 1)
  }

  /** `re.findall(url_pattern, text)[0]`: the leftmost badge URL. */
  function FirstBadgeUrl(text: string): Option<string> {
    UrlFrom(text, 0)
  }

  function Scheme(secure: bool): string {
    if secure then "https://" else "http://"
  }

  function Host(www: bool): string {
    if www then "www.credly.com/badges/" else "credly.com/badges/"
  }

  /** A badge URL as a user pastes it. */
  function BadgeUrl(secure: bool, www: bool, id: string): string {
    Scheme(secure) + Host(www) + id
  }

  /** No URL is found in a text without "http". */
  lemma {:induction false} NoSchemeNoUrl(text: string, i: nat)
    requires i <= |text|
    requires !Contains(text, "http")
    ensures UrlFrom(text, i) == None
    decreases |text| - i
  {
    assert !OccursAt(text, i, "http");
    if i < |text| {
      NoSchemeNoUrl(text, i + 1);
    }
  }

  /** Starting points without "http" are skipped. */
  lemma {:induction false} NoUrlBefore(s: string, n: nat, i: nat)
    requires i <= n <= |s|
    requires forall k :: i <= k < n ==> !OccursAt(s, k, "http")
    ensures UrlFrom(s, i) == UrlFrom(s, n)
    decreases n - i
  {
    if i < n {
      assert UrlAt(s, i) == None;
      NoUrlBefore(s, n, i + 1);
    }
  }

  /** An "http" cannot start before `n` in a text whose first `n`
      characters do not contain it and whose "http" starts at `n`: one that
      overlapped `n` would need an 'h' where "ttp" has none. */
  lemma NoHttpBefore(s: string, n: nat)
    requires OccursAt(s, n, "http") && !Contains(s[..n], "http")
    ensures forall k :: 0 <= k < n ==> !OccursAt(s, k, "http")
  {
    forall k | 0 <= k < n ensures !OccursAt(s, k, "http") {
      if k + 4 <= n {
        assert s[..n][k..k + 4] == s[k..k + 4];
        assert !OccursAt(s[..n], k, "http");
      } else if k + 4 <= |s| {
        assert s[n..n + 4][0] == 'h';
        assert s[k..k + 4][n - k] == s[n];
      }
    }
  }

  /** What `UrlAt` sees of a scheme written at `n` and ending at `b`. */
  lemma SchemeAt(s: string, n: nat, b: nat, secure: bool)
    requires b == n + |Scheme(secure)| <= |s| && s[n..b] == Scheme(secure)
    ensures OccursAt(s, n, "http")
    ensures (b - 3 == n + 5 && OccursAt(s, n + 4, "s")) || (b - 3 == n + 4 && !OccursAt(s, n + 4, "s"))
    ensures OccursAt(s, b - 3, "://")
  {
    if secure {
      assert Scheme(secure) == ("http" + "s") + "://";
      TwoParts(s, n, "http" + "s", "://");
      TwoParts(s, n, "http", "s");
    } else {
      assert Scheme(secure) == "http" + "://";
      TwoParts(s, n, "http", "://");
      assert s[n + 4..n + 7][0] == s[n + 4];
    }
  }

  /** What `UrlAt` sees of a host written at `b` and ending at `c`. */
  lemma HostAt(s: string, b: nat, c: nat, www: bool)
    requires c == b + |Host(www)| <= |s| && s[b..c] == Host(www)
    ensures (c - 18 == b + 4 && OccursAt(s, b, "www.")) || (c - 18 == b && !OccursAt(s, b, "www."))
    ensures OccursAt(s, c - 18, "credly.com/badges/")
  {
    if www {
      assert Host(www) == "www." + "credly.com/badges/";
      TwoParts(s, b, "www.", "credly.com/badges/");
    } else {
      assert s[b..c][0] == s[b];
      if b + 4 <= |s| {
        assert s[b..b + 4][0] == s[b];
      }
    }
  }

  /** Where the two parts of `x + y` written at `o` sit. */
  lemma TwoParts(s: string, o: nat, x: string, y: string)
    requires o + |x| + |y| <= |s| && s[o..o + |x| + |y|] == x + y
    ensures s[o..o + |x|] == x && s[o + |x|..o + |x| + |y|] == y
  {
    SubSlice(s, x + y, o, 0, |x|);
    SubSlice(s, x + y, o, |x|, |x| + |y|);
    assert (x + y)[0..|x|] == x;
    assert (x + y)[|x|..|x| + |y|] == y;
  }

  /** The URL found where a scheme, a host and a non-empty id are written
      side by side at `n`, `b` and `c`, followed by a character that cannot
      continue the id. */
  lemma UrlAtLayout(s: string, n: nat, b: nat, c: nat, secure: bool, www: bool, id: string)
    requires id != [] && forall k :: 0 <= k < |id| ==> IsIdChar(id[k])
    requires b == n + |Scheme(secure)| && c == b + |Host(www)| && c + |id| <= |s|
    requires s[n..b] == Scheme(secure) && s[b..c] == Host(www) && s[c..c + |id|] == id
    requires c + |id| == |s| || !IsIdChar(s[c + |id|])
    ensures UrlAt(s, n) == Some(s[n..c + |id|])
  {
    SchemeAt(s, n, b, secure);
    HostAt(s, b, c, www);
    IdRun(s, c, id);
    UrlAtParts(s, n, b - 3, c - 18, c + |id|);
  }

  /** An id written at `c` and not continued is the run `UrlAt` takes. */
  lemma IdRun(s: string, c: nat, id: string)
    requires forall k :: 0 <= k < |id| ==> IsIdChar(id[k])
    requires c + |id| <= |s| && s[c..c + |id|] == id
    requires c + |id| == |s| || !IsIdChar(s[c + |id|])
    ensures RunEnd(s, c, IsIdChar) == c + |id|
  {
    SliceAll(s, c, c + |id|, id, IsIdChar);
    RunEndAt(s, c, c + |id|, IsIdChar);
  }

  /** `UrlAt` step by step, from the facts each of its tests reads. */
  lemma UrlAtParts(s: string, n: nat, a: nat, b: nat, e: nat)
    requires OccursAt(s, n, "http")
    requires (a == n + 5 && OccursAt(s, n + 4, "s")) || (a == n + 4 && !OccursAt(s, n + 4, "s"))
    requires OccursAt(s, a, "://")
    requires (b == a + 7 && OccursAt(s, a + 3, "www.")) || (b == a + 3 && !OccursAt(s, a + 3, "www."))
    requires OccursAt(s, b, "credly.com/badges/")
    requires b + 18 < e <= |s| && RunEnd(s, b + 18, IsIdChar) == e
    ensures UrlAt(s, n) == Some(s[n..e])
  {
  }

  /** Where the three parts of `p + u + q` sit. */
  lemma ConcatLayout(s: string, p: string, u: string, q: string)
    requires s == p + u + q
    ensures |s| == |p| + |u| + |q| && s[..|p|] == p && s[|p|..|p| + |u|] == u
    ensures q == [] || s[|p| + |u|] == q[0]
  {
    assert s[..|p|] == p;
    assert s[|p|..|p| + |u|] == u;
    if q != [] {
      assert s[|p| + |u|] == q[0];
    }
  }

  /** Where the scheme, the host and the id of a badge URL written at `o` sit. */
  lemma UrlLayout(s: string, o: nat, secure: bool, www: bool, id: string)
    requires o + |BadgeUrl(secure, www, id)| <= |s| && s[o..o + |BadgeUrl(secure, www, id)|] == BadgeUrl(secure, www, id)
    ensures var b := o + |Scheme(secure)|;
            var c := b + |Host(www)|;
            s[o..b] == Scheme(secure) && s[b..c] == Host(www) && s[c..c + |id|] == id
  {
    var u := BadgeUrl(secure, www, id);
    var m1, m2 := |Scheme(secure)|, |Host(www)|;
    ThreeParts(Scheme(secure), Host(www), id);
    SubSlice(s, u, o, 0, m1);
    SubSlice(s, u, o, m1, m1 + m2);
    SubSlice(s, u, o, m1 + m2, |u|);
  }

  lemma ThreeParts(a: string, b: string, c: string)
    ensures (a + b + c)[0..|a|] == a
    ensures (a + b + c)[|a|..|a| + |b|] == b
    ensures (a + b + c)[|a| + |b|..|a + b + c|] == c
  {
  }

  lemma SubSlice(s: string, u: string, o: nat, i: nat, j: nat)
    requires o + |u| <= |s| && s[o..o + |u|] == u && i <= j <= |u|
    ensures s[o + i..o + j] == u[i..j]
  {
    var t := s[o..o + |u|];
    forall k | 0 <= k < j - i ensures s[o + i..o + j][k] == u[i..j][k] {
      assert t[i + k] == s[o + i + k];
    }
  }

  /** After a prefix without "http", a badge URL is found in full, with or
      without `s` and `www.`, up to the first character that cannot belong
      to a badge id. */
  lemma UrlAfterPrefix(p: string, secure: bool, www: bool, id: string, q: string)
    requires !Contains(p, "http")
    requires id != [] && forall k :: 0 <= k < |id| ==> IsIdChar(id[k])
    requires q == [] || !IsIdChar(q[0])
    ensures FirstBadgeUrl(p + BadgeUrl(secure, www, id) + q) == Some(BadgeUrl(secure, www, id))
  {
    var u := BadgeUrl(secure, www, id);
    ConcatLayout(p + u + q, p, u, q);
    UrlInText(p + u + q, |p|, secure, www, id);
  }

  /** A badge URL written at `n`, not continued by an id character, after
      text without "http", is the first URL found. */
  lemma UrlInText(s: string, n: nat, secure: bool, www: bool, id: string)
    requires id != [] && forall k :: 0 <= k < |id| ==> IsIdChar(id[k])
    requires var e := n + |BadgeUrl(secure, www, id)|;
             e <= |s| && s[n..e] == BadgeUrl(secure, www, id) && (e == |s| || !IsIdChar(s[e]))
    requires !Contains(s[..n], "http")
    ensures FirstBadgeUrl(s) == Some(BadgeUrl(secure, www, id))
  {
    var b := n + |Scheme(secure)|;
    UrlLayout(s, n, secure, www, id);
    UrlAtLayout(s, n, b, b + |Host(www)|, secure, www, id);
    SchemeAt(s, n, b, secure);
    NoHttpBefore(s, n);
    NoUrlBefore(s, n, 0);
  }

  /** A badge URL: a scheme, a host and a non-empty run of id characters. */
  predicate HasForm(u: string, secure: bool, www: bool) {
    var h := Scheme(secure) + Host(www);
    |h| < |u| && u[..|h|] == h && forall k :: |h| <= k < |u| ==> IsIdChar(u[k])
  }

  predicate IsBadgeUrl(u: string) {
    exists secure: bool, www: bool :: HasForm(u, secure, www)
  }

  /** The URL found starts at `j`, is not continued by an id character,
      and no URL starts before it. */
  predicate FoundAt(t: string, j: nat, u: string) {
    OccursAt(t, j, u) && (j + |u| == |t| || !IsIdChar(t[j + |u|]))
    && forall k :: 0 <= k < j ==> UrlAt(t, k) == None
  }

  /** Whatever is found is a badge URL, written in the text as the leftmost
      match and in full. */
  lemma FoundUrlShape(t: string, u: string)
    requires FirstBadgeUrl(t) == Some(u)
    ensures IsBadgeUrl(u) && exists j :: FoundAt(t, j, u)
  {
    UrlFromFound(t, 0, u);
  }

  lemma {:induction false} UrlFromFound(t: string, i: nat, u: string)
    requires i <= |t| && UrlFrom(t, i) == Some(u)
    requires forall k :: 0 <= k < i ==> UrlAt(t, k) == None
    ensures IsBadgeUrl(u) && exists j :: FoundAt(t, j, u)
    decreases |t| - i
  {
    if UrlAt(t, i) == Some(u) {
      UrlAtShape(t, i, u);
      assert FoundAt(t, i, u);
    } else {
      assert UrlAt(t, i) == None && i < |t|;
      UrlFromFound(t, i + 1, u);
    }
  }

  /** A URL found at `i` is a badge URL written there in full. */
  lemma UrlAtShape(s: string, i: nat, u: string)
    requires i <= |s| && UrlAt(s, i) == Some(u)
    ensures IsBadgeUrl(u) && OccursAt(s, i, u) && (i + |u| == |s| || !IsIdChar(s[i + |u|]))
  {
    var e, secure, www := UrlAtForm(s, i, u);
    FormIsBadgeUrl(u, secure, www);
  }

  lemma FormIsBadgeUrl(u: string, secure: bool, www: bool)
    requires HasForm(u, secure, www)
    ensures IsBadgeUrl(u)
  {
  }

  /** The end of the URL found at `i`, and its form. */
  lemma UrlAtForm(s: string, i: nat, u: string) returns (e: nat, secure: bool, www: bool)
    requires i <= |s| && UrlAt(s, i) == Some(u)
    ensures i < e <= |s| && u == s[i..e] && (e == |s| || !IsIdChar(s[e]))
    ensures HasForm(u, secure, www) && OccursAt(s, i, u) && (i + |u| == |s| || !IsIdChar(s[i + |u|]))
  {
    var a, b;
    a, b, e, secure, www := UrlAtSteps(s, i, u);
    StepsForm(s, i, a, b, e, secure, www);
  }

  /** The positions `UrlAt` passes through on its way to `u`. */
  lemma UrlAtSteps(s: string, i: nat, u: string) returns (a: nat, b: nat, e: nat, secure: bool, www: bool)
    requires i <= |s| && UrlAt(s, i) == Some(u)
    ensures OccursAt(s, i, "http")
    ensures (secure && a == i + 5 && OccursAt(s, i + 4, "s")) || (!secure && a == i + 4)
    ensures OccursAt(s, a, "://")
    ensures (www && b == a + 7 && OccursAt(s, a + 3, "www.")) || (!www && b == a + 3)
    ensures OccursAt(s, b, "credly.com/badges/")
    ensures b + 18 < e <= |s| && u == s[i..e]
    ensures forall k :: b + 18 <= k < e ==> IsIdChar(s[k])
    ensures e == |s| || !IsIdChar(s[e])
  {
    a := if OccursAt(s, i + 4, "s") then i + 5 else i + 4;
    b := if OccursAt(s, a + 3, "www.") then a + 7 else a + 3;
    e := RunEnd(s, b + 18, IsIdChar);
    secure, www := a == i + 5, b == a + 7;
  }

  /** The text `UrlAt` walks over is a scheme, a host and an id run. */
  lemma StepsForm(s: string, i: nat, a: nat, b: nat, e: nat, secure: bool, www: bool)
    requires OccursAt(s, i, "http")
    requires (secure && a == i + 5 && OccursAt(s, i + 4, "s")) || (!secure && a == i + 4)
    requires OccursAt(s, a, "://")
    requires (www && b == a + 7 && OccursAt(s, a + 3, "www.")) || (!www && b == a + 3)
    requires OccursAt(s, b, "credly.com/badges/")
    requires b + 18 < e <= |s| && forall k :: b + 18 <= k < e ==> IsIdChar(s[k])
    ensures HasForm(s[i..e], secure, www)
  {
    UrlHead(s, i, a, b, secure, www);
    UrlHasForm(s, i, b + 18, e, secure, www);
  }

  /** The text `UrlAt` accepts before the id is a scheme and a host. */
  lemma UrlHead(s: string, n: nat, a: nat, b: nat, secure: bool, www: bool)
    requires OccursAt(s, n, "http")
    requires (secure && a == n + 5 && OccursAt(s, n + 4, "s")) || (!secure && a == n + 4)
    requires OccursAt(s, a, "://")
    requires (www && b == a + 7 && OccursAt(s, a + 3, "www.")) || (!www && b == a + 3)
    requires OccursAt(s, b, "credly.com/badges/")
    ensures s[n..b + 18] == Scheme(secure) + Host(www)
  {
    SchemeHead(s, n, a, secure);
    HostHead(s, a + 3, b, www);
    SliceSplit(s, n, a + 3, b + 18);
  }

  lemma SchemeHead(s: string, n: nat, a: nat, secure: bool)
    requires OccursAt(s, n, "http")
    requires (secure && a == n + 5 && OccursAt(s, n + 4, "s")) || (!secure && a == n + 4)
    requires OccursAt(s, a, "://")
    ensures s[n..a + 3] == Scheme(secure)
  {
    SliceSplit(s, n, a, a + 3);
    if secure {
      SliceSplit(s, n, n + 4, a);
      assert Scheme(secure) == "http" + "s" + "://";
    } else {
      assert Scheme(secure) == "http" + "://";
    }
  }

  lemma HostHead(s: string, m: nat, b: nat, www: bool)
    requires (www && b == m + 4 && OccursAt(s, m, "www.")) || (!www && b == m)
    requires OccursAt(s, b, "credly.com/badges/")
    ensures s[m..b + 18] == Host(www)
  {
    if www {
      SliceSplit(s, m, b, b + 18);
      assert Host(www) == "www." + "credly.com/badges/";
    }
  }

  /** A head followed by a run of id characters up to `e`. */
  lemma UrlHasForm(s: string, i: nat, m: nat, e: nat, secure: bool, www: bool)
    requires i <= m < e <= |s| && s[i..m] == Scheme(secure) + Host(www)
    requires forall k :: m <= k < e ==> IsIdChar(s[k])
    ensures HasForm(s[i..e], secure, www)
  {
    assert s[i..e][..m - i] == s[i..m];
  }

  // ---------------------------------------------------------------------
  // The turn
  // ---------------------------------------------------------------------

  /** How Python prints the points: 10 and 5 as integers, 2.5 with its
      fraction, and the default 0 as "0". */
  function PointsText(halfPoints: nat): string {
    if halfPoints % 2 == 0 then NatText(halfPoints / 2) else NatText(halfPoints / 2) + ".5"
  }

  /** `points_data.get("points", 0)`, in half-points. */
  function PointsOf(r: PointsReply): nat {
    match r
    case Points(_, h) => h
    case DbError(_) => 0
  }

  const Apology := "Sorry"

  function ExpiredReply(halfPoints: nat, certName: string): string {
    Apology + ", your cert has expired. So you won't get any credit points. But otherwise you would have stood to obtain "
      + PointsText(halfPoints) + " credit points for your " + certName
  }

  function ValidReply(certName: string, halfPoints: nat): string {
    "I see that this is a " + certName + ". And it is still valid. So you can be granted "
      + PointsText(halfPoints) + " credit points for it."
  }

  function HypotheticalReply(halfPoints: nat): string {
    "You will get " + PointsText(halfPoints) + " credit points for that cert."
  }

  function ErrorText(error: string): string {
    "I encountered an error: " + error
  }

  /** What the node returns: the state itself when there are no messages,
      only the new message list after a tool error, or every field. */
  datatype NodeResult =
    | Unchanged
    | ErrorReply(messages: seq<Message>)
    | Update(messages: seq<Message>, certData: CertData, creditHalfPoints: nat, certName: string, isValid: bool)

  /** `agent_node(state)`. */
  function AgentNode(messages: seq<Message>, scrape: string -> CertData, llm: Message -> string,
                     db: DbStatus, today: Date): NodeResult
  {
    if messages == [] then Unchanged
    else
      var last := messages[|messages| - 1];
      match FirstBadgeUrl(last.content)
      case Some(url) => BadgeTurn(messages, scrape(url), db, today)
      case None => QueryTurn(messages, Strip(llm(last)), db)
  }

  /** The rest of the turn once the tool has scraped the badge page. */
  function BadgeTurn(messages: seq<Message>, data: CertData, db: DbStatus, today: Date): NodeResult {
    if data.error.Some? then ErrorReply(messages + [Message(Ai, ErrorText(data.error.value))])
    else
      var valid := CheckValidity(data, today);
      var certName := data.name.GetOr("Unknown");
      var points := PointsOf(GetCertificationPoints(certName, db));
      var response := if !valid then ExpiredReply(points, certName) else ValidReply(certName, points);
      Update(messages + [Message(Ai, response)], data, if valid then points else 0, certName, valid)
  }

  /** The rest of the turn once the model has named a certification. */
  function QueryTurn(messages: seq<Message>, extracted: string, db: DbStatus): NodeResult {
    var points := PointsOf(GetCertificationPoints(extracted, db));
    Update(messages + [Message(Ai, HypotheticalReply(points))], NoCertData, points, extracted, true)
  }

  /** The reply of a turn, when there is one. */
  function LastReply(r: NodeResult): string
    requires !r.Unchanged? && r.messages != []
  {
    r.messages[|r.messages| - 1].content
  }

  /** Whether a reply starts with "Sorry". */
  predicate Apologises(reply: string) {
    |Apology| <= |reply| && reply[..|Apology|] == Apology
  }

  /** The turn keeps the history and adds one message of the agent. */
  predicate AppendsReply(messages: seq<Message>, r: NodeResult) {
    !r.Unchanged? && |r.messages| == |messages| + 1
    && r.messages[..|messages|] == messages && r.messages[|messages|].role == Ai
  }

  /** Without messages nothing happens; otherwise the history is kept and
      exactly one message of the agent is added. */
  lemma AgentKeepsHistory(messages: seq<Message>, scrape: string -> CertData, llm: Message -> string,
                          db: DbStatus, today: Date)
    ensures var r := AgentNode(messages, scrape, llm, db, today);
            (r.Unchanged? <==> messages == []) && (messages != [] ==> AppendsReply(messages, r))
  {
    if messages != [] {
      var last := messages[|messages| - 1];
      match FirstBadgeUrl(last.content)
      case Some(url) => BadgeTurnAppends(messages, scrape(url), db, today);
      case None => QueryTurnAppends(messages, Strip(llm(last)), db);
    }
  }

  lemma BadgeTurnAppends(messages: seq<Message>, data: CertData, db: DbStatus, today: Date)
    ensures AppendsReply(messages, BadgeTurn(messages, data, db, today))
  {
    var r := BadgeTurn(messages, data, db, today);
    assert r.messages[..|messages|] == messages;
  }

  lemma QueryTurnAppends(messages: seq<Message>, extracted: string, db: DbStatus)
    ensures AppendsReply(messages, QueryTurn(messages, extracted, db))
  {
    var r := QueryTurn(messages, extracted, db);
    assert r.messages[..|messages|] == messages;
  }

  /** A tool error stops the turn: the only change is the error message. */
  lemma AgentToolError(messages: seq<Message>, scrape: string -> CertData, llm: Message -> string,
                       db: DbStatus, today: Date)
    requires messages != []
    requires FirstBadgeUrl(messages[|messages| - 1].content).Some?
    requires scrape(FirstBadgeUrl(messages[|messages| - 1].content).value).error.Some?
    ensures var r := AgentNode(messages, scrape, llm, db, today);
            var error := scrape(FirstBadgeUrl(messages[|messages| - 1].content).value).error.value;
            r.ErrorReply? && r.messages == messages + [Message(Ai, "I encountered an error: " + error)]
  {
  }

  /** A scraper that raises: the tool's `{"error": message}` is reported in
      the reply and nothing else is set. */
  lemma AgentScraperRaises(messages: seq<Message>, message: string, llm: Message -> string,
                           db: DbStatus, today: Date)
    requires messages != []
    requires FirstBadgeUrl(messages[|messages| - 1].content).Some?
    ensures var r := AgentNode(messages, (url: string) => ToolError(message), llm, db, today);
            r.ErrorReply? && LastReply(r) == "I encountered an error: " + message
  {
    var data := ToolError(message);
    assert AgentNode(messages, (url: string) => data, llm, db, today) == BadgeTurn(messages, data, db, today);
  }

  /** For a badge URL: the verdict is the validity check of the scraped
      data, the name is its "Name" or "Unknown", and the credit is the tier
      points of that name when valid (0 if the database fails) and 0 when
      expired. */
  lemma AgentCredit(messages: seq<Message>, scrape: string -> CertData, llm: Message -> string,
                    db: DbStatus, today: Date)
    requires messages != []
    requires FirstBadgeUrl(messages[|messages| - 1].content).Some?
    requires scrape(FirstBadgeUrl(messages[|messages| - 1].content).value).error.None?
    ensures var data := scrape(FirstBadgeUrl(messages[|messages| - 1].content).value);
            var r := AgentNode(messages, scrape, llm, db, today);
            r.Update? && r.certData == data
            && r.isValid == CheckValidity(data, today)
            && r.certName == (if data.name.Some? then data.name.value else "Unknown")
            && (r.isValid && db.DbReady? ==> r.creditHalfPoints == HalfPoints(Classify(r.certName)))
            && (r.isValid && db.DbFailed? ==> r.creditHalfPoints == 0)
            && (!r.isValid ==> r.creditHalfPoints == 0)
  {
    var data := scrape(FirstBadgeUrl(messages[|messages| - 1].content).value);
    assert AgentNode(messages, scrape, llm, db, today) == BadgeTurn(messages, data, db, today);
    BadgeTurnCredit(messages, data, db, today);
  }

  lemma BadgeTurnCredit(messages: seq<Message>, data: CertData, db: DbStatus, today: Date)
    requires data.error.None?
    ensures var r := BadgeTurn(messages, data, db, today);
            r.Update? && r.certData == data
            && r.isValid == CheckValidity(data, today)
            && r.certName == (if data.name.Some? then data.name.value else "Unknown")
            && (r.isValid && db.DbReady? ==> r.creditHalfPoints == HalfPoints(Classify(r.certName)))
            && (r.isValid && db.DbFailed? ==> r.creditHalfPoints == 0)
            && (!r.isValid ==> r.creditHalfPoints == 0)
  {
    var valid := CheckValidity(data, today);
    var certName := data.name.GetOr("Unknown");
    var points := PointsOf(GetCertificationPoints(certName, db));
    var response := if !valid then ExpiredReply(points, certName) else ValidReply(certName, points);
    assert BadgeTurn(messages, data, db, today)
        == Update(messages + [Message(Ai, response)], data, if valid then points else 0, certName, valid);
    PointsOfName(certName, db);
  }

  /** The points the agent reads from the tool's reply. */
  lemma PointsOfName(name: string, db: DbStatus)
    ensures db.DbReady? ==> PointsOf(GetCertificationPoints(name, db)) == HalfPoints(Classify(name))
    ensures db.DbFailed? ==> PointsOf(GetCertificationPoints(name, db)) == 0
  {
  }

  /** The credit is always 0, 2.5, 5 or 10 points. */
  lemma AgentCreditValues(messages: seq<Message>, scrape: string -> CertData, llm: Message -> string,
                          db: DbStatus, today: Date)
    ensures var r := AgentNode(messages, scrape, llm, db, today);
            r.Update? ==> r.creditHalfPoints in {0, 5, 10, 20}
  {
  }

  /** For a badge URL the reply apologises exactly when the certification
      has expired. */
  lemma AgentApologisesIffExpired(messages: seq<Message>, scrape: string -> CertData, llm: Message -> string,
                                  db: DbStatus, today: Date)
    requires messages != []
    requires FirstBadgeUrl(messages[|messages| - 1].content).Some?
    ensures var r := AgentNode(messages, scrape, llm, db, today);
            r.Update? ==> (Apologises(LastReply(r)) <==> !r.isValid)
  {
    var data := scrape(FirstBadgeUrl(messages[|messages| - 1].content).value);
    assert AgentNode(messages, scrape, llm, db, today) == BadgeTurn(messages, data, db, today);
    var r := BadgeTurn(messages, data, db, today);
    if r.Update? {
      ReplyOpenings(PointsOf(GetCertificationPoints(r.certName, db)), r.certName);
    }
  }

  lemma PrefixAppend(a: string, b: string, n: nat)
    requires n <= |a|
    ensures (a + b)[..n] == a[..n]
  {
  }

  /** Only the expired reply starts with "Sorry". */
  lemma ReplyOpenings(halfPoints: nat, certName: string)
    ensures Apologises(ExpiredReply(halfPoints, certName))
    ensures !Apologises(ValidReply(certName, halfPoints))
    ensures !Apologises(HypotheticalReply(halfPoints))
  {
    ExpiredOpening(halfPoints, certName);
    OtherOpenings(halfPoints, certName);
  }

  lemma ExpiredOpening(halfPoints: nat, certName: string)
    ensures Apologises(ExpiredReply(halfPoints, certName))
  {
    var opening := Apology + ", your cert has expired. So you won't get any credit points. But otherwise you would have stood to obtain ";
    var a := opening + PointsText(halfPoints);
    var b := a + " credit points for your ";
    PrefixAppend(Apology, ", your cert has expired. So you won't get any credit points. But otherwise you would have stood to obtain ", 5);
    PrefixAppend(opening, PointsText(halfPoints), 5);
    PrefixAppend(a, " credit points for your ", 5);
    PrefixAppend(b, certName, 5);
  }

  lemma OtherOpenings(halfPoints: nat, certName: string)
    ensures !Apologises(ValidReply(certName, halfPoints))
    ensures !Apologises(HypotheticalReply(halfPoints))
  {
    assert ValidReply(certName, halfPoints)[0] == 'I';
    assert HypotheticalReply(halfPoints)[0] == 'Y';
  }

  /** Without a badge URL the model's answer, stripped, is classified, the
      result is always reported valid, and the certification data is `{}`. */
  lemma AgentNoUrl(messages: seq<Message>, scrape: string -> CertData, llm: Message -> string,
                   db: DbStatus, today: Date)
    requires messages != []
    requires FirstBadgeUrl(messages[|messages| - 1].content).None?
    ensures var r := AgentNode(messages, scrape, llm, db, today);
            var name := Strip(llm(messages[|messages| - 1]));
            r.Update? && r.isValid && r.certData == NoCertData && r.certName == name
            && r.creditHalfPoints == PointsOf(GetCertificationPoints(name, db))
            && LastReply(r) == "You will get " + PointsText(r.creditHalfPoints) + " credit points for that cert."
  {
  }

  /** A failed `scrape_credly` run carries its message under "Error", not
      "error": were it handed to the agent, the agent would not report it
      but read the empty certification list as an expired certification
      named "N/A", worth no credit. */
  lemma ScrapeFailureReadsAsExpired(messages: seq<Message>, reason: string, llm: Message -> string,
                                    db: DbStatus, today: Date)
    requires messages != []
    requires FirstBadgeUrl(messages[|messages| - 1].content).Some?
    ensures var failed := FromScrape(ScrapeResult(NotAvailable, [], Some(reason)));
            var r := AgentNode(messages, (url: string) => failed, llm, db, today);
            r.Update? && !r.isValid && r.creditHalfPoints == 0 && r.certName == "N/A"
  {
    var failed := FromScrape(ScrapeResult(NotAvailable, [], Some(reason)));
    var scrape := (url: string) => failed;
    AgentBadgeTurn(messages, scrape, llm, db, today);
    ValidityNeedsCertifications(failed, today);
    BadgeTurnCredit(messages, failed, db, today);
  }

  /** With a badge URL the turn goes on with what the tool scraped from it. */
  lemma AgentBadgeTurn(messages: seq<Message>, scrape: string -> CertData, llm: Message -> string,
                       db: DbStatus, today: Date)
    requires messages != []
    requires FirstBadgeUrl(messages[|messages| - 1].content).Some?
    ensures AgentNode(messages, scrape, llm, db, today)
            == BadgeTurn(messages, scrape(FirstBadgeUrl(messages[|messages| - 1].content).value), db, today)
  {
  }

  /** The points as the replies print them. */
  lemma PointsTextExamples()
    ensures PointsText(20) == "10" && PointsText(10) == "5" && PointsText(5) == "2.5" && PointsText(0) == "0"
  {
    assert NatText(10) == NatText(1) + [DigitChar(0)];
  }

  /** The first example query of the program: the badge URL is found and
      stops before the question mark. */
  lemma ExampleQueryUrl()
    ensures FirstBadgeUrl("How many credit points can I get for " + ("https://www.credly.com/badges/"
                          + "e192db17-f8c5-46aa-8f99-8a565223f1d6") + "?")
            == Some("https://www.credly.com/badges/" + "e192db17-f8c5-46aa-8f99-8a565223f1d6")
  {
    var id := "e192db17-f8c5-46aa-8f99-8a565223f1d6";
    ExampleParts();
    UrlAfterPrefix("How many credit points can I get for ", true, true, id, "?");
  }

  /** The second example query: "What" holds an 'h' but no "http", and the
      URL stops before the space. */
  lemma SecondQueryUrl()
    ensures FirstBadgeUrl("What about " + ("https://www.credly.com/badges/"
                          + "90ee2ee9-f6cf-4d9b-8a52-f631d8644d58") + " ?")
            == Some("https://www.credly.com/badges/" + "90ee2ee9-f6cf-4d9b-8a52-f631d8644d58")
  {
    var id := "90ee2ee9-f6cf-4d9b-8a52-f631d8644d58";
    SecondQueryParts();
    UrlAfterPrefix("What about ", true, true, id, " ?");
  }

  lemma SecondQueryParts()
    ensures !Contains("What about ", "http")
    ensures var id := "90ee2ee9-f6cf-4d9b-8a52-f631d8644d58";
            id != [] && forall k :: 0 <= k < |id| ==> IsIdChar(id[k])
    ensures BadgeUrl(true, true, "90ee2ee9-f6cf-4d9b-8a52-f631d8644d58")
            == "https://www.credly.com/badges/" + "90ee2ee9-f6cf-4d9b-8a52-f631d8644d58"
  {
    NotContainsChar("What about ", "http", 3);
    SecondQueryId();
    SecondQueryBadgeUrl();
  }

  lemma SecondQueryId()
    ensures var id := "90ee2ee9-f6cf-4d9b-8a52-f631d8644d58";
            id != [] && forall k :: 0 <= k < |id| ==> IsIdChar(id[k])
  {
  }

  lemma SecondQueryBadgeUrl()
    ensures BadgeUrl(true, true, "90ee2ee9-f6cf-4d9b-8a52-f631d8644d58")
            == "https://www.credly.com/badges/" + "90ee2ee9-f6cf-4d9b-8a52-f631d8644d58"
  {
    assert Scheme(true) + Host(true) == "https://www.credly.com/badges/";
  }

  lemma ExampleParts()
    ensures !Contains("How many credit points can I get for ", "http")
    ensures var id := "e192db17-f8c5-46aa-8f99-8a565223f1d6";
            id != [] && forall k :: 0 <= k < |id| ==> IsIdChar(id[k])
    ensures BadgeUrl(true, true, "e192db17-f8c5-46aa-8f99-8a565223f1d6")
            == "https://www.credly.com/badges/" + "e192db17-f8c5-46aa-8f99-8a565223f1d6"
  {
    ExamplePrefix();
    ExampleId();
    ExampleBadgeUrl();
  }

  lemma ExamplePrefix()
    ensures !Contains("How many credit points can I get for ", "http")
  {
    NotContainsChar("How many credit points can I get for ", "http", 0);
  }

  lemma ExampleId()
    ensures var id := "e192db17-f8c5-46aa-8f99-8a565223f1d6";
            id != [] && forall k :: 0 <= k < |id| ==> IsIdChar(id[k])
  {
  }

  lemma ExampleBadgeUrl()
    ensures BadgeUrl(true, true, "e192db17-f8c5-46aa-8f99-8a565223f1d6")
            == "https://www.credly.com/badges/" + "e192db17-f8c5-46aa-8f99-8a565223f1d6"
  {
    assert Scheme(true) + Host(true) == "https://www.credly.com/badges/";
  }
}
