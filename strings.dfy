/** The few Python `str` operations the certification code relies on:
    `lower()`, the `in` substring test, `strip()`, `split(sep)` and `split()`. */
module Strings {

  /** Python's notion of whitespace (`str.isspace`, the `\s` class of a `str`
      regular expression, and what `strip()` and `split()` remove). */
  predicate IsSpace(c: char) {
    c == ' ' || ('\t' <= c <= '\r') || ('\U{1C}' <= c <= '\U{1F}')
    || c == '\U{85}' || c == '\U{A0}' || c == '\U{1680}'
    || ('\U{2000}' <= c <= '\U{200A}') || c == '\U{2028}' || c == '\U{2029}'
    || c == '\U{202F}' || c == '\U{205F}' || c == '\U{3000}'
  }

  /** The ASCII part of the `\d` class. */
  predicate IsDigit(c: char) {
    '0' <= c <= '9'
  }

  /** The ASCII part of the `\w` class: letters, digits and the underscore. */
  predicate IsWordChar(c: char) {
    ('a' <= c <= 'z') || ('A' <= c <= 'Z') || IsDigit(c) || c == '_'
  }

  function LowerChar(c: char): (r: char)
    ensures !('A' <= r <= 'Z')
    ensures ('A' <= c <= 'Z') || r == c
  {
    if 'A' <= c <= 'Z' then (c as int + 32) as char else c
  }

  /** `s.lower()` on the letters A-Z. */
  function Lower(s: string): (r: string)
    ensures |r| == |s|
  {
    seq(|s|, i requires 0 <= i < |s| => LowerChar(s[i]))
  }

  /** Lower-casing twice is lower-casing once. */
  lemma LowerIdempotent(s: string)
    ensures Lower(Lower(s)) == Lower(s)
  {
    forall i | 0 <= i < |s|
      ensures Lower(Lower(s))[i] == Lower(s)[i]
    {
      assert Lower(s)[i] == LowerChar(s[i]);
    }
  }

  /** `w` occurs at position `i` of `s`. */
  predicate OccursAt(s: string, i: int, w: string) {
    0 <= i && i + |w| <= |s| && s[i..i + |w|] == w
  }

  /** Python's `w in s` for two strings. */
  predicate Contains(s: string, w: string) {
    exists i :: 0 <= i <= |s| && OccursAt(s, i, w)
  }

  /** Lower-casing works character by character, so it distributes over `+`. */
  lemma LowerAppend(a: string, b: string)
    ensures Lower(a + b) == Lower(a) + Lower(b)
  {
    forall i | 0 <= i < |a| + |b|
      ensures Lower(a + b)[i] == (Lower(a) + Lower(b))[i]
    {
      if i < |a| {
        assert (a + b)[i] == a[i];
      } else {
        assert (a + b)[i] == b[i - |a|];
      }
    }
  }

  /** A lower-case letter is absent from `s.lower()` when neither it nor its
      capital occurs in `s`. */
  lemma LowerAvoids(s: string, c: char)
    requires 'a' <= c <= 'z'
    requires c !in s && (c as int - 32) as char !in s
    ensures c !in Lower(s)
  {
  }

  /** A text that has `w` somewhere still has it after text is added on
      either side. */
  lemma ContainsExtend(a: string, w: string, b: string)
    requires Contains(a, w)
    ensures Contains(a + b, w) && Contains(b + a, w)
  {
    var i :| 0 <= i <= |a| && OccursAt(a, i, w);
    assert (a + b)[i..i + |w|] == a[i..i + |w|];
    assert OccursAt(a + b, i, w);
    assert (b + a)[|b| + i..|b| + i + |w|] == a[i..i + |w|];
    assert OccursAt(b + a, |b| + i, w);
  }

  /** `w in s` fails when some character of `w` is not in `s`. */
  lemma NotContainsChar(s: string, w: string, j: nat)
    requires j < |w| && w[j] !in s
    ensures !Contains(s, w)
  {
  }

  /** The end of the run of characters satisfying `p` that starts at `i`. */
  function RunEnd(s: string, i: nat, p: char -> bool): (j: nat)
    requires i <= |s|
    ensures i <= j <= |s|
    ensures forall k {:trigger p(s[k])} :: i <= k < j ==> p(s[k])
    ensures j == |s| || !p(s[j])
    decreases |s| - i
  {
    if i < |s| && p(s[i]) then RunEnd(s, i + 1, p) else i
  }

  /** A run that is known to stop at `j` ends there. */
  lemma RunEndAt(s: string, i: nat, j: nat, p: char -> bool)
    requires i <= j <= |s|
    requires forall k :: i <= k < j ==> p(s[k])
    requires j == |s| || !p(s[j])
    ensures RunEnd(s, i, p) == j
  {
  }

  /** A slice is its two halves put together. */
  lemma SliceSplit(s: string, i: nat, j: nat, k: nat)
    requires i <= j <= k <= |s|
    ensures s[i..k] == s[i..j] + s[j..k]
  {
  }

  /** A slice equal to `t` has the characters of `t`. */
  lemma SliceAll(s: string, i: nat, j: nat, t: string, p: char -> bool)
    requires i <= j <= |s| && s[i..j] == t
    requires forall k :: 0 <= k < |t| ==> p(t[k])
    ensures forall k :: i <= k < j ==> p(s[k])
  {
    forall k | i <= k < j ensures p(s[k]) {
      assert s[k] == t[k - i];
    }
  }

  /** Everything of `s` from its first non-whitespace character on (`lstrip()`). */
  function StripStart(s: string): (r: string)
    ensures |r| <= |s|
    ensures r == [] || !IsSpace(r[0])
  {
    if s != [] && IsSpace(s[0]) then StripStart(s[1..]) else s
  }

  /** `lstrip()` removes a run of whitespace from the front and nothing else. */
  lemma {:induction false} StripStartSpec(s: string)
    ensures StripStart(s) == s[|s| - |StripStart(s)|..]
    ensures forall j :: 0 <= j < |s| - |StripStart(s)| ==> IsSpace(s[j])
  {
    if s != [] && IsSpace(s[0]) {
      StripStartSpec(s[1..]);
    }
  }

  /** Everything of `s` up to its last non-whitespace character (`rstrip()`). */
  function StripEnd(s: string): (r: string)
    ensures |r| <= |s|
    ensures r == [] || !IsSpace(r[|r| - 1])
  {
    if s != [] && IsSpace(s[|s| - 1]) then StripEnd(s[..|s| - 1]) else s
  }

  /** `rstrip()` removes a run of whitespace from the back and nothing else. */
  lemma {:induction false} StripEndSpec(s: string)
    ensures StripEnd(s) == s[..|StripEnd(s)|]
    ensures forall j :: |StripEnd(s)| <= j < |s| ==> IsSpace(s[j])
  {
    if s != [] && IsSpace(s[|s| - 1]) {
      StripEndSpec(s[..|s| - 1]);
    }
  }

  /** Python's `s.strip()`. */
  function Strip(s: string): string {
    StripEnd(StripStart(s))
  }

  /** `s.strip()` neither starts nor ends with whitespace, and it is empty
      exactly when `s` is all whitespace. */
  lemma StripSpec(s: string)
    ensures Strip(s) == [] || (!IsSpace(Strip(s)[0]) && !IsSpace(Strip(s)[|Strip(s)| - 1]))
    ensures Strip(s) == [] <==> forall j :: 0 <= j < |s| ==> IsSpace(s[j])
  {
    var t := StripStart(s);
    StripStartSpec(s);
    StripEndSpec(t);
    if Strip(s) == [] {
      assert t == [];
    } else {
      assert t != [] && Strip(s)[0] == t[0];
      assert !IsSpace(s[|s| - |t|]);
    }
  }

  /** Every character of `s` that is not whitespace, in order. */
  function NonSpace(s: string): string {
    if s == [] then [] else (if IsSpace(s[0]) then [] else [s[0]]) + NonSpace(s[1..])
  }

  lemma {:induction false} NonSpaceAppend(a: string, b: string)
    ensures NonSpace(a + b) == NonSpace(a) + NonSpace(b)
  {
    if a != [] {
      assert (a + b)[1..] == a[1..] + b;
      NonSpaceAppend(a[1..], b);
    } else {
      assert a + b == b;
    }
  }

  lemma {:induction false} NonSpaceAllSpace(s: string)
    requires forall j :: 0 <= j < |s| ==> IsSpace(s[j])
    ensures NonSpace(s) == []
  {
    if s != [] { NonSpaceAllSpace(s[1..]); }
  }

  lemma {:induction false} NonSpaceNoSpace(s: string)
    requires forall j :: 0 <= j < |s| ==> !IsSpace(s[j])
    ensures NonSpace(s) == s
  {
    if s != [] { NonSpaceNoSpace(s[1..]); }
  }

  /** The index of the first whitespace character of `s`, or `|s|`. */
  function FirstSpace(s: string): (k: nat)
    ensures k <= |s|
    ensures forall j :: 0 <= j < k ==> !IsSpace(s[j])
    ensures k == |s| || IsSpace(s[k])
  {
    if s == [] || IsSpace(s[0]) then 0 else 1 + FirstSpace(s[1..])
  }

  function Concat(ws: seq<string>): string {
    if ws == [] then [] else ws[0] + Concat(ws[1..])
  }

  /** Python's `s.split()`: the maximal runs of non-whitespace characters. */
  function SplitWords(s: string): (ws: seq<string>)
    ensures forall w :: w in ws ==> w != [] && forall j :: 0 <= j < |w| ==> !IsSpace(w[j])
    decreases |s|
  {
    var t := StripStart(s);
    if t == [] then []
    else
      var k := FirstSpace(t);
      [t[..k]] + SplitWords(t[k..])
  }

  /** Together, in order, the words of `s.split()` hold exactly the
      non-whitespace characters of `s`. */
  lemma {:induction false} SplitWordsConcat(s: string)
    ensures Concat(SplitWords(s)) == NonSpace(s)
    decreases |s|
  {
    var t := StripStart(s);
    NonSpaceStripStart(s);
    if t != [] {
      var k := FirstSpace(t);
      var ws := SplitWords(t[k..]);
      assert SplitWords(s) == [t[..k]] + ws;
      assert ([t[..k]] + ws)[1..] == ws;
      SplitWordsConcat(t[k..]);
      NonSpaceFirstWord(t);
    }
  }

  lemma NonSpaceStripStart(s: string)
    ensures NonSpace(StripStart(s)) == NonSpace(s)
  {
    var t := StripStart(s);
    StripStartSpec(s);
    var lead := s[..|s| - |t|];
    assert s == lead + t;
    NonSpaceAppend(lead, t);
    NonSpaceAllSpace(lead);
  }

  lemma NonSpaceFirstWord(t: string)
    ensures NonSpace(t) == t[..FirstSpace(t)] + NonSpace(t[FirstSpace(t)..])
  {
    var k := FirstSpace(t);
    assert t == t[..k] + t[k..];
    NonSpaceAppend(t[..k], t[k..]);
    NonSpaceNoSpace(t[..k]);
  }

  predicate AllSpace(s: string) {
    forall j :: 0 <= j < |s| ==> IsSpace(s[j])
  }

  /** A word as `split()` returns it: non-empty, without whitespace. */
  predicate IsWord(w: string) {
    w != [] && forall j :: 0 <= j < |w| ==> !IsSpace(w[j])
  }

  /** The words `ws`, each preceded by its whitespace gap. */
  function Spaced(gaps: seq<string>, ws: seq<string>): string
    requires |gaps| == |ws|
  {
    if ws == [] then [] else gaps[0] + ws[0] + Spaced(gaps[1..], ws[1..])
  }

  /** `split()` gives back the words of a text made of words separated by
      non-empty whitespace runs, with any whitespace before the first word
      and after the last. */
  lemma {:induction false} SplitWordsSpaced(gaps: seq<string>, ws: seq<string>, tail: string)
    requires |gaps| == |ws|
    requires forall i :: 0 <= i < |ws| ==> IsWord(ws[i])
    requires forall i :: 0 <= i < |gaps| ==> AllSpace(gaps[i])
    requires forall i :: 0 < i < |gaps| ==> gaps[i] != []
    requires AllSpace(tail)
    ensures SplitWords(Spaced(gaps, ws) + tail) == ws
    decreases |ws|
  {
    if ws == [] {
      assert Spaced(gaps, ws) + tail == tail + [];
      StripStartSkip(tail, []);
    } else {
      var rest := Spaced(gaps[1..], ws[1..]) + tail;
      assert Spaced(gaps, ws) + tail == gaps[0] + ws[0] + rest;
      if ws[1..] != [] {
        assert gaps[1..][0] == gaps[1];
        assert rest[0] == gaps[1][0];
      }
      SplitWordsStep(gaps[0], ws[0], rest);
      SplitWordsSpaced(gaps[1..], ws[1..], tail);
    }
  }

  /** One step of `split()`: skip a gap, take a word up to the next space. */
  lemma SplitWordsStep(g: string, w: string, rest: string)
    requires AllSpace(g) && IsWord(w)
    requires rest == [] || IsSpace(rest[0])
    ensures SplitWords(g + w + rest) == [w] + SplitWords(rest)
  {
    var t := w + rest;
    assert g + w + rest == g + t;
    StripStartSkip(g, t);
    FirstSpaceAfterWord(w, rest);
    assert t[..|w|] == w && t[|w|..] == rest;
  }

  lemma {:induction false} StripStartSkip(g: string, r: string)
    requires AllSpace(g)
    requires r == [] || !IsSpace(r[0])
    ensures StripStart(g + r) == r
  {
    if g != [] {
      assert (g + r)[0] == g[0];
      assert (g + r)[1..] == g[1..] + r;
      StripStartSkip(g[1..], r);
    } else {
      assert g + r == r;
    }
  }

  lemma {:induction false} FirstSpaceAfterWord(w: string, r: string)
    requires forall j :: 0 <= j < |w| ==> !IsSpace(w[j])
    requires r == [] || IsSpace(r[0])
    ensures FirstSpace(w + r) == |w|
  {
    if w != [] {
      assert (w + r)[0] == w[0];
      assert (w + r)[1..] == w[1..] + r;
      FirstSpaceAfterWord(w[1..], r);
    } else {
      assert w + r == r;
    }
  }

  /** Python's `xs[n:]`: empty when `xs` is shorter than `n`. */
  function Drop<T>(xs: seq<T>, n: nat): (r: seq<T>)
    ensures |xs| <= n ==> r == []
    ensures n < |xs| ==> |r| == |xs| - n && forall j :: 0 <= j < |r| ==> r[j] == xs[n + j]
  {
    if |xs| <= n then [] else xs[n..]
  }

  /** Python's `xs[:n]`. */
  function Take<T>(xs: seq<T>, n: nat): (r: seq<T>)
    ensures |r| == if |xs| < n then |xs| else n
    ensures forall j :: 0 <= j < |r| ==> r[j] == xs[j]
  {
    if |xs| <= n then xs else xs[..n]
  }

  /** The index of the first `c` in `s`. */
  function IndexOf(s: string, c: char): (i: nat)
    requires c in s
    ensures i < |s| && s[i] == c && c !in s[..i]
  {
    if s[0] == c then 0 else
      assert c in s[1..] by { assert s == [s[0]] + s[1..]; }
      1 + IndexOf(s[1..], c)
  }

  /** Python's `s.split(sep)` for a one-character separator. */
  function Split(s: string, sep: char): (parts: seq<string>)
    ensures |parts| >= 1
    ensures forall p :: p in parts ==> sep !in p
    decreases |s|
  {
    if sep !in s then [s]
    else
      var i := IndexOf(s, sep);
      [s[..i]] + Split(s[i + 1..], sep)
  }

  /** Python's `sep.join(parts)`. */
  function Join(parts: seq<string>, sep: char): string
    requires |parts| >= 1
  {
    if |parts| == 1 then parts[0] else parts[0] + [sep] + Join(parts[1..], sep)
  }

  lemma JoinCons(a: string, rest: seq<string>, sep: char)
    requires |rest| >= 1
    ensures Join([a] + rest, sep) == a + [sep] + Join(rest, sep)
  {
    assert ([a] + rest)[1..] == rest;
  }

  /** Splitting and joining again gives back the text. */
  lemma {:induction false} JoinSplit(s: string, sep: char)
    ensures Join(Split(s, sep), sep) == s
    decreases |s|
  {
    if sep in s {
      var i := IndexOf(s, sep);
      JoinCons(s[..i], Split(s[i + 1..], sep), sep);
      JoinSplit(s[i + 1..], sep);
      assert s == s[..i] + [sep] + s[i + 1..];
    }
  }

  /** `s.split(sep)` has one part more than `s` has separators. */
  lemma {:induction false} SplitCount(s: string, sep: char)
    ensures |Split(s, sep)| == multiset(s)[sep] + 1
    decreases |s|
  {
    if sep in s {
      var i := IndexOf(s, sep);
      var rest := s[i + 1..];
      assert |Split(s, sep)| == 1 + |Split(rest, sep)|;
      SplitCount(rest, sep);
      MultisetCut(s, i);
      assert multiset(s[..i])[sep] == 0;
    } else {
      assert multiset(s)[sep] == 0;
    }
  }

  lemma MultisetCut(s: string, i: nat)
    requires i < |s|
    ensures multiset(s) == multiset(s[..i]) + multiset{s[i]} + multiset(s[i + 1..])
  {
    assert s == s[..i] + [s[i]] + s[i + 1..];
  }
}
