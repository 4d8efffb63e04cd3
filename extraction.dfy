/*
 * Address extraction from cleaned text (find_emails.py:
 * extract_emails_from_text): a loose `findall` over the text, the
 * candidates the validator accepts, and a fallback to the whole text.
 */
module Extraction {
  import opened Strings
  import opened EmailSyntax

  /** `[\w.-]`, a character of either side of a loose address. */
  predicate IsLooseChar(c: char) {
    IsWordChar(c) || c == '.' || c == '-'
  }

  /** End of the run of loose characters starting at `i`. */
  function LooseRunEnd(t: string, i: nat): (k: nat)
    requires i <= |t|
    ensures i <= k <= |t|
    ensures forall j :: i <= j < k ==> IsLooseChar(t[j])
    ensures k < |t| ==> !IsLooseChar(t[k])
    decreases |t| - i
  {
    if i < |t| && IsLooseChar(t[i]) then LooseRunEnd(t, i + 1) else i
  }

  /** End of the run of word characters starting at `i`. */
  function WordRunEnd(t: string, i: nat): (k: nat)
    requires i <= |t|
    ensures i <= k <= |t|
    ensures forall j :: i <= j < k ==> IsWordChar(t[j])
    ensures k < |t| ==> !IsWordChar(t[k])
    decreases |t| - i
  {
    if i < |t| && IsWordChar(t[i]) then WordRunEnd(t, i + 1) else i
  }

  /** A dot followed by a word character: where `\.\w+` can start. */
  predicate DotWordAt(t: string, j: int) {
    0 <= j && j + 1 < |t| && t[j] == '.' && IsWordChar(t[j + 1])
  }

  /** The greedy `[\w.-]+` before `\.\w+` gives back characters from the
      right: the dot chosen is the last one in `[lo, hi - 2]` that is
      followed by a word character. */
  function DomainDot(t: string, lo: nat, hi: nat): (r: Option<nat>)
    requires hi <= |t|
    ensures r.Some? ==> lo <= r.value && r.value + 2 <= hi && DotWordAt(t, r.value)
    ensures r.Some? ==> forall j :: r.value < j && j + 2 <= hi ==> !DotWordAt(t, j)
    ensures r.None? ==> forall j :: lo <= j && j + 2 <= hi ==> !DotWordAt(t, j)
    decreases hi
  {
    if hi < lo + 2 then None
    else if DotWordAt(t, hi - 2) then Some(hi - 2)
    else DomainDot(t, lo, hi - 1)
  }

  /** `[\w.-]+@[\w.-]+\.\w+` tried at `s`: the end of the match, if any.
      The first run cannot give anything back, since `@` is not a loose
      character; the domain run backtracks to its last usable dot, and the
      final `\w+` takes the whole word run after that dot. */
  function LooseMatch(t: string, s: nat): (e: Option<nat>)
    requires s < |t|
    ensures e.Some? ==> s < e.value <= |t| && '@' in t
  {
    var r1 := LooseRunEnd(t, s);
    if r1 == s || r1 == |t| || t[r1] != '@' then None
    else
      assert t[r1] in t;
      var r2 := LooseRunEnd(t, r1 + 1);
      match DomainDot(t, r1 + 2, r2)
      case None => None
      case Some(j) => Some(WordRunEnd(t, j + 1))
  }

  /** `re.finditer` from `i`: the spans of the leftmost, non-overlapping
      matches, in order. */
  function MatchSpans(t: string, i: nat): (r: seq<(nat, nat)>)
    ensures forall k :: 0 <= k < |r| ==> i <= r[k].0 < r[k].1 <= |t|
    ensures forall k :: 0 <= k < |r| - 1 ==> r[k].1 <= r[k + 1].0
    ensures '@' !in t ==> r == []
    decreases |t| - i
  {
    if i >= |t| then []
    else
      match LooseMatch(t, i)
      case Some(e) => [(i, e)] + MatchSpans(t, e)
      case None => MatchSpans(t, i + 1)
  }

  /** `re.findall(r'[\w\.-]+@[\w\.-]+\.\w+', text)`. */
  function FindLoose(t: string): (r: seq<string>)
    ensures |r| == |MatchSpans(t, 0)|
    ensures forall k :: 0 <= k < |r| ==> Contains(t, r[k])
  {
    var spans := MatchSpans(t, 0);
    var found := seq(|spans|, k requires 0 <= k < |spans| => t[spans[k].0..spans[k].1]);
    assert forall k :: 0 <= k < |found| ==> OccursAt(t, found[k], spans[k].0);
    forall k | 0 <= k < |found| ensures Contains(t, found[k]) {
      ContainsIff(t, found[k]);
    }
    found
  }

  /** The candidates the validator accepts, in order, duplicates kept. */
  function ValidOnly(xs: seq<string>): (r: seq<string>)
    ensures |r| <= |xs|
    ensures forall k :: 0 <= k < |r| ==> IsValidEmail(r[k])
    ensures forall k :: 0 <= k < |r| ==> r[k] in xs
  {
    if xs == [] then []
    else
      var last := xs[|xs| - 1];
      ValidOnly(xs[..|xs| - 1]) + (if IsValidEmail(last) then [last] else [])
  }

  /** `extract_emails_from_text`. */
  function ExtractedEmails(text: string): seq<string> {
    if text == [] then []
    else
      var found := ValidOnly(FindLoose(text));
      if found == [] && IsValidEmail(text) then [text] else found
  }

  /** The loop of `extract_emails_from_text`. */
  method ExtractEmails(text: string) returns (emails: seq<string>)
    ensures emails == ExtractedEmails(text)
  {
    if text == [] {
      return [];
    }
    var found := FindLoose(text);
    emails := [];
    for k := 0 to |found|
      invariant emails == ValidOnly(found[..k])
    {
      if IsValidEmail(found[k]) {
        emails := emails + [found[k]];
      }
      assert found[..k + 1][..k] == found[..k];
    }
    assert found[..|found|] == found;
    if emails == [] && IsValidEmail(text) {
      emails := [text];
    }
  }

  // ---------------------------------------------------------------------
  // Properties.

  /** Empty text gives no address; every address given is accepted by the
      validator and occurs in the text. */
  lemma ExtractedAreValid(text: string)
    ensures text == [] ==> ExtractedEmails(text) == []
    ensures forall k :: 0 <= k < |ExtractedEmails(text)| ==> IsValidEmail(ExtractedEmails(text)[k])
    ensures forall k :: 0 <= k < |ExtractedEmails(text)| ==> Contains(text, ExtractedEmails(text)[k])
  {
    if text != [] {
      var found := FindLoose(text);
      var r := ValidOnly(found);
      forall k | 0 <= k < |r| ensures Contains(text, r[k]) {
        var j :| 0 <= j < |found| && found[j] == r[k];
      }
      if r == [] && IsValidEmail(text) {
        assert StartsWith(text, text);
      }
    }
  }

  /** `x` matches `[\w.-]+@[\w.-]+\.\w+` as a whole, with the `@` at `a`
      and the dot at `d`. */
  predicate LooseShapeAt(x: string, a: int, d: int) {
    && 0 < a && a + 1 < d && d + 1 < |x|
    && (forall j :: 0 <= j < a ==> IsLooseChar(x[j]))
    && x[a] == '@'
    && (forall j :: a < j < d ==> IsLooseChar(x[j]))
    && x[d] == '.'
    && (forall j :: d < j < |x| ==> IsWordChar(x[j]))
  }

  ghost predicate LooseShape(x: string) {
    exists a, d :: LooseShapeAt(x, a, d)
  }

  /** Every match of the scanner is a string the loose pattern matches. */
  lemma LooseMatchShape(t: string, s: nat)
    requires s < |t| && LooseMatch(t, s).Some?
    ensures LooseShape(t[s..LooseMatch(t, s).value])
  {
    var r1 := LooseRunEnd(t, s);
    var r2 := LooseRunEnd(t, r1 + 1);
    var j := DomainDot(t, r1 + 2, r2).value;
    var e := WordRunEnd(t, j + 1);
    assert LooseMatch(t, s).value == e;
    ShapeOfRuns(t, s, r1, j, e);
  }

  /** A loose run, `@`, a loose run, a dot and a word run, read off `t`,
      make the slice from `s` to `e` match the loose pattern. */
  lemma ShapeOfRuns(t: string, s: nat, a: nat, d: nat, e: nat)
    requires s < a && a + 1 < d && d + 1 < e <= |t|
    requires forall i :: s <= i < a ==> IsLooseChar(t[i])
    requires t[a] == '@' && t[d] == '.'
    requires forall i :: a < i < d ==> IsLooseChar(t[i])
    requires forall i :: d < i < e ==> IsWordChar(t[i])
    ensures LooseShapeAt(t[s..e], a - s, d - s)
  {
    var x := t[s..e];
    forall i | 0 <= i < |x| ensures x[i] == t[s + i] {
    }
  }

  /** Every string `findall` returns matches the loose pattern. */
  lemma FindLooseShape(t: string)
    ensures forall k :: 0 <= k < |FindLoose(t)| ==> LooseShape(FindLoose(t)[k])
  {
    SpansShape(t, 0);
  }

  lemma {:induction false} SpansShape(t: string, i: nat)
    ensures forall k :: 0 <= k < |MatchSpans(t, i)| ==>
      LooseShape(t[MatchSpans(t, i)[k].0..MatchSpans(t, i)[k].1])
    decreases |t| - i
  {
    if i < |t| {
      var r := MatchSpans(t, i);
      match LooseMatch(t, i)
      case Some(e) =>
        SpansShape(t, e);
        LooseMatchShape(t, i);
        assert r == [(i, e)] + MatchSpans(t, e);
      case None =>
        SpansShape(t, i + 1);
    }
  }

  /** Text without `@` yields nothing: no candidate, and it is not an
      address itself. */
  lemma ExtractWithoutAt(text: string)
    requires '@' !in text
    ensures ExtractedEmails(text) == []
  {
    PatternHasAt(text);
  }

  lemma PatternHasAt(s: string)
    ensures MatchesEmailPattern(s) ==> '@' in s
  {
    if MatchesEmailPattern(s) {
      var at := FirstIndexOf(s, '@');
      assert s[at] in s;
    }
  }

  lemma LooseRunEndIs(t: string, i: nat, k: nat)
    requires i <= k <= |t|
    requires forall j :: i <= j < k ==> IsLooseChar(t[j])
    requires k < |t| ==> !IsLooseChar(t[k])
    ensures LooseRunEnd(t, i) == k
  {
  }

  lemma WordRunEndIs(t: string, i: nat, k: nat)
    requires i <= k <= |t|
    requires forall j :: i <= j < k ==> IsWordChar(t[j])
    requires k < |t| ==> !IsWordChar(t[k])
    ensures WordRunEnd(t, i) == k
  {
  }

  lemma DomainDotIs(t: string, lo: nat, hi: nat, d: nat)
    requires hi <= |t| && lo <= d && d + 2 <= hi && DotWordAt(t, d)
    requires forall j :: d < j && j + 2 <= hi ==> !DotWordAt(t, j)
    ensures DomainDot(t, lo, hi) == Some(d)
  {
  }

  /** The scanner takes a whole valid address with neither `%` nor `+`. */
  lemma LooseMatchesValid(s: string)
    requires IsValidEmail(s) && '%' !in s && '+' !in s
    ensures LooseMatch(s, 0) == Some(|s|)
  {
    PatternGivesShape(s);
    var at := FirstIndexOf(s, '@');
    var dot := at + 1 + LastIndexOf(s[at + 1..], '.');
    ValidRuns(s, at, dot);
    LooseRunEndIs(s, 0, at);
    LooseRunEndIs(s, at + 1, |s|);
    DomainDotIs(s, at + 2, |s|, dot);
    WordRunEndIs(s, dot + 1, |s|);
    LooseMatchIs(s, 0, at, |s|, dot, |s|);
  }

  /** The runs of a valid address, read character by character. */
  lemma ValidRuns(s: string, at: nat, dot: nat)
    requires EmailShape(s, at, dot) && '%' !in s && '+' !in s
    ensures forall j :: 0 <= j < at ==> IsLooseChar(s[j])
    ensures forall j :: at < j < |s| ==> IsLooseChar(s[j])
    ensures forall j :: dot < j < |s| ==> IsWordChar(s[j])
    ensures DotWordAt(s, dot)
    ensures forall j :: dot < j && j + 2 <= |s| ==> !DotWordAt(s, j)
  {
    forall j | 0 <= j < at ensures IsLooseChar(s[j]) {
      assert s[..at][j] == s[j];
      assert s[j] in s;
    }
    forall j | at < j < |s| ensures IsLooseChar(s[j]) && (j > dot ==> IsAsciiLetter(s[j])) {
      if j < dot {
        assert s[at + 1..dot][j - at - 1] == s[j];
      } else if j > dot {
        assert s[dot + 1..][j - dot - 1] == s[j];
      }
    }
  }

  /** The scan at `s` once its runs and dot are known. */
  lemma LooseMatchIs(t: string, s: nat, r1: nat, r2: nat, j: nat, e: nat)
    requires s < r1 < |t| && t[r1] == '@'
    requires LooseRunEnd(t, s) == r1 && LooseRunEnd(t, r1 + 1) == r2
    requires DomainDot(t, r1 + 2, r2) == Some(j) && WordRunEnd(t, j + 1) == e
    ensures LooseMatch(t, s) == Some(e)
  {
  }

  /** A valid address with neither `%` nor `+` is extracted as itself. */
  lemma ExtractValidAddress(s: string)
    requires IsValidEmail(s) && '%' !in s && '+' !in s
    ensures ExtractedEmails(s) == [s]
  {
    LooseMatchesValid(s);
    assert MatchSpans(s, 0) == [(0, |s|)];
    assert FindLoose(s) == [s[0..|s|]];
    assert s[0..|s|] == s;
  }

  lemma PlusAddressValid(t: string, r: string)
    requires t == "a+b@x.com" && r == "b@x.com"
    ensures IsValidEmail(t) && IsValidEmail(r)
  {
    assert EmailShape(t, 3, 5);
    ShapeGivesPattern(t, 3, 5);
    ExchangeTestRedundant(t);
    assert EmailShape(r, 1, 3);
    ShapeGivesPattern(r, 1, 3);
    ExchangeTestRedundant(r);
  }

  lemma PlusAddressSpans(t: string)
    requires t == "a+b@x.com"
    ensures MatchSpans(t, 0) == [(2, 9)]
  {
    LooseRunEndIs(t, 0, 1);
    assert LooseMatch(t, 0) == None;
    LooseRunEndIs(t, 1, 1);
    assert LooseMatch(t, 1) == None;
    LooseRunEndIs(t, 2, 3);
    LooseRunEndIs(t, 4, 9);
    DomainDotIs(t, 5, 9, 5);
    WordRunEndIs(t, 6, 9);
    assert LooseMatch(t, 2) == Some(9);
    assert MatchSpans(t, 9) == [];
    assert MatchSpans(t, 2) == [(2, 9)];
    assert MatchSpans(t, 1) == MatchSpans(t, 2);
  }

  lemma ExtractSingle(t: string, r: string)
    requires t != [] && FindLoose(t) == [r] && IsValidEmail(r)
    ensures ExtractedEmails(t) == [r]
  {
    assert [r][..0] == [];
  }

  /** The loose pattern has no `+`: a valid address with a `+` in its local
      part is cut at the `+`, so "a+b@x.com", itself valid, yields only
      "b@x.com". */
  lemma ExtractPlusAddress(t: string, r: string)
    requires t == "a+b@x.com" && r == "b@x.com"
    ensures IsValidEmail(t) && ExtractedEmails(t) == [r]
  {
    PlusAddressValid(t, r);
    PlusAddressFound(t, r);
    ExtractSingle(t, r);
  }

  lemma PlusAddressFound(t: string, r: string)
    requires t == "a+b@x.com" && r == "b@x.com"
    ensures FindLoose(t) == [r]
  {
    PlusAddressSpans(t);
    assert t[2..9] == r;
  }
}
