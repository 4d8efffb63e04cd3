/*
 * Normalisation of the text of an address field before addresses are
 * looked for in it (find_emails.py: clean_email_text).
 *
 * Each `re.sub` is a scanner over the suffix of the text where the search
 * stands: when the pattern matches there, its replacement is emitted and
 * the scan goes on after the match; otherwise the first character is kept
 * and the scan moves one character on. This is the leftmost,
 * non-overlapping order of `re.sub`. Where a pattern can match in more
 * than one way, the scanner tries the alternatives in the order of the
 * backtracking engine (greedy runs longest first, lazy runs shortest first).
 */
module Cleaning {
  import opened Strings
  import opened SystemInfo
  import opened EmailSyntax

  /** The labels cut from the front of the field, tested in this order. */
  const LabelPrefixes: seq<string> := [
    "From:", "To:", "Cc:", "Bcc:",
    "Kimden:", "Kime:", "Bilgi:", "Gizli:",
    "From :", "To :", "Cc :", "Bcc :",
    "Kimden :", "Kime :", "Bilgi :", "Gizli :",
    "Sender:", "Recipient:", "Reply-To:",
    "G\U{F6}nderen:", "Al\U{131}c\U{131}:", "Yan\U{131}tla:",
    "Sender :", "Recipient :", "Reply-To :",
    "G\U{F6}nderen :", "Al\U{131}c\U{131} :", "Yan\U{131}tla :"
  ]

  /** The Exchange and mail-header tokens deleted, case-sensitively, together
      with the non-space characters that follow them. */
  const Markers: seq<string> := [
    "SMTP:", "EX:", ";EX:", "/O=EXCHANGELABS/", "/OU=", "IMCEAEX-",
    "outlook_", "SPF=", "DKIM=", "DMARC=", "/CN=", "X-MS-Exchange",
    "X-Microsoft", "/DC="
  ]

  // ---------------------------------------------------------------------
  // `re.sub(marker + r'.*?(?=\s|$)', '', text)`

  /** The lazy `.*?` stops at the first white space or at the end, so a
      match is the marker and the run of non-space characters after it. */
  function DeleteMarker(t: string, m: string): (r: string)
    requires m != []
    ensures |r| <= |t|
    decreases |t|
  {
    if t == [] then []
    else if StartsWith(t, m) then
      DeleteMarker(t[|m| + WordLen(t[|m|..])..], m)
    else
      [t[0]] + DeleteMarker(t[1..], m)
  }

  /** The marker loop: each marker's substitution applied in list order. */
  function DeleteMarkers(t: string, markers: seq<string>): (r: string)
    requires forall k :: 0 <= k < |markers| ==> markers[k] != []
    ensures |r| <= |t|
    decreases |markers|
  {
    if markers == [] then t else DeleteMarkers(DeleteMarker(t, markers[0]), markers[1..])
  }

  // ---------------------------------------------------------------------
  // `re.sub(r'(.*?)\s*<([^>]+?)\s*<mailto:[^>]+>>', r'\1 <\2>', text)`

  /** `\s*<mailto:[^>]+>>` from `m`: the end of the match, if it matches.
      The greedy `[^>]+` reaches the first `>`, which must be doubled. */
  function MailtoTail(t: string, m: nat): (e: Option<nat>)
    requires m <= |t|
    ensures e.Some? ==> m + 11 <= e.value <= |t|
  {
    var m1 := SpaceRunEnd(t, m);
    if !StartsWith(t[m1..], "<mailto:") then None
    else
      var u := m1 + 8;
      var q := u + FirstIndexOf(t[u..], '>');
      if u < q && q + 1 < |t| && t[q + 1] == '>' then Some(q + 2) else None
  }

  /** Where the lazy group 2 stopped: its end and the end of the match. */
  datatype AddressMatch = NoAddress | AddressAt(addrEnd: nat, matchEnd: nat)

  /** A match of the nested-mailto pattern: the end of group 1, the `<`
      that opens group 2, the end of group 2 and the end of the match. */
  datatype MailtoMatch = NoMatch | MatchAt(nameEnd: nat, open: nat, addrEnd: nat, matchEnd: nat)

  /** The lazy `([^>]+?)` after the `<` at `open`: group 2 ends at the first
      `m` from which the tail matches, and may not run past a `>`. Gives
      the end of group 2 and of the match. */
  function LazyAddress(t: string, open: nat, m: nat): (r: AddressMatch)
    requires open < m <= |t|
    ensures r.AddressAt? ==> m <= r.addrEnd && r.addrEnd + 11 <= r.matchEnd <= |t|
    decreases |t| - m
  {
    if t[m - 1] == '>' then NoAddress
    else
      match MailtoTail(t, m)
      case Some(e) => AddressAt(m, e)
      case None => if m < |t| then LazyAddress(t, open, m + 1) else NoAddress
  }

  /** The rest of the pattern with group 1 ending at `k`: white space, a
      `<`, group 2 and the tail. Gives the end of group 1, the position of
      the `<`, the end of group 2 and the end of the match. */
  function NameMatchAt(t: string, k: nat): (r: MailtoMatch)
    requires k <= |t|
    ensures r.MatchAt? ==>
      && r.nameEnd == k <= r.open && r.open + 2 <= r.addrEnd
      && r.addrEnd + 11 <= r.matchEnd <= |t| && t[r.open] == '<'
  {
    NameMatchFrom(t, k, SpaceRunEnd(t, k))
  }

  /** The same with the white space after group 1 ending at `open`. */
  function NameMatchFrom(t: string, k: nat, open: nat): (r: MailtoMatch)
    requires k <= open <= |t|
    ensures r.MatchAt? ==>
      && r.nameEnd == k && r.open == open && open + 2 <= r.addrEnd
      && r.addrEnd + 11 <= r.matchEnd <= |t| && t[open] == '<'
  {
    if open + 2 <= |t| && t[open] == '<' then
      match LazyAddress(t, open, open + 2)
      case AddressAt(m, e) => MatchAt(k, open, m, e)
      case NoAddress => NoMatch
    else NoMatch
  }

  /** The lazy `(.*?)\s*<` from the start: group 1 ends at the first `k`
      from which the rest of the pattern matches; `.` does not match a
      line break. */
  function LazyName(t: string, k: nat): (r: MailtoMatch)
    requires k <= |t|
    ensures r.MatchAt? ==>
      && r.nameEnd <= r.open && r.open + 2 <= r.addrEnd
      && r.addrEnd + 11 <= r.matchEnd <= |t| && t[r.open] == '<' && '<' in t
    decreases |t| - k
  {
    var here := NameMatchAt(t, k);
    if here.MatchAt? then here
    else if k < |t| && t[k] != '\n' then LazyName(t, k + 1)
    else NoMatch
  }

  /** `re.search` of the nested-mailto pattern succeeds somewhere. */
  predicate HasNestedMailto(t: string)
    decreases |t|
  {
    t != [] && (LazyName(t, 0).MatchAt? || HasNestedMailto(t[1..]))
  }

  /** One substitution pass; a pass that finds a match shortens the text by
      at least 9, the least that `<mailto:`, one character and `>>` can
      leave behind once replaced by `>`. */
  function UnwrapMailtoPass(t: string): (r: string)
    ensures |r| <= |t|
    ensures HasNestedMailto(t) ==> |r| + 9 <= |t|
    decreases |t|
  {
    if t == [] then []
    else
      match LazyName(t, 0)
      case MatchAt(k, open, m, e) =>
        t[..k] + " <" + t[open + 1..m] + ">" + UnwrapMailtoPass(t[e..])
      case NoMatch =>
        [t[0]] + UnwrapMailtoPass(t[1..])
  }

  /** The `while re.search(...)` loop: passes are repeated until none matches. */
  function UnwrapMailto(t: string): (r: string)
    ensures |r| <= |t|
    ensures !HasNestedMailto(r)
    decreases |t|
  {
    if HasNestedMailto(t) then UnwrapMailto(UnwrapMailtoPass(t)) else t
  }

  // ---------------------------------------------------------------------
  // `re.sub(r'<mailto:[^>]+>', '', text)`

  /** `<mailto:[^>]+>` at the start: the end of the match, if any. */
  function MailtoTagEnd(t: string): (e: Option<nat>)
    ensures e.Some? ==> 9 < e.value <= |t| && t[0] == '<'
  {
    if !StartsWith(t, "<mailto:") then None
    else
      assert t[0] == t[..8][0];
      var q := 8 + FirstIndexOf(t[8..], '>');
      if 8 < q < |t| then Some(q + 1) else None
  }

  function DropMailtoTags(t: string): (r: string)
    ensures |r| <= |t|
    decreases |t|
  {
    if t == [] then []
    else
      match MailtoTagEnd(t)
      case Some(e) => DropMailtoTags(t[e..])
      case None => [t[0]] + DropMailtoTags(t[1..])
  }

  // ---------------------------------------------------------------------
  // `re.sub(r'(\S+@\S+\.\S+)\s*<\1>', r'\1', text)`

  /** `\s*<\1>` after group 1 `= t[..c]`: the end of the match, if any. */
  function EchoEnd(t: string, c: nat): (e: Option<nat>)
    requires c <= |t|
    ensures e.Some? ==> c < e.value <= |t| && '<' in t
  {
    var o := SpaceRunEnd(t, c);
    if o < |t| && t[o] == '<' && StartsWith(t[o + 1..], t[..c] + ">") then
      assert t[o] in t;
      Some(o + c + 2)
    else None
  }

  /** The third greedy `\S+`, ending at `c`, tried from the longest down to
      one character after the dot at `lo - 2`. */
  function EchoAfterDot(t: string, lo: nat, c: nat): (r: Option<(nat, nat)>)
    requires lo <= c <= |t|
    ensures r.Some? ==> r.value.0 < r.value.1 <= |t| && '<' in t
    decreases c
  {
    match EchoEnd(t, c)
    case Some(e) => Some((c, e))
    case None => if lo < c then EchoAfterDot(t, lo, c - 1) else None
  }

  /** The second greedy `\S+` and the `\.`: the dot at `b`, tried from the
      right end of the run `t[..w]` down to two places after the `@` at `a`. */
  function EchoDot(t: string, a: nat, w: nat, b: nat): (r: Option<(nat, nat)>)
    requires w <= |t| && b < w
    ensures r.Some? ==> r.value.0 < r.value.1 <= |t| && '<' in t
    decreases b
  {
    if b < a + 2 then None
    else
      var found := if t[b] == '.' && b + 2 <= w then EchoAfterDot(t, b + 2, w) else None;
      if found.Some? then found else EchoDot(t, a, w, b - 1)
  }

  /** The first greedy `\S+` and the `@`: the `@` at `a`, tried from the
      right end of the run `t[..w]` down to index 1. */
  function EchoAt(t: string, w: nat, a: nat): (r: Option<(nat, nat)>)
    requires w <= |t| && a < w
    ensures r.Some? ==> r.value.0 < r.value.1 <= |t| && '<' in t
    decreases a
  {
    if a < 1 then None
    else
      var found := if t[a] == '@' then EchoDot(t, a, w, w - 1) else None;
      if found.Some? then found else EchoAt(t, w, a - 1)
  }

  /** The pattern at the start of `t`: the end of group 1 and of the match.
      Group 1 lies inside the leading run of non-space characters. */
  function EchoMatch(t: string): (r: Option<(nat, nat)>)
    ensures r.Some? ==> r.value.0 < r.value.1 <= |t| && '<' in t
  {
    var w := WordLen(t);
    if w == 0 then None else EchoAt(t, w, w - 1)
  }

  function CollapseEcho(t: string): (r: string)
    ensures |r| <= |t|
    decreases |t|
  {
    if t == [] then []
    else
      match EchoMatch(t)
      case Some((c, e)) => t[..c] + CollapseEcho(t[e..])
      case None => [t[0]] + CollapseEcho(t[1..])
  }

  // ---------------------------------------------------------------------
  // `re.sub(r'<([^>]+)\s*<[^>]+>>', r'<\1>', text)`

  /** At a `<`: the greedy `[^>]+` reaches the first `>` at `q`, which must
      be doubled; backtracking then gives back characters until a `<` with
      at least one character before it and one after it, so the inner `<` is
      the last one before `q - 1`. Gives that `<` and the end of the match. */
  function DoubleBracketMatch(t: string): (r: Option<(nat, nat)>)
    ensures r.Some? ==> 2 <= r.value.0 && r.value.0 + 4 <= r.value.1 <= |t| && t[0] == '<'
  {
    if t == [] || t[0] != '<' then None
    else
      var q := 1 + FirstIndexOf(t[1..], '>');
      if q + 1 < |t| && t[q + 1] == '>' then
        var l := LastIndexOf(t[..q - 1], '<');
        if 2 <= l then Some((l, q + 2)) else None
      else None
  }

  /** The replacement keeps the text between the outer `<` and the inner
      one, spaces included, and drops the inner bracket. */
  function UnwrapDoubleBrackets(t: string): (r: string)
    ensures |r| <= |t|
    decreases |t|
  {
    if t == [] then []
    else
      match DoubleBracketMatch(t)
      case Some((l, e)) => "<" + t[1..l] + ">" + UnwrapDoubleBrackets(t[e..])
      case None => [t[0]] + UnwrapDoubleBrackets(t[1..])
  }

  // ---------------------------------------------------------------------
  // The whole of `clean_email_text`.

  lemma MarkersNonEmpty()
    ensures forall k :: 0 <= k < |Markers| ==> Markers[k] != []
  {
  }

  /** `clean_email_text`: empty text is returned as it is; otherwise the
      steps run in order and the result has its white space squeezed to
      single spaces and stripped. */
  function CleanedText(text: string): string {
    if text == [] then text
    else
      var collapsed := CollapseSpaces(text);
      var unlabelled := StripListedPrefixes(collapsed, LabelPrefixes);
      MarkersNonEmpty();
      var unmarked := DeleteMarkers(unlabelled, Markers);
      var unwrapped := UnwrapMailto(unmarked);
      var untagged := DropMailtoTags(unwrapped);
      var unechoed := CollapseEcho(untagged);
      var unbracketed := UnwrapDoubleBrackets(unechoed);
      Strip(SqueezeSpaces(unbracketed))
  }

  /** The marker loop of `clean_email_text`, over the markers it is given. */
  method DeleteAllMarkers(text: string, markers: seq<string>) returns (r: string)
    requires forall k :: 0 <= k < |markers| ==> markers[k] != []
    ensures r == DeleteMarkers(text, markers)
  {
    r := text;
    for k := 0 to |markers|
      invariant DeleteMarkers(r, markers[k..]) == DeleteMarkers(text, markers)
    {
      r := DeleteMarker(r, markers[k]);
      assert markers[k..][1..] == markers[k + 1..];
    }
  }

  /** The `while` loop of `clean_email_text`. */
  method UnwrapAllMailto(text: string) returns (r: string)
    ensures r == UnwrapMailto(text)
  {
    r := text;
    while HasNestedMailto(r)
      invariant UnwrapMailto(r) == UnwrapMailto(text)
      decreases |r|
    {
      r := UnwrapMailtoPass(r);
    }
  }

  method CleanEmailText(text: string) returns (r: string)
    ensures r == CleanedText(text)
  {
    if text == [] {
      return text;
    }
    r := CollapseSpaces(text);
    r := StripPrefixes(r, LabelPrefixes);
    MarkersNonEmpty();
    r := DeleteAllMarkers(r, Markers);
    r := UnwrapAllMailto(r);
    r := DropMailtoTags(r);
    r := CollapseEcho(r);
    r := UnwrapDoubleBrackets(r);
    r := SqueezeSpaces(r);
    r := Strip(r);
  }

  // ---------------------------------------------------------------------
  // Properties.

  lemma CollapseSpacesShorter(s: string)
    ensures |CollapseSpaces(s)| <= |s|
    ensures SingleSpaced(CollapseSpaces(s))
  {
    StripSqueezeIsCollapse(s);
    CollapseSingleSpaced(s);
  }

  /** Empty text is returned as it is; any other text comes back no longer
      than it was, stripped, with single spaces between its words. */
  lemma CleanedTextShape(text: string)
    ensures text == [] ==> CleanedText(text) == []
    ensures text != [] ==> SingleSpaced(CleanedText(text)) && |CleanedText(text)| <= |text|
  {
    if text != [] {
      var collapsed := CollapseSpaces(text);
      CollapseSpacesShorter(text);
      var unlabelled := StripListedPrefixes(collapsed, LabelPrefixes);
      MarkersNonEmpty();
      var unmarked := DeleteMarkers(unlabelled, Markers);
      var unbracketed := UnwrapDoubleBrackets(CollapseEcho(DropMailtoTags(UnwrapMailto(unmarked))));
      CollapseSpacesShorter(unbracketed);
      StripSqueezeIsCollapse(unbracketed);
    }
  }

  /** Without a `<` the nested-mailto pattern cannot match anywhere. */
  lemma {:induction false} NoNestedMailtoWithoutBracket(t: string)
    requires '<' !in t
    ensures !HasNestedMailto(t)
    ensures UnwrapMailto(t) == t
    decreases |t|
  {
    if t != [] {
      NoNestedMailtoWithoutBracket(t[1..]);
    }
  }

  lemma {:induction false} DropMailtoTagsWithoutBracket(t: string)
    requires '<' !in t
    ensures DropMailtoTags(t) == t
    decreases |t|
  {
    if t != [] {
      DropMailtoTagsWithoutBracket(t[1..]);
      assert t[0] in t;
      assert [t[0]] + t[1..] == t;
    }
  }

  lemma {:induction false} CollapseEchoWithoutBracket(t: string)
    requires '<' !in t
    ensures CollapseEcho(t) == t
    decreases |t|
  {
    if t != [] {
      CollapseEchoWithoutBracket(t[1..]);
      assert [t[0]] + t[1..] == t;
    }
  }

  lemma {:induction false} UnwrapDoubleBracketsWithoutBracket(t: string)
    requires '<' !in t
    ensures UnwrapDoubleBrackets(t) == t
    decreases |t|
  {
    if t != [] {
      UnwrapDoubleBracketsWithoutBracket(t[1..]);
      assert t[0] in t;
      assert [t[0]] + t[1..] == t;
    }
  }

  /** Text without a `<` passes unchanged through the four substitutions
      that rewrite bracketed addresses. */
  lemma BracketFreeUnchanged(t: string)
    requires '<' !in t
    ensures UnwrapDoubleBrackets(CollapseEcho(DropMailtoTags(UnwrapMailto(t)))) == t
  {
    NoNestedMailtoWithoutBracket(t);
    DropMailtoTagsWithoutBracket(t);
    CollapseEchoWithoutBracket(t);
    UnwrapDoubleBracketsWithoutBracket(t);
  }

  lemma {:induction false} DeleteMarkerAbsent(t: string, m: string)
    requires m != [] && !Contains(t, m)
    ensures DeleteMarker(t, m) == t
    decreases |t|
  {
    if t != [] {
      DeleteMarkerAbsent(t[1..], m);
      assert [t[0]] + t[1..] == t;
    }
  }

  lemma {:induction false} DeleteMarkersAbsent(t: string, markers: seq<string>)
    requires forall k :: 0 <= k < |markers| ==> markers[k] != [] && !Contains(t, markers[k])
    ensures DeleteMarkers(t, markers) == t
    decreases |markers|
  {
    if markers != [] {
      DeleteMarkerAbsent(t, markers[0]);
      DeleteMarkersAbsent(t, markers[1..]);
    }
  }

  /** The labels are cut from the front only, so what is left is a
      single-spaced tail of the text, with no `<` or marker if it had none. */
  lemma UnlabelledTail(s: string)
    requires SingleSpaced(s) && '<' !in s
    requires forall k :: 0 <= k < |Markers| ==> !Contains(s, Markers[k])
    ensures var u := StripListedPrefixes(s, LabelPrefixes);
      SingleSpaced(u) && '<' !in u && forall k :: 0 <= k < |Markers| ==> !Contains(u, Markers[k])
  {
    var u := StripListedPrefixes(s, LabelPrefixes);
    StripListedPrefixesTail(s, LabelPrefixes);
    forall k | 0 <= k < |Markers|
      ensures !Contains(u, Markers[k])
    {
      ContainsInTail(s, u, Markers[k]);
    }
    TailChars(s, u, '<');
  }

  /** Single-spaced text with no `<` and no marker is only relieved of its
      leading labels. */
  lemma CleanPlainText(s: string)
    requires s != [] && SingleSpaced(s) && '<' !in s
    requires forall k :: 0 <= k < |Markers| ==> !Contains(s, Markers[k])
    ensures CleanedText(s) == StripListedPrefixes(s, LabelPrefixes)
  {
    CollapseFixesSingleSpaced(s);
    var u := StripListedPrefixes(s, LabelPrefixes);
    UnlabelledTail(s);
    MarkersNonEmpty();
    DeleteMarkersAbsent(u, Markers);
    BracketFreeUnchanged(u);
    StripSqueezeIsCollapse(u);
    CollapseFixesSingleSpaced(u);
  }

  /* Worked examples of the prefix loop. The labels are tried once each, in
     list order, so "From: To: x" loses both labels while "To: From: x" keeps
     "From:" (it is tested before "To:" is removed); cleaning the result a
     second time removes it. */

  lemma LabelsAtLeastThree()
    ensures forall k :: 0 <= k < |LabelPrefixes| ==> |LabelPrefixes[k]| >= 3
  {
  }

  lemma ShortTextHasNoLaterLabel(u: string, rest: seq<string>, n: nat)
    requires |u| < 3 && n <= |LabelPrefixes| && rest == LabelPrefixes[n..]
    ensures StripListedPrefixes(u, rest) == u
  {
    LabelsAtLeastThree();
    forall k | 0 <= k < |rest| ensures |rest[k]| > |u| {
      assert rest[k] == LabelPrefixes[n + k];
    }
    ShortTextKeepsPrefixes(u, rest);
  }

  lemma FromHasNoLaterLabel(s: string)
    requires s == "From: x"
    ensures StripListedPrefixes(s, LabelPrefixes[2..]) == s
  {
    var rest := LabelPrefixes[2..];
    forall k | 0 <= k < |rest| ensures !StartsWith(s, rest[k]) {
      var p := rest[k];
      var j := if p[0] == 'F' then 4 else 0;
      NotStartsWithAt(s, p, j);
    }
    StripListedPrefixesNone(s, rest);
  }

  lemma FromStep(s: string, t: string, p: string)
    requires s == "From: To: x" && t == "To: x" && p == "From:"
    ensures StartsWith(s, p) && Strip(s[|p|..]) == t
  {
    assert s == p + " " + t;
    StripAfterPrefix(s, p, t);
  }

  lemma ToStep(t: string, u: string, q: string)
    requires t == "To: x" && u == "x" && q == "To:"
    ensures StartsWith(t, q) && Strip(t[|q|..]) == u
  {
    assert t == q + " " + u;
    StripAfterPrefix(t, q, u);
  }

  /** "From: To: x": both labels are stripped. */
  lemma LabelsFromTo(s: string, t: string, u: string, ps: seq<string>)
    requires s == "From: To: x" && t == "To: x" && u == "x" && ps == LabelPrefixes
    ensures StripListedPrefixes(s, ps) == u
  {
    assert ps[0] == "From:" && ps[1] == "To:";
    FromStep(s, t, ps[0]);
    ToStep(t, u, ps[1]);
    ShortTextHasNoLaterLabel(u, ps[2..], 2);
    StripTwoPrefixes(s, t, u, ps);
  }

  /** "To: From: x": only "To:" is stripped. */
  lemma LabelsToFrom(s: string, t: string)
    requires s == "To: From: x" && t == "From: x"
    ensures StripListedPrefixes(s, LabelPrefixes) == t
  {
    LabelsToFromSteps(s, t, LabelPrefixes);
  }

  lemma LabelsToFromSteps(s: string, t: string, ps: seq<string>)
    requires s == "To: From: x" && t == "From: x" && ps == LabelPrefixes
    ensures StripListedPrefixes(s, ps) == t
  {
    assert ps[0] == "From:" && ps[1] == "To:";
    StripAfterPrefix(s, ps[1], t);
    FromHasNoLaterLabel(t);
    NotStartsWithAt(s, ps[0], 0);
    StripSecondPrefix(s, t, ps);
  }

  /** "From: x": the label is stripped. */
  lemma LabelFrom(t: string, u: string, ps: seq<string>)
    requires t == "From: x" && u == "x" && ps == LabelPrefixes
    ensures StripListedPrefixes(t, ps) == u
  {
    assert ps[0] == "From:";
    StripAfterPrefix(t, ps[0], u);
    StripHead(t, ps, u);
    ShortTextHasNoLaterLabel(u, ps[1..], 1);
  }

  /** The characters of the worked examples. */
  predicate ExampleChar(c: char) {
    c == 'T' || c == 'o' || c == ':' || c == ' ' || c == 'F' || c == 'r' || c == 'm' || c == 'x'
  }

  /** Every marker has a character outside the worked examples, at its
      head or (for `outlook_`) right after it. */
  lemma MarkersForeignChar()
    ensures forall k :: 0 <= k < |Markers| ==>
      |Markers[k]| >= 2 && (!ExampleChar(Markers[k][0]) || !ExampleChar(Markers[k][1]))
  {
    MarkersNonEmpty();
  }

  /** Text made of the example characters holds no marker. */
  lemma MarkersAvoidExampleChars(s: string)
    requires forall i :: 0 <= i < |s| ==> ExampleChar(s[i])
    ensures forall k :: 0 <= k < |Markers| ==> !Contains(s, Markers[k])
  {
    MarkersForeignChar();
    forall k | 0 <= k < |Markers| ensures !Contains(s, Markers[k]) {
      var m := Markers[k];
      var j := if !ExampleChar(m[0]) then 0 else 1;
      assert m[j] !in s;
      NotContainsChar(s, m, j);
    }
  }

  lemma PlainExamples(s: string)
    requires s == "To: From: x" || s == "From: To: x" || s == "From: x"
    ensures s != [] && SingleSpaced(s) && '<' !in s
    ensures forall k :: 0 <= k < |Markers| ==> !Contains(s, Markers[k])
  {
    MarkersAvoidExampleChars(s);
  }

  /** Cleaning is not idempotent: a second pass removes a label the first
      pass uncovered. */
  lemma CleanIsNotIdempotent(s: string, t: string, u: string)
    requires s == "To: From: x" && t == "From: x" && u == "x"
    ensures CleanedText(s) == t && CleanedText(CleanedText(s)) == u
  {
    CleanToFrom(s, t);
    CleanFrom(t, u);
  }

  lemma CleanToFrom(s: string, t: string)
    requires s == "To: From: x" && t == "From: x"
    ensures CleanedText(s) == t
  {
    PlainExamples(s);
    CleanPlainText(s);
    LabelsToFrom(s, t);
  }

  lemma CleanFrom(t: string, u: string)
    requires t == "From: x" && u == "x"
    ensures CleanedText(t) == u
  {
    PlainExamples(t);
    CleanPlainText(t);
    LabelFrom(t, u, LabelPrefixes);
  }

  /** Several labels in list order are all stripped. */
  lemma CleanStripsSeveralLabels(s: string, u: string)
    requires s == "From: To: x" && u == "x"
    ensures CleanedText(s) == u
  {
    PlainExamples(s);
    CleanPlainText(s);
    LabelsFromTo(s, "To: x", u, LabelPrefixes);
  }

  // ---------------------------------------------------------------------
  // The nested-mailto loop on `n <e <mailto:e2>>`.

  lemma MailtoTailBracket(t: string, m: nat) returns (j: nat)
    requires m <= |t| && MailtoTail(t, m).Some?
    ensures m <= j < |t| && t[j] == '<'
  {
    j := SpaceRunEnd(t, m);
    assert t[j..][..8] == "<mailto:";
    assert t[j..][0] == t[j];
  }

  lemma {:induction false} LazyAddressBracket(t: string, open: nat, m: nat) returns (j: nat)
    requires open < m <= |t| && LazyAddress(t, open, m).AddressAt?
    ensures m <= j < |t| && t[j] == '<'
    decreases |t| - m
  {
    if MailtoTail(t, m).Some? {
      j := MailtoTailBracket(t, m);
    } else {
      j := LazyAddressBracket(t, open, m + 1);
    }
  }

  lemma {:induction false} LazyNameTwoBrackets(t: string, k: nat)
    requires k <= |t| && LazyName(t, k).MatchAt?
    ensures CountChar(t, '<') >= 2
    decreases |t| - k
  {
    if NameMatchAt(t, k).MatchAt? {
      NameMatchTwoBrackets(t, k);
    } else {
      LazyNameNext(t, k);
      LazyNameTwoBrackets(t, k + 1);
    }
  }

  lemma NameMatchTwoBrackets(t: string, k: nat)
    requires k <= |t| && NameMatchAt(t, k).MatchAt?
    ensures CountChar(t, '<') >= 2
  {
    var open := SpaceRunEnd(t, k);
    assert NameMatchFrom(t, k, open).MatchAt?;
    NameMatchFromTwoBrackets(t, k, open);
  }

  lemma NameMatchFromTwoBrackets(t: string, k: nat, open: nat)
    requires k <= open <= |t| && NameMatchFrom(t, k, open).MatchAt?
    ensures CountChar(t, '<') >= 2
  {
    assert open + 2 <= |t| && t[open] == '<' && LazyAddress(t, open, open + 2).AddressAt?;
    var j := LazyAddressBracket(t, open, open + 2);
    CountCharTwo(t, '<', open, j);
  }

  /** When no address opens after the white space at `k`, the match is
      sought from `k + 1`. */
  lemma LazyNameNext(t: string, k: nat)
    requires k <= |t| && LazyName(t, k).MatchAt?
    requires NameMatchAt(t, k).NoMatch?
    ensures k < |t| && LazyName(t, k + 1).MatchAt?
  {
  }

  lemma {:induction false} NestedMailtoTwoBrackets(t: string)
    ensures HasNestedMailto(t) ==> CountChar(t, '<') >= 2
    decreases |t|
  {
    if t != [] {
      if LazyName(t, 0).MatchAt? {
        LazyNameTwoBrackets(t, 0);
      } else {
        NestedMailtoTwoBrackets(t[1..]);
      }
    }
  }

  /** The parts of the nested-mailto example `n <e <mailto:e2>>`: a name on
      one line without `<` and not ending in white space, an address without
      white space or brackets, and a mailto target without `>`. */
  predicate NestedParts(n: string, e: string, e2: string) {
    && '<' !in n && '\n' !in n && (n == [] || !IsSpace(n[|n| - 1]))
    && e != [] && '<' !in e && '>' !in e && (forall i :: 0 <= i < |e| ==> !IsSpace(e[i]))
    && e2 != [] && '>' !in e2
  }

  /** Where the parts of `n <e <mailto:e2>>` sit in the text. */
  predicate NestedLayout(t: string, n: string, e: string, e2: string) {
    && |t| == |n| + |e| + |e2| + 13
    && (forall i :: 0 <= i < |n| ==> t[i] == n[i])
    && t[|n|] == ' ' && t[|n| + 1] == '<'
    && (forall i :: 0 <= i < |e| ==> t[|n| + 2 + i] == e[i])
    && t[|n| + 2 + |e|..|n| + 11 + |e|] == " <mailto:"
    && (forall i :: 0 <= i < |e2| ==> t[|n| + 11 + |e| + i] == e2[i])
    && t[|t| - 2] == '>' && t[|t| - 1] == '>'
  }

  lemma NestedLayoutOf(t: string, n: string, e: string, e2: string)
    requires t == n + " <" + e + " <mailto:" + e2 + ">>"
    ensures NestedLayout(t, n, e, e2)
  {
  }

  /** The text from `m` is ` <mailto:e2>>` and nothing more. */
  predicate MailtoTarget(t: string, m: nat, e2: string) {
    && m + 11 + |e2| == |t|
    && t[m..m + 9] == " <mailto:"
    && (forall i :: 0 <= i < |e2| ==> t[m + 9 + i] == e2[i])
    && t[|t| - 2] == '>' && t[|t| - 1] == '>'
  }

  lemma NestedMailtoTail(t: string, m: nat, e2: string)
    requires MailtoTarget(t, m, e2) && e2 != [] && '>' !in e2
    ensures MailtoTail(t, m) == Some(|t|)
  {
    var q := m + 9 + |e2|;
    assert SpaceRunEnd(t, m) == m + 1 && StartsWith(t[m + 1..], "<mailto:") by {
      MailtoOpens(t, m);
    }
    assert FirstIndexOf(t[m + 9..], '>') == q - (m + 9) by {
      MailtoTargetEnds(t, m + 9, e2);
    }
    MailtoTailAt(t, m, q);
  }

  /** The tail from `m`: one space, `<mailto:`, a target up to the `>` at
      `q`, and a second `>`. */
  lemma MailtoTailAt(t: string, m: nat, q: nat)
    requires m + 9 < q && q + 1 < |t| && t[q + 1] == '>'
    requires SpaceRunEnd(t, m) == m + 1 && StartsWith(t[m + 1..], "<mailto:")
    requires FirstIndexOf(t[m + 9..], '>') == q - (m + 9)
    ensures MailtoTail(t, m) == Some(q + 2)
  {
  }

  lemma MailtoOpens(t: string, m: nat)
    requires m + 9 <= |t| && t[m..m + 9] == " <mailto:"
    ensures SpaceRunEnd(t, m) == m + 1 && StartsWith(t[m + 1..], "<mailto:")
  {
    var open := t[m..m + 9];
    assert t[m] == open[0] && t[m + 1] == open[1];
    assert t[m + 1..][..8] == open[1..];
  }

  lemma MailtoTargetEnds(t: string, u: nat, e2: string)
    requires u + |e2| < |t| && t[u + |e2|] == '>' && '>' !in e2
    requires forall i :: 0 <= i < |e2| ==> t[u + i] == e2[i]
    ensures FirstIndexOf(t[u..], '>') == |e2|
  {
    var rest := t[u..];
    forall i | 0 <= i < |e2| ensures rest[i] != '>' {
      assert rest[i] == e2[i];
    }
    FirstIndexOfIs(rest, '>', |e2|);
  }

  /** What the scan of group 2 meets in `n <e <mailto:e2>>`: no stop
      inside `e`, and the tail matching right after it. */
  lemma NestedAddressFacts(t: string, n: string, e: string, e2: string)
    requires NestedLayout(t, n, e, e2) && NestedParts(n, e, e2)
    ensures SpaceRunEnd(t, |n|) == |n| + 1 && t[|n| + 1] == '<'
    ensures forall i :: |n| + 3 <= i < |n| + 2 + |e| ==> LazyAddressPasses(t, i)
    ensures t[|n| + 1 + |e|] != '>'
    ensures MailtoTail(t, |n| + 2 + |e|) == Some(|t|)
  {
    assert SpaceRunEnd(t, |n|) == |n| + 1;
    NestedAddressChars(t, n, e, e2);
    NestedAddressEnd(t, n, e, e2);
    NestedTarget(t, n, e, e2);
    NestedMailtoTail(t, |n| + 2 + |e|, e2);
  }

  lemma NestedAddressEnd(t: string, n: string, e: string, e2: string)
    requires NestedLayout(t, n, e, e2) && NestedParts(n, e, e2)
    ensures t[|n| + 1 + |e|] != '>'
  {
    var k := |e| - 1;
    assert t[|n| + 2 + k] == e[k];
  }

  /** Group 2 cannot stop inside the address `e`. */
  lemma NestedAddressChars(t: string, n: string, e: string, e2: string)
    requires NestedLayout(t, n, e, e2) && NestedParts(n, e, e2)
    ensures forall i :: |n| + 3 <= i < |n| + 2 + |e| ==> LazyAddressPasses(t, i)
  {
    forall i | |n| + 3 <= i < |n| + 2 + |e|
      ensures LazyAddressPasses(t, i)
    {
      assert t[i - 1] == e[i - |n| - 3];
      assert t[i] == e[i - |n| - 2];
      MailtoTailNeedsBracket(t, i);
    }
  }

  lemma NestedTarget(t: string, n: string, e: string, e2: string)
    requires NestedLayout(t, n, e, e2)
    ensures MailtoTarget(t, |n| + 2 + |e|, e2)
  {
  }

  /** Group 2 grows over the positions where the tail fails and stops at
      the first where it matches. */
  lemma LazyAddressFound(t: string, open: nat, m0: nat, m: nat, x: nat)
    requires open + 2 <= m0 <= m <= |t|
    requires forall i :: m0 <= i < m ==> LazyAddressPasses(t, i)
    requires t[m - 1] != '>' && MailtoTail(t, m) == Some(x)
    ensures LazyAddress(t, open, m0) == AddressAt(m, x)
  {
    LazyAddressStops(t, open, m, x);
    LazyAddressReaches(t, open, m0, m);
  }

  /** Group 1 stops at `k` when the white space after it leads to a `<`
      from which group 2 and the tail match. */
  lemma NameMatchFound(t: string, k: nat, open: nat, m: nat, e: nat)
    requires k <= open && open + 2 <= |t| && SpaceRunEnd(t, k) == open && t[open] == '<'
    requires LazyAddress(t, open, open + 2) == AddressAt(m, e)
    ensures NameMatchAt(t, k) == MatchAt(k, open, m, e)
  {
    assert NameMatchFrom(t, k, open) == MatchAt(k, open, m, e);
  }

  lemma LazyNameHere(t: string, k: nat, x: MailtoMatch)
    requires k <= |t| && NameMatchAt(t, k) == x && x.MatchAt?
    ensures LazyName(t, k) == x
  {
  }

  lemma NestedNamePasses(t: string, n: string, e: string, e2: string)
    requires NestedLayout(t, n, e, e2) && NestedParts(n, e, e2)
    ensures forall i :: 0 <= i < |n| ==> LazyNamePasses(t, i)
  {
    forall i | 0 <= i < |n| ensures LazyNamePasses(t, i) {
      var open := SpaceRunEnd(t, i);
      SpaceRun(t, i);
      assert t[|n| - 1] == n[|n| - 1];
      assert open < |n|;
      assert t[open] == n[open] && t[i] == n[i];
    }
  }

  /** What the scan meets in `n <e <mailto:e2>>`. */
  lemma NestedScan(t: string, n: string, e: string, e2: string)
    requires NestedLayout(t, n, e, e2) && NestedParts(n, e, e2)
    ensures ScanStopsAt(t, |n|, |n| + 2 + |e|)
  {
    NestedAddressFacts(t, n, e, e2);
    NestedNamePasses(t, n, e, e2);
  }

  /** Group 1 passes every position before `p` and stops at `p` with the
      `<` right after one space; group 2 grows to `m`, where the tail
      matches to the end. */
  predicate ScanStopsAt(t: string, p: nat, m: nat) {
    && p + 3 <= m <= |t| && SpaceRunEnd(t, p) == p + 1 && t[p + 1] == '<'
    && (forall i :: 0 <= i < p ==> LazyNamePasses(t, i))
    && (forall i :: p + 3 <= i < m ==> LazyAddressPasses(t, i))
    && t[m - 1] != '>' && MailtoTail(t, m) == Some(|t|)
  }

  /** The first match of the pattern in `t`, as `re.search` finds it. */
  function FirstMatch(t: string): MailtoMatch {
    LazyName(t, 0)
  }

  lemma NestedLazyName(t: string, n: string, e: string, e2: string)
    requires t == n + " <" + e + " <mailto:" + e2 + ">>" && NestedParts(n, e, e2)
    ensures FirstMatch(t) == MatchAt(|n|, |n| + 1, |n| + 2 + |e|, |t|)
  {
    NestedLayoutOf(t, n, e, e2);
    LayoutLazyName(t, n, e, e2);
  }

  lemma LayoutLazyName(t: string, n: string, e: string, e2: string)
    requires NestedLayout(t, n, e, e2) && NestedParts(n, e, e2)
    ensures FirstMatch(t) == MatchAt(|n|, |n| + 1, |n| + 2 + |e|, |t|)
  {
    NestedScan(t, n, e, e2);
    LazyNameAt(t, |n|, |n| + 2 + |e|);
  }

  lemma LazyNameAt(t: string, p: nat, m: nat)
    ensures ScanStopsAt(t, p, m) ==> FirstMatch(t) == MatchAt(p, p + 1, m, |t|)
  {
    if ScanStopsAt(t, p, m) {
      LazyAddressFound(t, p + 1, p + 3, m, |t|);
      NameMatchFound(t, p, p + 1, m, |t|);
      LazyNameHere(t, p, MatchAt(p, p + 1, m, |t|));
      LazyNameReaches(t, 0, p);
    }
  }


  /** The lazy group 2 cannot stop at `m`: the character before `m` is not
      `>` and the tail does not match from `m`. */
  predicate LazyAddressPasses(t: string, m: nat) {
    0 < m <= |t| && t[m - 1] != '>' && MailtoTail(t, m) == None
  }

  /** Group 2 grows past every position where the tail does not match
      until the one where it does. */
  lemma {:induction false} LazyAddressReaches(t: string, open: nat, m: nat, m2: nat)
    requires open + 2 <= m <= m2 <= |t|
    requires forall i :: m <= i < m2 ==> LazyAddressPasses(t, i)
    ensures LazyAddress(t, open, m) == LazyAddress(t, open, m2)
    decreases m2 - m
  {
    if m < m2 {
      var rest := LazyAddress(t, open, m2);
      assert LazyAddress(t, open, m + 1) == rest by {
        LazyAddressReaches(t, open, m + 1, m2);
      }
      LazyAddressStep(t, open, m, m2, rest);
    }
  }

  lemma LazyAddressStep(t: string, open: nat, m: nat, m2: nat, rest: AddressMatch)
    requires open < m < m2 <= |t| && LazyAddress(t, open, m + 1) == rest
    requires forall i :: m <= i < m2 ==> LazyAddressPasses(t, i)
    ensures LazyAddress(t, open, m) == rest
  {
    assert LazyAddressPasses(t, m);
  }

  lemma LazyAddressStops(t: string, open: nat, m: nat, x: nat)
    requires open < m <= |t| && t[m - 1] != '>' && MailtoTail(t, m) == Some(x)
    ensures LazyAddress(t, open, m) == AddressAt(m, x)
  {
  }

  /** The tail cannot start at a character that is neither white space nor `<`. */
  lemma MailtoTailNeedsBracket(t: string, m: nat)
    requires m < |t| && !IsSpace(t[m]) && t[m] != '<'
    ensures MailtoTail(t, m) == None
  {
    assert SpaceRunEnd(t, m) == m;
    NotStartsWithAt(t[m..], "<mailto:", 0);
  }

  /** The lazy group 1 cannot stop at `k`: `k` is on the line and no `<`
      follows the white space after it. */
  predicate LazyNamePasses(t: string, k: nat) {
    k < |t| && t[k] != '\n' && (SpaceRunEnd(t, k) < |t| ==> t[SpaceRunEnd(t, k)] != '<')
  }

  lemma LazyNameReaches(t: string, k: nat, k2: nat)
    requires k <= k2 <= |t|
    requires forall i :: k <= i < k2 ==> LazyNamePasses(t, i)
    ensures LazyName(t, k) == LazyName(t, k2)
  {
    var f := (i: nat) => if i <= |t| then LazyName(t, i) else NoMatch;
    forall i | k <= i < k2 ensures f(i) == f(i + 1) {
      LazyNameStep(t, i);
    }
    ChainEqual(f, k, k2);
  }

  /** Equal neighbours all the way make the ends equal. */
  lemma {:induction false} ChainEqual<T>(f: nat -> T, k: nat, k2: nat)
    requires k <= k2
    requires forall i :: k <= i < k2 ==> f(i) == f(i + 1)
    ensures f(k) == f(k2)
    decreases k2 - k
  {
    if k < k2 {
      ChainEqual(f, k + 1, k2);
    }
  }

  lemma LazyNameStep(t: string, k: nat)
    requires LazyNamePasses(t, k)
    ensures LazyName(t, k) == LazyName(t, k + 1)
  {
  }

  /** One level of nesting is unwrapped: `n <e <mailto:e2>>` becomes
      `n <e>`, and the loop stops there. */
  lemma UnwrapNestedMailto(t: string, n: string, e: string, e2: string)
    requires t == n + " <" + e + " <mailto:" + e2 + ">>" && NestedParts(n, e, e2)
    ensures UnwrapMailto(t) == n + " <" + e + ">"
  {
    var r := n + " <" + e + ">";
    NestedLazyName(t, n, e, e2);
    NestedSlices(t, n, e, e2);
    MatchPass(t, |n|, |n| + 2 + |e|, n, e);
    OneBracket(n, e);
    NestedMailtoTwoBrackets(r);
    UnwrapOnce(t, r);
  }

  /** A pass over text whose first match is the whole text from `k`
      replaces it by `n <e>`. */
  lemma MatchPass(t: string, k: nat, m: nat, n: string, e: string)
    requires FirstMatch(t) == MatchAt(k, k + 1, m, |t|) && t[..k] == n && t[k + 2..m] == e
    ensures HasNestedMailto(t) && UnwrapMailtoPass(t) == n + " <" + e + ">"
  {
    var rest := t[|t|..];
    assert rest == [] && UnwrapMailtoPass(rest) == [];
    assert LazyName(t, 0) == MatchAt(k, k + 1, m, |t|);
    assert UnwrapMailtoPass(t) == t[..k] + " <" + t[k + 2..m] + ">" + UnwrapMailtoPass(rest);
  }

  /** The loop stops after one pass when the pass leaves no match. */
  lemma UnwrapOnce(t: string, r: string)
    requires HasNestedMailto(t) && UnwrapMailtoPass(t) == r && !HasNestedMailto(r)
    ensures UnwrapMailto(t) == r
  {
  }

  lemma NestedSlices(t: string, n: string, e: string, e2: string)
    requires t == n + " <" + e + " <mailto:" + e2 + ">>"
    ensures t[..|n|] == n && t[|n| + 2..|n| + 2 + |e|] == e
  {
    NestedLayoutOf(t, n, e, e2);
  }

  lemma OneBracket(n: string, e: string)
    requires '<' !in n && '<' !in e
    ensures CountChar(n + " <" + e + ">", '<') == 1
  {
    CountCharAbsent(n, '<');
    CountCharAbsent(e, '<');
    CountCharAppend(n + " <", e + ">", '<');
    CountCharAppend(n, " <", '<');
    CountCharAppend(e, ">", '<');
    assert n + " <" + e + ">" == (n + " <") + (e + ">");
  }

  // ---------------------------------------------------------------------
  // The echo substitution on `e <e>`.

  lemma EchoAfterDotFirst(t: string, lo: nat, w: nat, x: nat)
    requires lo <= w <= |t| && EchoEnd(t, w) == Some(x)
    ensures EchoAfterDot(t, lo, w) == Some((w, x))
  {
  }

  lemma {:induction false} EchoDotResult(t: string, a: nat, w: nat, b: nat, x: nat)
    requires w <= |t| && b < w && EchoEnd(t, w) == Some(x)
    ensures EchoDot(t, a, w, b).Some? ==> EchoDot(t, a, w, b) == Some((w, x))
    decreases b
  {
    if b >= a + 2 {
      if t[b] == '.' && b + 2 <= w {
        EchoAfterDotFirst(t, b + 2, w, x);
      } else if b > 0 {
        EchoDotResult(t, a, w, b - 1, x);
      }
    }
  }

  lemma {:induction false} EchoDotFinds(t: string, a: nat, w: nat, b: nat, d: nat, x: nat)
    requires w <= |t| && b < w && EchoEnd(t, w) == Some(x)
    requires a + 2 <= d <= b && t[d] == '.' && d + 2 <= w
    ensures EchoDot(t, a, w, b) == Some((w, x))
    decreases b
  {
    if t[b] == '.' && b + 2 <= w {
      EchoAfterDotFirst(t, b + 2, w, x);
    } else {
      EchoDotFinds(t, a, w, b - 1, d, x);
    }
  }

  lemma {:induction false} EchoAtFinds(t: string, w: nat, a: nat, p: nat, d: nat, x: nat)
    requires w <= |t| && a < w && EchoEnd(t, w) == Some(x)
    requires 1 <= p <= a && t[p] == '@' && p + 2 <= d && d + 2 <= w && t[d] == '.'
    ensures EchoAt(t, w, a) == Some((w, x))
    decreases a
  {
    if a == p {
      EchoDotFinds(t, p, w, w - 1, d, x);
    } else {
      EchoDotResult(t, a, w, w - 1, x);
      EchoAtFinds(t, w, a - 1, p, d, x);
    }
  }

  lemma EchoEndAfterAddress(e: string, rest: string, t: string)
    requires t == e + " <" + e + ">" + rest
    ensures EchoEnd(t, |e|) == Some(2 * |e| + 3)
  {
    assert t[|e|] == ' ' && t[|e| + 1] == '<';
    SpaceRun(t, |e|);
    assert t[..|e|] == e;
    assert t[|e| + 2..] == e + ">" + rest;
  }

  lemma EchoMatchAddress(e: string, rest: string, t: string, p: nat, d: nat)
    requires t == e + " <" + e + ">" + rest
    requires forall i :: 0 <= i < |e| ==> !IsSpace(e[i])
    requires 1 <= p && p + 2 <= d && d + 2 <= |e| && e[p] == '@' && e[d] == '.'
    ensures EchoMatch(t) == Some((|e|, 2 * |e| + 3))
  {
    assert t[|e|] == ' ';
    assert forall i :: 0 <= i < |e| ==> t[i] == e[i];
    assert WordLen(t) == |e|;
    EchoEndAfterAddress(e, rest, t);
    EchoAtFinds(t, |e|, |e| - 1, p, d, 2 * |e| + 3);
  }

  lemma CollapseEchoOfAddress(e: string, rest: string)
    requires IsValidEmail(e)
    ensures CollapseEcho(e + " <" + e + ">" + rest) == e + CollapseEcho(rest)
  {
    var t := e + " <" + e + ">" + rest;
    ValidEmailShape(e);
    PatternGivesShape(e);
    var at := FirstIndexOf(e, '@');
    var dot := at + 1 + LastIndexOf(e[at + 1..], '.');
    forall i | 0 <= i < |e| ensures !IsSpace(e[i]) {
      assert e[i] in e;
    }
    EchoMatchAddress(e, rest, t, at, dot);
    assert t[..|e|] == e;
    assert t[2 * |e| + 3..] == rest;
  }

  // ---------------------------------------------------------------------
  // The double-bracket substitution on `<n <e>>`.
  lemma InnerBracketKeepsName(n: string, e: string, t: string)
    requires '<' !in n && '>' !in n && '<' !in e && '>' !in e && e != []
    requires t == "<" + n + " <" + e + ">>"
    ensures UnwrapDoubleBrackets(t) == "<" + n + " >"
  {
    var l := |n| + 2;
    var q := l + 1 + |e|;
    assert |t| == q + 2 && t[q] == '>' && t[q + 1] == '>' && t[l] == '<' && t[0] == '<';
    assert t[1..l] == n + " ";
    assert t[l + 1..q] == e;
    var after := t[1..];
    forall i | 0 <= i < q - 1 ensures after[i] != '>' {
      if i + 1 <= |n| {
        assert t[i + 1] == n[i];
      } else if i + 1 > l {
        assert t[i + 1] == e[i - l];
      }
    }
    FirstIndexOfIs(after, '>', q - 1);
    var before := t[..q - 1];
    forall i | l < i < |before| ensures before[i] != '<' {
      assert before[i] == e[i - l - 1];
    }
    LastIndexOfIs(before, '<', l);
    assert DoubleBracketMatch(t) == Some((l, q + 2));
    assert t[q + 2..] == [];
  }

  // ---------------------------------------------------------------------
  // The markers and the metadata test.

  /** For each marker, the system pattern it begins with. */
  const MarkerPatterns: seq<nat> := [0, 1, 2, 4, 5, 6, 7, 8, 9, 10, 11, 12, 13, 16]

  lemma MarkerStartsWithPattern(k: nat)
    requires k < |Markers|
    ensures MarkerPatterns[k] < |SystemPatterns|
    ensures StartsWith(Markers[k], SystemPatterns[MarkerPatterns[k]])
  {
  }

  /** Every marker the cleaning deletes is also a pattern of the metadata
      test, so text that passed that test holds no marker. */
  lemma MarkerIsSystemInfo(text: string, k: nat)
    requires k < |Markers| && Contains(text, Markers[k])
    ensures IsSystemInfo(text)
  {
    var m := Markers[k];
    MarkerStartsWithPattern(k);
    var p := SystemPatterns[MarkerPatterns[k]];
    ContainsTrans(text, m, p);
    ContainsLower(text, p);
    PatternMakesSystemInfo(text, MarkerPatterns[k]);
  }
}
