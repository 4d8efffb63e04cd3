/*
 * Validation of a whole string as an address and the derivation of display
 * names (find_emails.py: is_valid_email, convert_email_to_name,
 * format_name, split_names).
 */
module EmailSyntax {
  import opened Strings

  /** `[a-zA-Z0-9._%+-]`, the characters of the local part. */
  predicate IsLocalChar(c: char) {
    IsAsciiLetter(c) || IsAsciiDigit(c) || c == '.' || c == '_' || c == '%' || c == '+' || c == '-'
  }

  /** `[a-zA-Z0-9.-]`, the characters of the domain. */
  predicate IsDomainChar(c: char) {
    IsAsciiLetter(c) || IsAsciiDigit(c) || c == '.' || c == '-'
  }

  predicate AllLocal(s: string) { forall i :: 0 <= i < |s| ==> IsLocalChar(s[i]) }
  predicate AllDomain(s: string) { forall i :: 0 <= i < |s| ==> IsDomainChar(s[i]) }
  predicate AllLetters(s: string) { forall i :: 0 <= i < |s| ==> IsAsciiLetter(s[i]) }

  /** `[a-zA-Z0-9.-]+\.[a-zA-Z]{2,}` matched against the whole of `d`:
      the last dot has something before it and at least two letters after it. */
  predicate MatchesDomain(d: string) {
    var dot := LastIndexOf(d, '.');
    AllDomain(d) && 0 < dot && dot + 2 < |d| && AllLetters(d[dot + 1..])
  }

  /** `re.match(r'^[a-zA-Z0-9._%+-]+@[a-zA-Z0-9.-]+\.[a-zA-Z]{2,}$', s)`,
      decided by a scan: the local part ends at the first `@`. */
  predicate MatchesEmailPattern(s: string) {
    var at := FirstIndexOf(s, '@');
    0 < at < |s| && AllLocal(s[..at]) && MatchesDomain(s[at + 1..])
  }

  /** `is_valid_email`: the Exchange/LDAP tokens are refused first
      (case-sensitively), then the pattern decides. */
  predicate IsValidEmail(s: string) {
    !Contains(s, "/o=ExchangeLabs/") && !Contains(s, "/ou=") && MatchesEmailPattern(s)
  }

  /** The pattern read as a regular expression: some `@` at `at` and some
      `.` at `dot` split `s` into the three character classes. */
  ghost predicate EmailShape(s: string, at: int, dot: int) {
    && 0 < at && at + 1 < dot && dot + 2 < |s|
    && AllLocal(s[..at]) && s[at] == '@'
    && AllDomain(s[at + 1..dot]) && s[dot] == '.'
    && AllLetters(s[dot + 1..])
  }

  ghost predicate EmailRegex(s: string) {
    exists at, dot :: EmailShape(s, at, dot)
  }

  /** The scanner decides exactly the language of the regular expression. */
  lemma MatchesEmailPatternIsRegex(s: string)
    ensures MatchesEmailPattern(s) <==> EmailRegex(s)
  {
    if MatchesEmailPattern(s) {
      PatternGivesShape(s);
    }
    if EmailRegex(s) {
      var a, dot :| EmailShape(s, a, dot);
      ShapeGivesPattern(s, a, dot);
    }
  }

  lemma PatternGivesShape(s: string)
    requires MatchesEmailPattern(s)
    ensures EmailShape(s, FirstIndexOf(s, '@'), FirstIndexOf(s, '@') + 1 + LastIndexOf(s[FirstIndexOf(s, '@') + 1..], '.'))
  {
    var at := FirstIndexOf(s, '@');
    var d := s[at + 1..];
    var dot := at + 1 + LastIndexOf(d, '.');
    assert s[at + 1..dot] == d[..dot - at - 1];
    assert s[dot + 1..] == d[dot - at..];
  }

  lemma ShapeGivesPattern(s: string, a: int, dot: int)
    requires EmailShape(s, a, dot)
    ensures MatchesEmailPattern(s)
  {
    ShapeAt(s, a);
    ShapeDomain(s, a, dot);
  }

  /** The local class has no `@`, so the `@` after it is the first. */
  lemma ShapeAt(s: string, a: int)
    requires 0 < a < |s| && AllLocal(s[..a]) && s[a] == '@'
    ensures FirstIndexOf(s, '@') == a
  {
    assert forall i :: 0 <= i < a ==> s[..a][i] == s[i] && s[i] != '@';
    FirstIndexOfIs(s, '@', a);
  }

  lemma ShapeDomain(s: string, a: int, dot: int)
    requires EmailShape(s, a, dot)
    ensures MatchesDomain(s[a + 1..])
  {
    var d := s[a + 1..];
    var k := dot - a - 1;
    assert forall i :: 0 <= i < k ==> d[i] == s[a + 1..dot][i];
    assert d[k + 1..] == s[dot + 1..];
    LetterTail(d, k);
  }

  /** A dot followed only by letters is the last dot. */
  lemma LetterTail(d: string, k: int)
    requires 0 <= k < |d| && d[k] == '.' && AllLetters(d[k + 1..])
    ensures LastIndexOf(d, '.') == k
  {
    assert forall i :: k < i < |d| ==> d[i] == d[k + 1..][i - k - 1];
    LastIndexOfIs(d, '.', k);
  }

  /** A character that can occur in an address the pattern accepts. */
  predicate IsAddressChar(c: char) {
    IsLocalChar(c) || c == '@'
  }

  /** An accepted address: one `@`, a non-empty local part over the local
      class, a domain over the domain class ending in a dot and at least two
      letters; so no white space, no bracket, no `;` or `,` and no `/`. */
  lemma ValidEmailShape(s: string)
    requires IsValidEmail(s)
    ensures var at := FirstIndexOf(s, '@');
      && 0 < at < |s|
      && CountChar(s, '@') == 1
      && AllLocal(s[..at])
      && MatchesDomain(s[at + 1..])
    ensures forall c :: c in s ==> IsAddressChar(c)
    ensures s[0] != '@' && IsAsciiLetter(s[|s| - 1])
  {
    ValidEmailOneAt(s);
    ValidEmailChars(s);
    ValidEmailEnds(s);
  }

  /** The local part is not empty and the domain ends in a letter. */
  lemma ValidEmailEnds(s: string)
    requires MatchesEmailPattern(s)
    ensures s[0] != '@' && IsAsciiLetter(s[|s| - 1])
  {
    var at := FirstIndexOf(s, '@');
    var d := s[at + 1..];
    var dot := LastIndexOf(d, '.');
    assert d[|d| - 1] == d[dot + 1..][|d| - dot - 2];
    assert s[0] == s[..at][0];
  }

  lemma ValidEmailOneAt(s: string)
    requires MatchesEmailPattern(s)
    ensures CountChar(s, '@') == 1
  {
    var at := FirstIndexOf(s, '@');
    var d := s[at + 1..];
    assert s == s[..at] + [s[at]] + d;
    assert forall i :: 0 <= i < |d| ==> IsDomainChar(d[i]);
    assert '@' !in d;
    CountCharAbsent(s[..at], '@');
    CountCharAbsent(d, '@');
    CountCharAppend(s[..at] + [s[at]], d, '@');
    CountCharAppend(s[..at], [s[at]], '@');
  }

  lemma ValidEmailChars(s: string)
    requires MatchesEmailPattern(s)
    ensures forall c :: c in s ==> IsAddressChar(c)
  {
    var at := FirstIndexOf(s, '@');
    var d := s[at + 1..];
    forall c | c in s
      ensures IsAddressChar(c)
    {
      var i :| 0 <= i < |s| && s[i] == c;
      if i < at {
        assert s[..at][i] == c;
      } else if i > at {
        assert d[i - at - 1] == c;
      }
    }
  }

  /** The Exchange test is subsumed by the pattern: neither token can occur in
      a string the pattern accepts, since `/` is in neither class. */
  lemma ExchangeTestRedundant(s: string)
    ensures IsValidEmail(s) <==> MatchesEmailPattern(s)
  {
    if MatchesEmailPattern(s) {
      var at := FirstIndexOf(s, '@');
      var d := s[at + 1..];
      assert forall i :: 0 <= i < |s| ==> s[i] != '/' by {
        forall i | 0 <= i < |s|
          ensures s[i] != '/'
        {
          if i < at {
            assert s[..at][i] == s[i];
          } else if i > at {
            assert d[i - at - 1] == s[i];
          }
        }
      }
      assert "/ou="[0] == '/';
      NotContainsChar(s, "/o=ExchangeLabs/", 0);
      NotContainsChar(s, "/ou=", 0);
    }
  }

  /** `s.capitalize()`: the first character upper-cased, the rest lower-cased. */
  function Capitalize(s: string): (r: string)
    ensures |r| == |s|
    ensures Lower(r) == Lower(s)
  {
    if s == [] then [] else [UpperChar(s[0])] + Lower(s[1..])
  }

  /** `[p.capitalize() for p in parts if p]` */
  function CapitalizeNonEmpty(parts: seq<string>): (r: seq<string>)
    ensures |r| <= |parts|
    ensures forall k :: 0 <= k < |r| ==> r[k] != []
  {
    if parts == [] then []
    else (if parts[0] == [] then [] else [Capitalize(parts[0])]) + CapitalizeNonEmpty(parts[1..])
  }

  /** The text before the first `@`: `email.split('@')[0]`. */
  function LocalPart(email: string): (l: string)
    ensures '@' !in l
    ensures StartsWith(email, l)
  {
    email[..FirstIndexOf(email, '@')]
  }

  /** `convert_email_to_name`: the local part split on `.` and `_`, empty
      pieces dropped, each piece capitalised, joined with single spaces. */
  function ConvertEmailToName(email: string): string {
    Join(CapitalizeNonEmpty(SplitOn(LocalPart(email), {'.', '_'})), " ")
  }


  /** Capitalising the non-empty pieces brings in no character other than a letter. */
  lemma CapitalizeNonEmptyAvoids(parts: seq<string>, c: char)
    requires !IsAsciiLetter(c)
    requires forall k :: 0 <= k < |parts| ==> c !in parts[k]
    ensures forall k :: 0 <= k < |CapitalizeNonEmpty(parts)| ==> c !in CapitalizeNonEmpty(parts)[k]
  {
    if parts != [] {
      CapitalizeNonEmptyAvoids(parts[1..], c);
      if parts[0] != [] {
        LowerSameNonLetter(Capitalize(parts[0]), parts[0], c);
      }
    }
  }

  lemma LowerConcatCapitalized(parts: seq<string>)
    ensures Lower(Concat(CapitalizeNonEmpty(parts))) == Lower(Concat(parts))
  {
    if parts != [] {
      var r := CapitalizeNonEmpty(parts[1..]);
      LowerConcatCapitalized(parts[1..]);
      LowerAppend(parts[0], Concat(parts[1..]));
      if parts[0] != [] {
        var p := Capitalize(parts[0]);
        assert CapitalizeNonEmpty(parts) == [p] + r;
        assert Concat([p] + r) == p + Concat(r);
        LowerAppend(p, Concat(r));
      } else {
        assert CapitalizeNonEmpty(parts) == r;
      }
    }
  }

  /** Apart from letters, whose case may change, and the joining spaces,
      every character of the derived name comes from the local part, and
      none of them is a separator `.` or `_` (nor `@`). */
  lemma ConvertEmailToNameChars(email: string, c: char)
    requires !IsAsciiLetter(c) && c != ' '
    ensures c in ConvertEmailToName(email) ==> c in LocalPart(email) && c != '.' && c != '_' && c != '@'
  {
    var l := LocalPart(email);
    var parts := SplitOn(l, {'.', '_'});
    if c !in l || c == '.' || c == '_' {
      CapitalizeNonEmptyAvoids(parts, c);
      JoinAvoids(CapitalizeNonEmpty(parts), " ", c);
    }
  }

  /** A local part without white space gives a single-spaced name. */
  lemma ConvertEmailToNameSpacing(email: string)
    requires forall i :: 0 <= i < |LocalPart(email)| ==> !IsSpace(LocalPart(email)[i])
    ensures SingleSpaced(ConvertEmailToName(email))
  {
    var l := LocalPart(email);
    var parts := SplitOn(l, {'.', '_'});
    var caps := CapitalizeNonEmpty(parts);
    forall c | IsSpace(c)
      ensures forall k :: 0 <= k < |caps| ==> c !in caps[k]
    {
      assert c !in l;
      CapitalizeNonEmptyAvoids(parts, c);
    }
    JoinWordsSingleSpaced(caps);
  }

  /** Up to case, the name with its spaces removed is the local part with
      its separators removed: no letter or digit is lost or added. */
  lemma ConvertEmailToNameKeepsText(email: string)
    requires ' ' !in LocalPart(email)
    ensures Lower(Without(ConvertEmailToName(email), {' '})) == Lower(Without(LocalPart(email), {'.', '_'}))
  {
    var l := LocalPart(email);
    var parts := SplitOn(l, {'.', '_'});
    var caps := CapitalizeNonEmpty(parts);
    CapitalizeNonEmptyAvoids(parts, ' ');
    JoinWithout(caps, ' ', {' '});
    LowerConcatCapitalized(parts);
    SplitOnWithout(l, {'.', '_'});
  }

  /** The name derived from an accepted address is single-spaced and holds
      no `;` or `,`, so it survives `split_names` as one entry. */
  lemma ValidEmailName(email: string)
    requires IsValidEmail(email)
    ensures SingleSpaced(ConvertEmailToName(email))
    ensures ';' !in ConvertEmailToName(email) && ',' !in ConvertEmailToName(email)
  {
    var l := LocalPart(email);
    assert AllLocal(l);
    ConvertEmailToNameSpacing(email);
    ConvertEmailToNameChars(email, ';');
    ConvertEmailToNameChars(email, ',');
  }

  /** `[;,]`, the separators of a name list. */
  const NameSeparators: set<char> := {';', ','}

  /** An entry that joining with `;` and splitting again leaves alone. */
  predicate IsNameEntry(n: string) {
    Trimmed(n) && ';' !in n && ',' !in n
  }

  /** The non-empty strings of `xs`, in order. */
  function NonEmpty(xs: seq<string>): (r: seq<string>)
    ensures |r| <= |xs|
    ensures forall k :: 0 <= k < |r| ==> r[k] != [] && r[k] in xs
  {
    if xs == [] then []
    else
      var last := xs[|xs| - 1];
      NonEmpty(xs[..|xs| - 1]) + (if last == [] then [] else [last])
  }

  /** The body of the `split_names` loop over the pieces seen so far: each
      piece stripped, the empty ones dropped. */
  function NameParts(parts: seq<string>): seq<string> {
    if parts == [] then []
    else
      var name := Strip(parts[|parts| - 1]);
      NameParts(parts[..|parts| - 1]) + (if name == [] then [] else [name])
  }

  /** `split_names`: the text split on `;` and `,`, each piece stripped,
      the empty ones dropped; empty text gives no names. */
  function NameList(text: string): seq<string> {
    if text == [] then [] else NameParts(SplitOn(text, NameSeparators))
  }

  method SplitNames(text: string) returns (names: seq<string>)
    ensures names == NameList(text)
  {
    if text == [] {
      return [];
    }
    var parts := SplitOn(text, NameSeparators);
    names := [];
    for k := 0 to |parts|
      invariant names == NameParts(parts[..k])
    {
      NamePartsStep(parts, k);
      var name := Strip(parts[k]);
      if name != [] {
        names := names + [name];
      }
    }
    assert parts[..|parts|] == parts;
  }

  lemma NamePartsStep(parts: seq<string>, k: nat)
    requires k < |parts|
    ensures NameParts(parts[..k + 1]) ==
      NameParts(parts[..k]) + (if Strip(parts[k]) == [] then [] else [Strip(parts[k])])
  {
    assert parts[..k + 1][..k] == parts[..k];
  }

  lemma {:induction false} NamePartsEntries(parts: seq<string>)
    requires forall k :: 0 <= k < |parts| ==> ';' !in parts[k] && ',' !in parts[k]
    ensures forall k :: 0 <= k < |NameParts(parts)| ==> NameParts(parts)[k] != [] && IsNameEntry(NameParts(parts)[k])
  {
    if parts != [] {
      var last := parts[|parts| - 1];
      NamePartsEntries(parts[..|parts| - 1]);
      var name := Strip(last);
      assert ';' !in name && ',' !in name;
    }
  }

  /** Every name `split_names` returns is non-empty, has no white space at
      either end and holds no separator. */
  lemma NameListEntries(text: string)
    ensures forall k :: 0 <= k < |NameList(text)| ==> NameList(text)[k] != [] && IsNameEntry(NameList(text)[k])
  {
    if text != [] {
      NamePartsEntries(SplitOn(text, NameSeparators));
    }
  }

  lemma {:induction false} NamePartsOfEntries(xs: seq<string>)
    requires forall k :: 0 <= k < |xs| ==> Trimmed(xs[k])
    ensures NameParts(xs) == NonEmpty(xs)
  {
    if xs != [] {
      NamePartsOfEntries(xs[..|xs| - 1]);
    }
  }

  /** Joining entries with `;` and splitting the result again gives back the
      entries, less the empty ones. */
  lemma NameListOfJoin(xs: seq<string>)
    requires forall k :: 0 <= k < |xs| ==> IsNameEntry(xs[k])
    ensures NameList(Join(xs, ";")) == NonEmpty(xs)
  {
    if xs != [] {
      SplitJoin(xs, ';', NameSeparators);
      NamePartsOfEntries(xs);
      if Join(xs, ";") == [] {
        assert |xs| == 1 && xs[0] == [];
        assert NonEmpty(xs) == NonEmpty([]) + [];
      }
    }
  }

  /** The kept names round-trip through `';'.join` and `split_names`. */
  lemma SplitNamesRoundTrip(text: string)
    ensures NameList(Join(NameList(text), ";")) == NameList(text)
  {
    var ns := NameList(text);
    NameListEntries(text);
    NameListOfJoin(ns);
    NonEmptyOfNonEmpty(ns);
  }

  lemma {:induction false} NonEmptyOfNonEmpty(xs: seq<string>)
    requires forall k :: 0 <= k < |xs| ==> xs[k] != []
    ensures NonEmpty(xs) == xs
  {
    if xs != [] {
      NonEmptyOfNonEmpty(xs[..|xs| - 1]);
      assert xs[..|xs| - 1] + [xs[|xs| - 1]] == xs;
    }
  }

  /** `'@' in s and is_valid_email(s)`: the test `format_name` applies. */
  predicate IsAddress(s: string) {
    '@' in s && IsValidEmail(s)
  }

  /** The `format_name` loop over the pieces seen so far: an address is
      replaced by the name derived from it, other non-empty pieces are kept
      stripped. */
  function FormatParts(parts: seq<string>): seq<string> {
    if parts == [] then []
    else FormatParts(parts[..|parts| - 1]) + FormatPart(Strip(parts[|parts| - 1]))
  }

  /** What one stripped piece contributes. */
  function FormatPart(part: string): seq<string> {
    if IsAddress(part) then [ConvertEmailToName(part)] else if part != [] then [part] else []
  }

  lemma FormatPartsStep(parts: seq<string>, k: nat)
    requires k < |parts|
    ensures FormatParts(parts[..k + 1]) == FormatParts(parts[..k]) + FormatPart(Strip(parts[k]))
  {
    assert parts[..k + 1][..k] == parts[..k];
  }

  /** The entries `format_name` joins: the whole text is converted when it
      is itself an address, otherwise each piece between `;` and `,`. */
  function FormattedParts(name: string): seq<string> {
    if IsAddress(name) then [ConvertEmailToName(name)] else FormatParts(SplitOn(name, NameSeparators))
  }

  /** `format_name` */
  function FormattedName(name: string): string {
    Join(FormattedParts(name), ";")
  }

  method FormatName(name: string) returns (r: string)
    ensures r == FormattedName(name)
    ensures ',' !in r
    ensures name == [] ==> r == []
  {
    if '@' in name && IsValidEmail(name) {
      r := ConvertEmailToName(name);
      FormattedNameClean(name, r);
      return;
    }
    var parts := SplitOn(name, NameSeparators);
    var names := [];
    for k := 0 to |parts|
      invariant names == FormatParts(parts[..k])
    {
      FormatPartsStep(parts, k);
      var part := Strip(parts[k]);
      if '@' in part && IsValidEmail(part) {
        names := names + [ConvertEmailToName(part)];
      } else if part != [] {
        names := names + [part];
      }
    }
    assert parts[..|parts|] == parts;
    r := Join(names, ";");
    FormattedNameClean(name, r);
  }

  lemma FormattedNameClean(name: string, r: string)
    ensures r == FormattedName(name) ==> ',' !in r && (name == [] ==> r == [])
  {
    SplitFormattedName(name);
  }

  lemma {:induction false} FormatPartsEntries(parts: seq<string>)
    requires forall k :: 0 <= k < |parts| ==> ';' !in parts[k] && ',' !in parts[k]
    ensures forall k :: 0 <= k < |FormatParts(parts)| ==> IsNameEntry(FormatParts(parts)[k])
  {
    if parts != [] {
      var init, last := parts[..|parts| - 1], parts[|parts| - 1];
      assert forall k :: 0 <= k < |init| ==> init[k] == parts[k];
      FormatPartsEntries(init);
      FormatPartEntries(last);
      var a, b := FormatParts(init), FormatPart(Strip(last));
      assert FormatParts(parts) == a + b;
      forall k | 0 <= k < |a + b| ensures IsNameEntry((a + b)[k]) {
        if k < |a| {
          assert (a + b)[k] == a[k];
        } else {
          assert (a + b)[k] == b[k - |a|];
        }
      }
    }
  }

  lemma FormatPartEntries(raw: string)
    requires ';' !in raw && ',' !in raw
    ensures forall k :: 0 <= k < |FormatPart(Strip(raw))| ==> IsNameEntry(FormatPart(Strip(raw))[k])
  {
    var part := Strip(raw);
    if IsAddress(part) {
      ValidEmailName(part);
    }
  }

  /** Every entry of a formatted name is trimmed and holds no separator. */
  lemma FormattedPartsEntries(name: string)
    ensures forall k :: 0 <= k < |FormattedParts(name)| ==> IsNameEntry(FormattedParts(name)[k])
  {
    if IsAddress(name) {
      ValidEmailName(name);
    } else {
      FormatPartsEntries(SplitOn(name, NameSeparators));
    }
  }

  /** `split_names(format_name(x))` recovers exactly the non-empty entries
      `format_name` produced: the `;` it joins with is the separator
      `split_names` splits on, and no entry holds one. */
  lemma SplitFormattedName(name: string)
    ensures NameList(FormattedName(name)) == NonEmpty(FormattedParts(name))
    ensures ',' !in FormattedName(name)
    ensures name == [] ==> FormattedName(name) == []
  {
    FormattedPartsEntries(name);
    NameListOfJoin(FormattedParts(name));
    JoinAvoids(FormattedParts(name), ";", ',');
    if name == [] {
      var parts := SplitOn(name, NameSeparators);
      assert parts == [[]];
      assert FormatParts(parts) == FormatParts([]) + [];
    }
  }

  lemma {:induction false} FormatPartsWithoutAddresses(parts: seq<string>)
    requires forall k :: 0 <= k < |parts| ==> '@' !in parts[k]
    ensures FormatParts(parts) == NameParts(parts)
  {
    if parts != [] {
      FormatPartsWithoutAddresses(parts[..|parts| - 1]);
      var last := parts[|parts| - 1];
      assert '@' !in Strip(last);
    }
  }

  /** Text with no `@` is only normalised: `format_name` gives the names of
      `split_names` joined with `;`, and splitting that again changes nothing. */
  lemma FormatNameWithoutAddress(name: string)
    requires '@' !in name
    ensures FormattedName(name) == Join(NameList(name), ";")
    ensures NameList(FormattedName(name)) == NameList(name)
  {
    var parts := SplitOn(name, NameSeparators);
    FormatPartsWithoutAddresses(parts);
    if name == [] {
      assert parts == [[]];
      assert FormatParts(parts) == FormatParts([]) + [];
    }
    SplitNamesRoundTrip(name);
  }

  // A worked example of convert_email_to_name.
  lemma JohnLocal(email: string, l: string)
    requires email == "john.doe@example.com" && l == "john.doe"
    ensures LocalPart(email) == l
  {
    FirstIndexOfIs(email, '@', 8);
  }
  lemma JohnSplit(l: string, a: string, b: string, cs: set<char>)
    requires l == "john.doe" && a == "john" && b == "doe" && cs == {'.', '_'}
    ensures SplitOn(l, cs) == [a, b]
  {
    assert l[4] in cs;
    assert FirstIndexIn(l, cs) == 4;
    assert l[..4] == a && l[5..] == b;
    assert FirstIndexIn(b, cs) == 3;
  }
  lemma JohnCapitalized(a: string, b: string, a2: string, b2: string)
    requires a == "john" && b == "doe" && a2 == "John" && b2 == "Doe"
    ensures CapitalizeNonEmpty([a, b]) == [a2, b2]
  {
    assert Capitalize(a) == a2;
    assert Capitalize(b) == b2;
    assert [a, b][1..] == [b];
  }
  lemma JohnJoin(a2: string, b2: string, name: string)
    requires a2 == "John" && b2 == "Doe" && name == "John Doe"
    ensures Join([a2, b2], " ") == name
  {
    assert [a2, b2][1..] == [b2];
  }
  lemma ConvertSteps(email: string, l: string, a: string, b: string, a2: string, b2: string, name: string)
    requires email == "john.doe@example.com" && l == "john.doe" && a == "john" && b == "doe"
    requires a2 == "John" && b2 == "Doe" && name == "John Doe"
    ensures ConvertEmailToName(email) == name
  {
    JohnLocal(email, l);
    JohnSplit(l, a, b, {'.', '_'});
    JohnCapitalized(a, b, a2, b2);
    JohnJoin(a2, b2, name);
  }
  /** "john.doe@example.com" is shown as "John Doe". */
  lemma ConvertJohnDoe(email: string, name: string)
    requires email == "john.doe@example.com" && name == "John Doe"
    ensures ConvertEmailToName(email) == name
  {
    ConvertSteps(email, "john.doe", "john", "doe", "John", "Doe", name);
  }
}
