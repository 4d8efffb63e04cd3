/*
 * Recognition of mail-system metadata in an address field
 * (find_emails.py: is_system_info).
 */
module SystemInfo {
  import opened Strings
  import opened EmailSyntax

  /** The tokens whose presence, ignoring case, marks a field as metadata
      written by the mail system rather than an address. */
  const SystemPatterns: seq<string> := [
    "SMTP:", "EX:", ";EX:", "Exchange", "/O=EXCHANGELABS/", "/OU=",
    "IMCEAEX-", "outlook_", "SPF", "DKIM", "DMARC", "/CN=",
    "X-MS-Exchange", "X-Microsoft", "Microsoft Exchange", "AutoDiscover",
    "/DC=", "smtp.mailfrom"
  ]

  /** `is_system_info`: empty text is not metadata; otherwise some pattern
      occurs in the text once both are lower-cased. */
  predicate IsSystemInfo(text: string) {
    text != [] && exists k :: 0 <= k < |SystemPatterns| && Contains(Lower(text), Lower(SystemPatterns[k]))
  }

  /** A text holding one of the patterns, in any case, is metadata. */
  lemma PatternMakesSystemInfo(text: string, k: nat)
    requires k < |SystemPatterns|
    requires Contains(Lower(text), Lower(SystemPatterns[k]))
    ensures IsSystemInfo(text)
  {
    ContainsIff(Lower(text), Lower(SystemPatterns[k]));
  }

  /** The test ignores case: upper- or lower-casing the text never changes it. */
  lemma SystemInfoIgnoresCase(text: string)
    ensures IsSystemInfo(Upper(text)) <==> IsSystemInfo(text)
    ensures IsSystemInfo(Lower(text)) <==> IsSystemInfo(text)
  {
    LowerForgetsCase(text);
  }

  // A worked example.
  lemma ExchangeLocal(e: string)
    requires e == "exchange.team@corp.com"
    ensures FirstIndexOf(e, '@') == 13 && AllLocal(e[..13])
  {
    FirstIndexOfIs(e, '@', 13);
    var l := e[..13];
    assert l == "exchange.team";
  }
  lemma CorpDomain(d: string)
    requires d == "corp.com"
    ensures MatchesDomain(d)
  {
    assert forall i | 0 <= i < |d| :: d[i] in "corp.com";
    LastIndexOfIs(d, '.', 4);
    assert forall i | 0 <= i < 3 :: d[5..][i] in "com";
  }
  lemma ExchangeWord(e: string, p: string)
    requires e == "exchange.team@corp.com" && p == "Exchange"
    ensures Contains(Lower(e), Lower(p))
  {
    assert Lower(e)[..8] == Lower(p);
  }
  /** An address the validity test accepts can still be refused as metadata:
      the word "exchange" in its local part is enough. */
  lemma ValidAddressCanBeSystemInfo(e: string)
    requires e == "exchange.team@corp.com"
    ensures IsValidEmail(e) && IsSystemInfo(e)
  {
    ExchangeLocal(e);
    CorpDomain(e[14..]);
    ExchangeTestRedundant(e);
    ExchangeWord(e, SystemPatterns[3]);
    PatternMakesSystemInfo(e, 3);
  }
}
