/** The two text helpers of the CSV inspection script: a cleaner that
    reduces `Name <address>` to the address, and a finder for the display
    names written before `<address>`. Both are regular-expression
    substitutions, modelled as leftmost scanners. */
module ShowCsv {
  import opened Strings
  import Cleaning

  // ---------------------------------------------------------------------
  // clean_email_text

  /** `[^<]*<([^>]+)>` at the start of `t`: the positions of the first `<`
      and of the `>` closing the group, if it matches. The run `[^<]*`
      can only end at the first `<`, and the greedy `[^>]+` at the first
      `>` after it, which must leave the group non-empty. */
  function BracketAt(t: string): (m: Option<(nat, nat)>)
    ensures m.Some? ==> m.value.0 + 1 < m.value.1 < |t|
    ensures m.Some? ==> t[m.value.0] == '<' && t[m.value.1] == '>'
  {
    var a := FirstIndexOf(t, '<');
    if a == |t| then None
    else
      var b := a + 1 + FirstIndexOf(t[a + 1..], '>');
      if a + 1 < b < |t| then Some((a, b)) else None
  }

  /** `re.sub(r'[^<]*<([^>]+)>', r'\1', t)`: every match is replaced by its
      group; where no match starts, one character is kept and the scan
      moves on. */
  function UnwrapBrackets(t: string): (r: string)
    ensures |r| <= |t|
    decreases |t|
  {
    if t == [] then []
    else
      match BracketAt(t)
      case Some((a, b)) => t[a + 1..b] + UnwrapBrackets(t[b + 1..])
      case None => [t[0]] + UnwrapBrackets(t[1..])
  }

  /** `clean_email_text`: the `<mailto:...>` tags are deleted, then each
      `prefix<X>` becomes `X`. The result is never longer than the
      input. */
  function CleanEmailText(text: string): (r: string)
    ensures |r| <= |text|
  {
    UnwrapBrackets(Cleaning.DropMailtoTags(text))
  }

  lemma {:induction false} UnwrapBracketsWithoutBracket(t: string)
    requires '<' !in t
    ensures UnwrapBrackets(t) == t
    decreases |t|
  {
    if t != [] {
      FirstIndexOfFound(t, '<');
      assert t[1..] == t[1..] && '<' !in t[1..] by {
        forall i | 0 <= i < |t| - 1 ensures t[1..][i] != '<' {
          assert t[1..][i] == t[i + 1];
        }
      }
      UnwrapBracketsWithoutBracket(t[1..]);
      assert [t[0]] + t[1..] == t;
    }
  }

  /** Text without `<` is left as it is. */
  lemma CleanWithoutBracket(text: string)
    requires '<' !in text
    ensures CleanEmailText(text) == text
  {
    Cleaning.DropMailtoTagsWithoutBracket(text);
    UnwrapBracketsWithoutBracket(text);
  }

  /** A bracketed address after text without `<` is replaced by the
      address, and the scan goes on after its `>`. */
  lemma UnwrapBracketsEntry(name: string, addr: string, rest: string)
    requires '<' !in name && addr != [] && '>' !in addr
    ensures UnwrapBrackets(name + "<" + addr + ">" + rest) == addr + UnwrapBrackets(rest)
  {
    var t := name + "<" + addr + ">" + rest;
    var a, b := |name|, |name| + 1 + |addr|;
    BracketAtEntry(name, addr, rest, t);
    EntrySlices(name, addr, rest, t, a, b);
    UnwrapBracketsAt(t, a, b);
  }

  lemma EntrySlices(name: string, addr: string, rest: string, t: string, a: nat, b: nat)
    requires t == name + "<" + addr + ">" + rest && a == |name| && b == a + 1 + |addr|
    ensures b + 1 <= |t| && t[a + 1..b] == addr && t[b + 1..] == rest
  {
  }

  /** Where `name<addr>` starts the text, the match is that entry. */
  lemma BracketAtEntry(name: string, addr: string, rest: string, t: string)
    requires '<' !in name && addr != [] && '>' !in addr
    requires t == name + "<" + addr + ">" + rest
    ensures BracketAt(t) == Some((|name|, |name| + 1 + |addr|))
  {
    var a := |name|;
    forall i | 0 <= i < a ensures t[i] != '<' {
      assert t[i] == name[i];
    }
    FirstIndexOfIs(t, '<', a);
    var tail := t[a + 1..];
    forall i | 0 <= i < |addr| ensures tail[i] != '>' {
      assert tail[i] == addr[i];
    }
    FirstIndexOfIs(tail, '>', |addr|);
  }

  /** One step of the scan at a match. */
  lemma UnwrapBracketsAt(t: string, a: nat, b: nat)
    requires BracketAt(t) == Some((a, b))
    ensures b < |t| && a + 1 < b
    ensures UnwrapBrackets(t) == t[a + 1..b] + UnwrapBrackets(t[b + 1..])
  {
  }

  /** Tag removal copies text without `<` unchanged. */
  lemma DropMailtoTagsPrefix(name: string, rest: string)
    requires '<' !in name
    ensures Cleaning.DropMailtoTags(name + rest) == name + Cleaning.DropMailtoTags(rest)
  {
    DropTagsCopy(name, rest);
  }

  lemma {:induction false} DropTagsCopy(name: string, rest: string)
    requires forall i :: 0 <= i < |name| ==> name[i] != '<'
    ensures Cleaning.DropMailtoTags(name + rest) == name + Cleaning.DropMailtoTags(rest)
    decreases |name|
  {
    if name != [] {
      var t := name + rest;
      var d := Cleaning.DropMailtoTags(rest);
      assert t[0] == name[0];
      assert t[1..] == name[1..] + rest;
      DropTagsPlainStep(t);
      DropTagsCopy(name[1..], rest);
      assert [name[0]] + (name[1..] + d) == name + d;
    } else {
      assert name + rest == rest;
    }
  }

  /** A character other than `<` is copied. */
  lemma DropTagsPlainStep(t: string)
    requires t != [] && t[0] != '<'
    ensures Cleaning.DropMailtoTags(t) == [t[0]] + Cleaning.DropMailtoTags(t[1..])
  {
    assert Cleaning.MailtoTagEnd(t) == None;
  }

  /** A bracket that does not open `<mailto:` survives tag removal. */
  lemma DropMailtoTagsKeepsBracket(addr: string)
    requires '<' !in addr && !StartsWith(addr, "mailto:")
    ensures Cleaning.DropMailtoTags("<" + addr + ">") == "<" + addr + ">"
  {
    var t := "<" + addr + ">";
    NotMailtoTag(addr, t);
    assert Cleaning.MailtoTagEnd(t) == None;
    assert t[1..] == addr + ">";
    assert '<' !in addr + ">";
    Cleaning.DropMailtoTagsWithoutBracket(addr + ">");
    assert [t[0]] + t[1..] == t;
  }

  lemma NotMailtoTag(addr: string, t: string)
    requires !StartsWith(addr, "mailto:") && t == "<" + addr + ">"
    ensures !StartsWith(t, "<mailto:")
  {
    if |addr| >= 7 {
      assert t[1..8] == addr[..7];
      assert t[..8][1..] == t[1..8];
    } else if |t| >= 8 {
      assert t[..8][7] == t[7] == '>';
    }
  }

  /** `Name <address>` is cleaned to `address`, the reduction the cleaner
      exists for, when the address holds no bracket and is not a mailto
      target. */
  lemma CleanDisplayAddress(name: string, addr: string)
    requires '<' !in name && addr != [] && '<' !in addr && '>' !in addr
    requires !StartsWith(addr, "mailto:")
    ensures CleanEmailText(name + "<" + addr + ">") == addr
  {
    var t := name + "<" + addr + ">";
    assert t == name + ("<" + addr + ">");
    DropMailtoTagsPrefix(name, "<" + addr + ">");
    DropMailtoTagsKeepsBracket(addr);
    assert name + "<" + addr + ">" + [] == t;
    UnwrapBracketsEntry(name, addr, []);
  }

  /** `Kübra Binzat <kubra.binzat@yzf.com.tr>` gives
      `kubra.binzat@yzf.com.tr`. */
  lemma CleanKubraExample(text: string, name: string, addr: string)
    requires text == "Kübra Binzat <kubra.binzat@yzf.com.tr>"
    requires name == "Kübra Binzat " && addr == "kubra.binzat@yzf.com.tr"
    ensures CleanEmailText(text) == addr
  {
    assert text == name + "<" + addr + ">";
    KubraParts(name, addr);
    CleanDisplayAddress(name, addr);
  }

  lemma KubraParts(name: string, addr: string)
    requires name == "Kübra Binzat " && addr == "kubra.binzat@yzf.com.tr"
    ensures '<' !in name && addr != [] && '<' !in addr && '>' !in addr
    ensures !StartsWith(addr, "mailto:")
  {
    assert addr[0] != 'm';
  }

  // ---------------------------------------------------------------------
  // get_names_from_text

  /** `([^<>]+)\s*<[^>]+>` at the start of `t`: the end of group 1 (the
      first `<` or `>`) and the position of the closing `>`, if it
      matches. The greedy group 1 stops at the first bracket, which must
      be a `<` and must not be the first character; `\s*` then matches
      nothing. */
  function NameAt(t: string): (m: Option<(nat, nat)>)
    ensures m.Some? ==> 0 < m.value.0 && m.value.0 + 1 < m.value.1 < |t|
    ensures m.Some? ==> t[m.value.0] == '<' && '<' !in t[..m.value.0] && '>' !in t[..m.value.0]
  {
    var a := FirstIndexIn(t, {'<', '>'});
    if 0 < a < |t| && t[a] == '<' then
      var b := a + 1 + FirstIndexOf(t[a + 1..], '>');
      if a + 1 < b < |t| then Some((a, b)) else None
    else None
  }

  /** `re.findall(r'([^<>]+)\s*<[^>]+>', t)`: group 1 of every match, left
      to right. */
  function NameGroups(t: string): seq<string>
    decreases |t|
  {
    if t == [] then []
    else
      match NameAt(t)
      case Some((a, b)) => [t[..a]] + NameGroups(t[b + 1..])
      case None => NameGroups(t[1..])
  }

  /** `get_names_from_text`: the groups, stripped. */
  function GetNamesFromText(text: string): (names: seq<string>)
    ensures |names| == |NameGroups(text)|
  {
    var groups := NameGroups(text);
    seq(|groups|, i requires 0 <= i < |groups| => Strip(groups[i]))
  }

  /** The groups hold no bracket, and there are at most as many as the
      text has `<`. */
  lemma {:induction false} NameGroupsShape(t: string)
    ensures forall k :: 0 <= k < |NameGroups(t)| ==> '<' !in NameGroups(t)[k] && '>' !in NameGroups(t)[k]
    ensures |NameGroups(t)| <= CountChar(t, '<')
    decreases |t|
  {
    if t != [] {
      match NameAt(t)
      case Some((a, b)) =>
        NameGroupsShape(t[b + 1..]);
        assert t == t[..b + 1] + t[b + 1..];
        CountCharAppend(t[..b + 1], t[b + 1..], '<');
        CountCharPositive(t[..b + 1], '<', a);
      case None =>
        NameGroupsShape(t[1..]);
    }
  }

  /** The names are trimmed and hold no bracket; there are at most as many
      as the text has `<`, and none at all when it has none. */
  lemma GetNamesShape(text: string)
    ensures forall k :: 0 <= k < |GetNamesFromText(text)| ==>
      var n := GetNamesFromText(text)[k];
      Trimmed(n) && '<' !in n && '>' !in n
    ensures |GetNamesFromText(text)| <= CountChar(text, '<')
    ensures '<' !in text ==> GetNamesFromText(text) == []
  {
    NameGroupsShape(text);
    if '<' !in text {
      CountCharAbsent(text, '<');
    }
  }

  /** A name before a bracketed address is found, and the search goes on
      after the `>`: names come out in text order. */
  lemma NameGroupsEntry(name: string, addr: string, rest: string)
    requires name != [] && '<' !in name && '>' !in name && addr != [] && '>' !in addr
    ensures NameGroups(name + "<" + addr + ">" + rest) == [name] + NameGroups(rest)
  {
    var t := name + "<" + addr + ">" + rest;
    var a := |name|;
    var b := a + 1 + |addr|;
    forall i | 0 <= i < a ensures t[i] !in {'<', '>'} {
      assert t[i] == name[i];
    }
    assert t[a] == '<';
    FirstIndexInIs(t, {'<', '>'}, a);
    var tail := t[a + 1..];
    forall i | 0 <= i < |addr| ensures tail[i] != '>' {
      assert tail[i] == addr[i];
    }
    assert tail[|addr|] == '>';
    FirstIndexOfIs(tail, '>', |addr|);
    assert NameAt(t) == Some((a as nat, b as nat));
    assert t[..a] == name;
    assert t[b + 1..] == rest;
  }

  lemma FirstIndexInIs(s: string, cs: set<char>, k: nat)
    requires k < |s| && s[k] in cs && forall i :: 0 <= i < k ==> s[i] !in cs
    ensures FirstIndexIn(s, cs) == k
  {
  }

  /** Two entries in a row give two names, in order. */
  lemma NameGroupsTwo(t: string, n1: string, a1: string, n2: string, a2: string)
    requires n1 != [] && '<' !in n1 && '>' !in n1 && a1 != [] && '>' !in a1
    requires n2 != [] && '<' !in n2 && '>' !in n2 && a2 != [] && '>' !in a2
    requires t == (n1 + "<" + a1 + ">") + (n2 + "<" + a2 + ">")
    ensures NameGroups(t) == [n1, n2]
  {
    var second := n2 + "<" + a2 + ">";
    NameGroupsEntry(n1, a1, second);
    assert second == n2 + "<" + a2 + ">" + [];
    NameGroupsEntry(n2, a2, []);
  }

  /** Two entries separated by `; ` give two names, and the separator
      stays with the second: the group starts right after the previous
      match. */
  lemma NamesKeepSeparator(text: string, n1: string, a1: string, n2: string, a2: string)
    requires text == "A <a@x.com>; B <b@x.com>"
    requires n1 == "A " && a1 == "a@x.com" && n2 == "; B " && a2 == "b@x.com"
    ensures GetNamesFromText(text) == ["A", "; B"]
  {
    SeparatorText(text, n1, a1, n2, a2);
    SeparatorParts(n1, a1, n2, a2);
    NameGroupsTwo(text, n1, a1, n2, a2);
    SeparatorNames(n1, n2);
  }

  lemma SeparatorText(text: string, n1: string, a1: string, n2: string, a2: string)
    requires text == "A <a@x.com>; B <b@x.com>"
    requires n1 == "A " && a1 == "a@x.com" && n2 == "; B " && a2 == "b@x.com"
    ensures text == (n1 + "<" + a1 + ">") + (n2 + "<" + a2 + ">")
  {
  }

  lemma SeparatorParts(n1: string, a1: string, n2: string, a2: string)
    requires n1 == "A " && a1 == "a@x.com" && n2 == "; B " && a2 == "b@x.com"
    ensures n1 != [] && '<' !in n1 && '>' !in n1 && a1 != [] && '>' !in a1
    ensures n2 != [] && '<' !in n2 && '>' !in n2 && a2 != [] && '>' !in a2
  {
  }

  lemma SeparatorNames(n1: string, n2: string)
    requires n1 == "A " && n2 == "; B "
    ensures Strip(n1) == "A" && Strip(n2) == "; B"
  {
    StripPadded("A", "", " ");
    assert "" + "A" + " " == n1;
    StripPadded("; B", "", " ");
    assert "" + "; B" + " " == n2;
  }
}
