/*
 * Character classes and the small Python string operations that the
 * address pipeline is built from: `str.isspace`, `str.strip`,
 * `str.split()`, `sep.join`, `str.lower`, `str.startswith`, `in`,
 * and `re.split` on a one-character class.
 *
 * Case mapping is restricted to ASCII letters; every other character is
 * left as it is.
 */
module Strings {

  datatype Option<T> = None | Some(value: T)

  /** The characters for which Python's `str.isspace()` holds; `\s`,
      `str.split()` and `str.strip()` all use this set. */
  predicate IsSpace(c: char) {
    || ('\t' <= c <= '\r') || ('\U{1C}' <= c <= ' ')
    || ('\U{85}' <= c && IsWideSpace(c))
  }

  /** The white space of `str.isspace` beyond ASCII. */
  predicate IsWideSpace(c: char) {
    || c == '\U{85}' || c == '\U{A0}' || c == '\U{1680}'
    || ('\U{2000}' <= c <= '\U{200A}')
    || c == '\U{2028}' || c == '\U{2029}' || c == '\U{202F}' || c == '\U{205F}' || c == '\U{3000}'
  }

  predicate IsAsciiUpper(c: char) { 'A' <= c <= 'Z' }
  predicate IsAsciiLower(c: char) { 'a' <= c <= 'z' }
  predicate IsAsciiLetter(c: char) { IsAsciiUpper(c) || IsAsciiLower(c) }
  predicate IsAsciiDigit(c: char) { '0' <= c <= '9' }

  /** `\w` of Python's `re` on `str` patterns: `_` and the characters for
      which `str.isalnum()` holds. Those of ASCII, Latin-1 and Latin
      Extended-A are included (this covers Turkish); other scripts are not. */
  predicate IsWordChar(c: char) {
    || IsAsciiLetter(c) || IsAsciiDigit(c) || c == '_'
    || IsLatin1WordChar(c) || ('\U{100}' <= c <= '\U{17F}')
  }

  /** The Latin-1 characters `str.isalnum()` accepts: the letters, including
      `ª`, `µ` and `º`, the superscript digits `¹²³` and the fractions `¼½¾`. */
  predicate IsLatin1WordChar(c: char) {
    || c == '\U{AA}' || c == '\U{B2}' || c == '\U{B3}' || c == '\U{B5}' || c == '\U{B9}' || c == '\U{BA}'
    || ('\U{BC}' <= c <= '\U{BE}')
    || ('\U{C0}' <= c <= '\U{D6}') || ('\U{D8}' <= c <= '\U{F6}') || ('\U{F8}' <= c <= '\U{FF}')
  }

  function LowerChar(c: char): (d: char)
    ensures !IsAsciiUpper(d)
    ensures IsAsciiLetter(c) <==> IsAsciiLower(d)
    ensures !IsAsciiUpper(c) ==> d == c
  {
    if IsAsciiUpper(c) then (c as int + 32) as char else c
  }

  function UpperChar(c: char): (d: char)
    ensures !IsAsciiLower(d)
    ensures IsAsciiLetter(c) <==> IsAsciiUpper(d)
    ensures !IsAsciiLower(c) ==> d == c
  {
    if IsAsciiLower(c) then (c as int - 32) as char else c
  }

  /** `s.lower()` on ASCII letters. */
  function Lower(s: string): string {
    seq(|s|, i requires 0 <= i < |s| => LowerChar(s[i]))
  }

  /** `s.upper()` on ASCII letters. */
  function Upper(s: string): string {
    seq(|s|, i requires 0 <= i < |s| => UpperChar(s[i]))
  }

  /** Lower-casing forgets every earlier change of case. */
  lemma LowerForgetsCase(s: string)
    ensures Lower(Lower(s)) == Lower(s)
    ensures Lower(Upper(s)) == Lower(s)
  {
    assert forall i :: 0 <= i < |s| ==> LowerChar(UpperChar(s[i])) == LowerChar(s[i]);
  }

  predicate StartsWith(s: string, p: string) {
    |p| <= |s| && s[..|p|] == p
  }

  predicate EndsWith(s: string, p: string) {
    |p| <= |s| && s[|s| - |p|..] == p
  }

  /** `p in s` for strings. */
  predicate Contains(s: string, p: string)
    decreases |s|
  {
    StartsWith(s, p) || (s != [] && Contains(s[1..], p))
  }

  /** `p` occurs in `s` at index `i`. */
  predicate OccursAt(s: string, p: string, i: int) {
    0 <= i <= |s| - |p| && s[i..i + |p|] == p
  }

  /** `Contains` is the existence of an occurrence. */
  lemma {:induction false} ContainsIff(s: string, p: string)
    ensures Contains(s, p) <==> exists i :: OccursAt(s, p, i)
    decreases |s|
  {
    if StartsWith(s, p) {
      assert OccursAt(s, p, 0);
    } else if s == [] {
      assert forall i :: !OccursAt(s, p, i);
    } else {
      ContainsIff(s[1..], p);
      forall i | OccursAt(s, p, i)
        ensures OccursAt(s[1..], p, i - 1)
      {
        assert i != 0;
        assert s[1..][i - 1..i - 1 + |p|] == s[i..i + |p|];
      }
      forall i | OccursAt(s[1..], p, i)
        ensures OccursAt(s, p, i + 1)
      {
        assert s[i + 1..i + 1 + |p|] == s[1..][i..i + |p|];
      }
    }
  }

  /** An occurrence of `p` inside an occurrence of `q` is an occurrence in `s`. */
  lemma ContainsTrans(s: string, q: string, p: string)
    requires Contains(s, q) && Contains(q, p)
    ensures Contains(s, p)
  {
    ContainsIff(s, q);
    ContainsIff(q, p);
    ContainsIff(s, p);
    var i :| OccursAt(s, q, i);
    var j :| OccursAt(q, p, j);
    forall k | 0 <= k < |p|
      ensures s[i + j..i + j + |p|][k] == p[k]
    {
      assert p[k] == q[j..j + |p|][k] == q[j + k];
      assert q[j + k] == s[i..i + |q|][j + k] == s[i + j + k];
    }
    assert OccursAt(s, p, i + j);
  }

  /** Lower-casing preserves occurrences. */
  lemma ContainsLower(s: string, p: string)
    requires Contains(s, p)
    ensures Contains(Lower(s), Lower(p))
  {
    ContainsIff(s, p);
    var i :| OccursAt(s, p, i);
    LowerOccurs(s, p, i);
    ContainsIff(Lower(s), Lower(p));
  }

  lemma LowerOccurs(s: string, p: string, i: int)
    requires OccursAt(s, p, i)
    ensures OccursAt(Lower(s), Lower(p), i)
  {
    assert Lower(s)[i..i + |p|] == Lower(p);
  }

  /** A text that lacks one of the characters of `p` does not contain `p`. */
  lemma NotContainsChar(s: string, p: string, k: nat)
    requires k < |p| && p[k] !in s
    ensures !Contains(s, p)
  {
    ContainsIff(s, p);
    forall i | 0 <= i <= |s| - |p|
      ensures !OccursAt(s, p, i)
    {
      assert s[i..i + |p|][k] == s[i + k];
      assert s[i + k] in s;
    }
  }

  function CountChar(s: string, c: char): nat {
    if s == [] then 0 else (if s[0] == c then 1 else 0) + CountChar(s[1..], c)
  }

  lemma CountCharAppend(a: string, b: string, c: char)
    ensures CountChar(a + b, c) == CountChar(a, c) + CountChar(b, c)
  {
    if a == [] {
      assert a + b == b;
    } else {
      assert (a + b)[1..] == a[1..] + b;
      CountCharAppend(a[1..], b, c);
    }
  }

  lemma CountCharAbsent(s: string, c: char)
    requires c !in s
    ensures CountChar(s, c) == 0
  {
    if s != [] {
      CountCharAbsent(s[1..], c);
    }
  }

  /** Index of the first `c` in `s`, or `|s|` when there is none: `s.split(c)[0]`
      is `s[..FirstIndexOf(s, c)]`. */
  function FirstIndexOf(s: string, c: char): (k: nat)
    ensures k <= |s|
    ensures c !in s[..k]
    ensures k < |s| ==> s[k] == c
    decreases |s|
  {
    if s == [] then 0
    else if s[0] == c then 0
    else 1 + FirstIndexOf(s[1..], c)
  }

  lemma FirstIndexOfIs(s: string, c: char, k: nat)
    requires k < |s| && s[k] == c
    requires forall i :: 0 <= i < k ==> s[i] != c
    ensures FirstIndexOf(s, c) == k
    decreases k
  {
    if k > 0 {
      FirstIndexOfIs(s[1..], c, k - 1);
    }
  }

  /** The index is inside the text exactly when the character occurs. */
  lemma FirstIndexOfFound(s: string, c: char)
    ensures c in s <==> FirstIndexOf(s, c) < |s|
  {
    if FirstIndexOf(s, c) == |s| {
      assert s[..|s|] == s;
    }
  }

  /** Index of the last `c` in `s`, or -1. */
  function LastIndexOf(s: string, c: char): (k: int)
    ensures -1 <= k < |s|
    ensures k >= 0 ==> s[k] == c
    ensures forall i :: k < i < |s| ==> s[i] != c
    decreases |s|
  {
    if s == [] then -1
    else if s[|s| - 1] == c then |s| - 1
    else LastIndexOf(s[..|s| - 1], c)
  }

  lemma LastIndexOfIs(s: string, c: char, k: int)
    requires 0 <= k < |s| && s[k] == c
    requires forall i :: k < i < |s| ==> s[i] != c
    ensures LastIndexOf(s, c) == k
    decreases |s|
  {
    if k < |s| - 1 {
      LastIndexOfIs(s[..|s| - 1], c, k);
    }
  }

  /** Index of the first character of `s` that lies in `cs`, or `|s|`. */
  function FirstIndexIn(s: string, cs: set<char>): (k: nat)
    ensures k <= |s|
    ensures forall i :: 0 <= i < k ==> s[i] !in cs
    ensures k < |s| ==> s[k] in cs
    decreases |s|
  {
    if s == [] then 0
    else if s[0] in cs then 0
    else 1 + FirstIndexIn(s[1..], cs)
  }

  /** `re.split('[...]', s)` for a one-character class `cs`: the pieces
      between separators, empty ones included. */
  function SplitOn(s: string, cs: set<char>): (parts: seq<string>)
    ensures |parts| >= 1
    ensures forall k :: 0 <= k < |parts| ==> forall c :: c in parts[k] ==> c !in cs && c in s
    ensures forall k :: 0 <= k < |parts| ==> |parts[k]| <= |s|
    decreases |s|
  {
    var i := FirstIndexIn(s, cs);
    if i == |s| then [s] else [s[..i]] + SplitOn(s[i + 1..], cs)
  }

  /** `sep.join(parts)`. */
  function Join(parts: seq<string>, sep: string): string {
    if parts == [] then ""
    else if |parts| == 1 then parts[0]
    else parts[0] + sep + Join(parts[1..], sep)
  }

  lemma JoinChars(parts: seq<string>, sep: string, c: char)
    requires c in Join(parts, sep)
    ensures c in sep || exists k :: 0 <= k < |parts| && c in parts[k]
  {
    if |parts| > 1 {
      var rest := Join(parts[1..], sep);
      assert Join(parts, sep) == parts[0] + sep + rest;
      if c !in parts[0] && c !in sep {
        JoinChars(parts[1..], sep, c);
        var k :| 0 <= k < |parts[1..]| && c in parts[1..][k];
        assert c in parts[k + 1];
      }
    } else if |parts| == 1 {
      assert c in parts[0];
    }
  }

  lemma JoinAvoids(parts: seq<string>, sep: string, c: char)
    requires c !in sep
    requires forall k :: 0 <= k < |parts| ==> c !in parts[k]
    ensures c !in Join(parts, sep)
  {
    if |parts| > 1 {
      JoinAvoids(parts[1..], sep, c);
    }
  }

  /** Splitting text joined with a one-character separator gives back the
      parts, when no part holds a separator. */
  lemma {:induction false} SplitJoin(parts: seq<string>, sep: char, cs: set<char>)
    requires parts != [] && sep in cs
    requires forall k :: 0 <= k < |parts| ==> forall c :: c in parts[k] ==> c !in cs
    ensures SplitOn(Join(parts, [sep]), cs) == parts
  {
    var s := Join(parts, [sep]);
    if |parts| == 1 {
      assert s == parts[0];
      assert forall i :: 0 <= i < |s| ==> s[i] in parts[0];
    } else {
      var p0 := parts[0];
      var rest := Join(parts[1..], [sep]);
      assert s == p0 + [sep] + rest;
      var i := FirstIndexIn(s, cs);
      assert s[|p0|] == sep;
      assert forall j :: 0 <= j < |p0| ==> s[j] == p0[j] && p0[j] in p0;
      assert s[..i] == p0;
      assert s[i + 1..] == rest;
      SplitJoin(parts[1..], sep, cs);
    }
  }

  /** The characters of `s` that are not in `cs`, in order. */
  function Without(s: string, cs: set<char>): (r: string)
    ensures |r| <= |s|
  {
    if s == [] then [] else (if s[0] in cs then [] else [s[0]]) + Without(s[1..], cs)
  }

  /** `''.join(parts)`. */
  function Concat(parts: seq<string>): string {
    if parts == [] then [] else parts[0] + Concat(parts[1..])
  }

  lemma WithoutAppend(a: string, b: string, cs: set<char>)
    ensures Without(a + b, cs) == Without(a, cs) + Without(b, cs)
  {
    if a != [] {
      assert (a + b)[1..] == a[1..] + b;
      WithoutAppend(a[1..], b, cs);
    } else {
      assert a + b == b;
    }
  }

  lemma WithoutNone(s: string, cs: set<char>)
    requires forall i :: 0 <= i < |s| ==> s[i] !in cs
    ensures Without(s, cs) == s
  {
    if s != [] {
      WithoutNone(s[1..], cs);
    }
  }

  /** Dropping the separators is the same as concatenating the pieces. */
  lemma {:induction false} SplitOnWithout(s: string, cs: set<char>)
    ensures Concat(SplitOn(s, cs)) == Without(s, cs)
    decreases |s|
  {
    var i := FirstIndexIn(s, cs);
    if i == |s| {
      WithoutNone(s, cs);
      assert Concat([s]) == s + Concat([]);
    } else {
      var rest := s[i + 1..];
      SplitOnWithout(rest, cs);
      SplitOnAt(s, cs, i);
      ConcatCons(s[..i], SplitOn(rest, cs));
      WithoutAtSeparator(s, i, cs);
    }
  }

  lemma SplitOnAt(s: string, cs: set<char>, i: nat)
    requires i == FirstIndexIn(s, cs) && i < |s|
    ensures SplitOn(s, cs) == [s[..i]] + SplitOn(s[i + 1..], cs)
  {
  }

  lemma ConcatCons(a: string, parts: seq<string>)
    ensures Concat([a] + parts) == a + Concat(parts)
  {
    assert ([a] + parts)[1..] == parts;
  }

  lemma WithoutAtSeparator(s: string, i: nat, cs: set<char>)
    requires i < |s| && s[i] in cs
    requires forall j :: 0 <= j < i ==> s[j] !in cs
    ensures Without(s, cs) == s[..i] + Without(s[i + 1..], cs)
  {
    var rest := s[i + 1..];
    assert s == s[..i] + [s[i]] + rest;
    WithoutAppend(s[..i] + [s[i]], rest, cs);
    WithoutAppend(s[..i], [s[i]], cs);
    WithoutNone(s[..i], cs);
  }

  /** Dropping a one-character separator from a join concatenates the parts,
      when no part holds a dropped character. */
  lemma {:induction false} JoinWithout(parts: seq<string>, sep: char, cs: set<char>)
    requires sep in cs
    requires forall k :: 0 <= k < |parts| ==> forall c :: c in parts[k] ==> c !in cs
    ensures Without(Join(parts, [sep]), cs) == Concat(parts)
  {
    if |parts| == 1 {
      var p := parts[0];
      assert forall i :: 0 <= i < |p| ==> p[i] in p;
      WithoutNone(p, cs);
      assert Concat(parts) == p + Concat([]);
    } else if |parts| > 1 {
      var p := parts[0];
      var rest := Join(parts[1..], [sep]);
      assert forall i :: 0 <= i < |p| ==> p[i] in p;
      WithoutNone(p, cs);
      WithoutAppend(p + [sep], rest, cs);
      WithoutAppend(p, [sep], cs);
      JoinWithout(parts[1..], sep, cs);
    }
  }

  lemma LowerAppend(a: string, b: string)
    ensures Lower(a + b) == Lower(a) + Lower(b)
  {
  }

  /** Strings equal up to case hold the same characters other than letters. */
  lemma LowerSameNonLetter(a: string, b: string, c: char)
    requires Lower(a) == Lower(b) && !IsAsciiLetter(c)
    ensures c in a <==> c in b
  {
    assert |a| == |Lower(a)|;
    forall i | 0 <= i < |a| && (a[i] == c || b[i] == c)
      ensures a[i] == b[i]
    {
      assert LowerChar(a[i]) == Lower(a)[i] == Lower(b)[i] == LowerChar(b[i]);
    }
  }

  /** `s.lstrip()` */
  function TrimLeft(s: string): (r: string)
    ensures |r| <= |s| && r == s[|s| - |r|..]
    ensures r == [] || !IsSpace(r[0])
    ensures forall i :: 0 <= i < |s| - |r| ==> IsSpace(s[i])
    decreases |s|
  {
    if s != [] && IsSpace(s[0]) then TrimLeft(s[1..]) else s
  }

  /** `s.rstrip()` */
  function TrimRight(s: string): (r: string)
    ensures |r| <= |s| && r == s[..|r|]
    ensures r == [] || !IsSpace(r[|r| - 1])
    ensures forall i :: |r| <= i < |s| ==> IsSpace(s[i])
    decreases |s|
  {
    if s != [] && IsSpace(s[|s| - 1]) then TrimRight(s[..|s| - 1]) else s
  }

  /** No white space at either end. */
  predicate Trimmed(s: string) {
    s == [] || (!IsSpace(s[0]) && !IsSpace(s[|s| - 1]))
  }

  /** `s.strip()`: the result is a trimmed slice of `s`, and trimmed text
      is returned unchanged. */
  function Strip(s: string): (r: string)
    ensures Trimmed(r)
    ensures |r| <= |s|
    ensures forall c :: c in r ==> c in s
    ensures Trimmed(s) ==> r == s
  {
    var l := TrimLeft(s);
    var r := TrimRight(l);
    assert r != [] ==> r[0] == l[0];
    assert forall c :: c in r ==> c in l;
    r
  }

  /** Strips away exactly the spaces around `a`. */
  lemma StripPadded(a: string, before: string, after: string)
    requires Trimmed(a) && a != []
    requires forall i :: 0 <= i < |before| ==> IsSpace(before[i])
    requires forall i :: 0 <= i < |after| ==> IsSpace(after[i])
    ensures Strip(before + a + after) == a
  {
    var t := a + after;
    assert before + a + after == before + t;
    TrimLeftSpaces(before, t);
    TrimRightSpaces(a, after);
  }

  lemma {:induction false} TrimLeftSpaces(sp: string, t: string)
    requires forall i :: 0 <= i < |sp| ==> IsSpace(sp[i])
    requires t != [] && !IsSpace(t[0])
    ensures TrimLeft(sp + t) == t
    decreases |sp|
  {
    var u := sp + t;
    if sp == [] {
      assert u == t;
    } else {
      var rest := sp[1..];
      assert u[0] == sp[0] && u[1..] == rest + t;
      assert forall i :: 0 <= i < |rest| ==> rest[i] == sp[i + 1];
      TrimLeftSpaces(rest, t);
    }
  }

  lemma {:induction false} TrimRightSpaces(t: string, sp: string)
    requires forall i :: 0 <= i < |sp| ==> IsSpace(sp[i])
    requires t != [] && !IsSpace(t[|t| - 1])
    ensures TrimRight(t + sp) == t
    decreases |sp|
  {
    var u := t + sp;
    if sp == [] {
      assert u == t;
    } else {
      var rest := sp[..|sp| - 1];
      assert u[|u| - 1] == sp[|sp| - 1] && u[..|u| - 1] == t + rest;
      assert forall i :: 0 <= i < |rest| ==> rest[i] == sp[i];
      TrimRightSpaces(t, rest);
    }
  }

  /** Length of the run of non-space characters at the front of `s`. */
  function WordLen(s: string): (k: nat)
    ensures k <= |s|
    ensures forall i :: 0 <= i < k ==> !IsSpace(s[i])
    ensures k < |s| ==> IsSpace(s[k])
    decreases |s|
  {
    if s == [] || IsSpace(s[0]) then 0 else 1 + WordLen(s[1..])
  }

  /** A non-empty run of non-space characters. */
  predicate IsWord(w: string) {
    w != [] && forall i :: 0 <= i < |w| ==> !IsSpace(w[i])
  }

  /** `s.split()`: the maximal runs of non-space characters, in order. */
  function Words(s: string): seq<string>
    decreases |s|
  {
    var t := TrimLeft(s);
    if t == [] then []
    else
      var n := WordLen(t);
      [t[..n]] + Words(t[n..])
  }

  /** Every piece `split` returns is a word. */
  lemma {:induction false} WordsAreWords(s: string)
    ensures forall k :: 0 <= k < |Words(s)| ==> IsWord(Words(s)[k])
    decreases |s|
  {
    var t := TrimLeft(s);
    if t != [] {
      var n := WordLen(t);
      var w, ws := t[..n], Words(t[n..]);
      WordsAreWords(t[n..]);
      assert IsWord(w);
      assert Words(s) == [w] + ws;
      forall k | 0 <= k < |Words(s)| ensures IsWord(Words(s)[k]) {
        if k > 0 {
          assert Words(s)[k] == ws[k - 1];
        }
      }
    }
  }

  /** Two white-space characters in a row at index `i`. */
  predicate DoubleSpaceAt(s: string, i: int) {
    0 <= i < |s| - 1 && IsSpace(s[i]) && IsSpace(s[i + 1])
  }

  /** Text whose only white space is single `' '` between non-space characters. */
  predicate SingleSpaced(s: string) {
    && Trimmed(s)
    && (forall i :: 0 <= i < |s| && IsSpace(s[i]) ==> s[i] == ' ')
    && (forall i | 0 <= i < |s| :: !DoubleSpaceAt(s, i))
  }

  /** `' '.join(s.split())`. */
  function CollapseSpaces(s: string): string {
    Join(Words(s), " ")
  }

  /** `re.sub(r'\s+', ' ', s)`: every run of white space becomes one `' '`. */
  function SqueezeSpaces(s: string): (r: string)
    ensures |r| <= |s|
    decreases |s|
  {
    if s == [] then ""
    else if IsSpace(s[0]) then " " + SqueezeSpaces(TrimLeft(s))
    else [s[0]] + SqueezeSpaces(s[1..])
  }

  lemma TrimLeftIdempotent(s: string)
    ensures TrimLeft(TrimLeft(s)) == TrimLeft(s)
  {
  }

  lemma WordsTrimLeft(s: string)
    ensures Words(TrimLeft(s)) == Words(s)
  {
    TrimLeftIdempotent(s);
  }

  /** `rstrip` only looks at the end: it does not reach into `a` while `b`
      still has a non-space character. */
  lemma {:induction false} TrimRightAppend(a: string, b: string)
    requires TrimRight(b) != []
    ensures TrimRight(a + b) == a + TrimRight(b)
    decreases |b|
  {
    if IsSpace(b[|b| - 1]) {
      assert (a + b)[..|a + b| - 1] == a + b[..|b| - 1];
      TrimRightAppend(a, b[..|b| - 1]);
    }
  }

  /** A run of non-space characters passes through `SqueezeSpaces` unchanged. */
  lemma {:induction false} SqueezeWord(w: string, rest: string)
    requires forall c :: c in w ==> !IsSpace(c)
    ensures SqueezeSpaces(w + rest) == w + SqueezeSpaces(rest)
    decreases |w|
  {
    if w != [] {
      assert w[0] in w;
      assert (w + rest)[1..] == w[1..] + rest;
      SqueezeWord(w[1..], rest);
    } else {
      assert w + rest == rest;
    }
  }

  /** `s.split()` on text that starts with a word. */
  lemma WordsCons(s: string)
    requires s != [] && !IsSpace(s[0])
    ensures Words(s) == [s[..WordLen(s)]] + Words(s[WordLen(s)..])
  {
    assert TrimLeft(s) == s;
  }

  lemma JoinCons(w: string, ws: seq<string>, sep: string)
    requires ws != []
    ensures Join([w] + ws, sep) == w + sep + Join(ws, sep)
  {
    assert ([w] + ws)[1..] == ws;
  }

  lemma StripLeadingSpace(y: string)
    ensures Strip(" " + y) == Strip(y)
  {
    var u := " " + y;
    assert u[0] == ' ' && u[1..] == y;
    assert TrimLeft(u) == TrimLeft(y);
  }

  lemma SqueezeOnlySpaces(rest: string)
    requires TrimLeft(rest) == []
    ensures SqueezeSpaces(rest) == if rest == [] then "" else " "
  {
  }

  /** A word followed only by white space squeezes and strips to itself. */
  lemma StripSqueezeLastWord(w: string, rest: string)
    requires w != [] && !IsSpace(w[0]) && !IsSpace(w[|w| - 1])
    requires forall c :: c in w ==> !IsSpace(c)
    requires TrimLeft(rest) == []
    ensures Strip(SqueezeSpaces(w + rest)) == w
  {
    var pad := if rest == [] then "" else " ";
    SqueezeLastWord(w, rest, pad);
    StripWordPad(w, pad);
  }

  lemma SqueezeLastWord(w: string, rest: string, pad: string)
    requires forall c :: c in w ==> !IsSpace(c)
    requires TrimLeft(rest) == [] && pad == if rest == [] then "" else " "
    ensures SqueezeSpaces(w + rest) == w + pad
  {
    SqueezeWord(w, rest);
    SqueezeOnlySpaces(rest);
  }

  lemma StripWordPad(w: string, pad: string)
    requires w != [] && Trimmed(w) && (pad == "" || pad == " ")
    ensures Strip(w + pad) == w
  {
    assert [] + w + pad == w + pad;
    StripPadded(w, [], pad);
  }

  lemma AppendAssoc(a: string, b: string, c: string)
    ensures a + (b + c) == a + b + c
  {
  }

  /** A word, white space, then text starting with a word: stripping the
      squeezed text keeps the word and one space in front. */
  lemma StripSqueezeWordThenMore(w: string, y: string)
    requires w != [] && !IsSpace(w[0])
    requires y != [] && !IsSpace(y[0])
    ensures Strip(w + " " + y) == w + " " + Strip(y)
  {
    assert TrimLeft(y) == y;
    assert TrimRight(y) != [];
    TrimRightAppend(w + " ", y);
  }

  /** The two ways the source normalises white space agree:
      `re.sub(r'\s+', ' ', s).strip()` equals `' '.join(s.split())`. */
  lemma {:induction false} StripSqueezeIsCollapse(s: string)
    ensures Strip(SqueezeSpaces(s)) == CollapseSpaces(s)
    decreases |s|, 1
  {
    if s == [] {
    } else if IsSpace(s[0]) {
      var t := TrimLeft(s);
      StripSqueezeIsCollapse(t);
      WordsTrimLeft(s);
      StripLeadingSpace(SqueezeSpaces(t));
    } else {
      StripSqueezeFromWord(s);
    }
  }

  lemma {:induction false} StripSqueezeFromWord(s: string)
    requires s != [] && !IsSpace(s[0])
    ensures Strip(SqueezeSpaces(s)) == CollapseSpaces(s)
    decreases |s|, 0
  {
    var n := WordLen(s);
    var w := s[..n];
    var rest := s[n..];
    assert s == w + rest;
    WordsCons(s);
    var r := TrimLeft(rest);
    if r == [] {
      assert forall c :: c in w ==> !IsSpace(c);
      assert w[|w| - 1] in w;
      StripSqueezeLastWord(w, rest);
    } else {
      var y := SqueezeSpaces(r);
      assert |r| < |s|;
      StripSqueezeIsCollapse(r);
      StripSqueezeMoreWords(s, w, rest, r, y);
    }
  }

  lemma StripSqueezeMoreWords(s: string, w: string, rest: string, r: string, y: string)
    requires s != [] && !IsSpace(s[0])
    requires w == s[..WordLen(s)] && rest == s[WordLen(s)..] && s == w + rest
    requires r == TrimLeft(rest) && r != [] && y == SqueezeSpaces(r)
    requires Strip(y) == CollapseSpaces(r)
    requires Words(s) == [w] + Words(rest)
    ensures Strip(SqueezeSpaces(s)) == CollapseSpaces(s)
  {
    var n := WordLen(s);
    assert n < |s| && IsSpace(s[n]);
    assert rest != [] && IsSpace(rest[0]);
    assert SqueezeSpaces(rest) == " " + y;
    assert forall c :: c in w ==> !IsSpace(c);
    SqueezeWord(w, rest);
    var sq := SqueezeSpaces(rest);
    assert SqueezeSpaces(w + rest) == w + sq;
    assert sq == " " + y;
    AppendAssoc(w, " ", y);
    assert SqueezeSpaces(s) == w + " " + y;
    assert y != [] && !IsSpace(y[0]) by {
      assert !IsSpace(r[0]);
    }
    StripSqueezeWordThenMore(w, y);
    WordsTrimLeft(rest);
    assert Words(r) != [] by {
      WordsCons(r);
    }
    JoinCons(w, Words(r), " ");
  }

  /** Words joined with single spaces form single-spaced text. */
  lemma {:induction false} JoinWordsSingleSpaced(ws: seq<string>)
    requires forall k :: 0 <= k < |ws| ==> IsWord(ws[k])
    ensures SingleSpaced(Join(ws, " "))
    ensures ws != [] ==> Join(ws, " ") != [] && Join(ws, " ")[0] == ws[0][0]
  {
    if |ws| == 1 {
      assert IsWord(ws[0]);
    } else if |ws| > 1 {
      var w := ws[0];
      var j := Join(ws[1..], " ");
      JoinWordsSingleSpaced(ws[1..]);
      var s := w + " " + j;
      assert Join(ws, " ") == s;
      assert IsWord(w);
      assert forall i :: 0 <= i < |w| ==> s[i] == w[i];
      assert s[|w|] == ' ';
      assert forall i :: |w| < i < |s| ==> s[i] == j[i - |w| - 1];
      assert s[|s| - 1] == j[|j| - 1];
      forall i | 0 <= i < |s| ensures !DoubleSpaceAt(s, i) {
        if |w| < i {
          assert !DoubleSpaceAt(j, i - |w| - 1);
        }
      }
    }
  }

  lemma CollapseSingleSpaced(s: string)
    ensures SingleSpaced(CollapseSpaces(s))
  {
    WordsAreWords(s);
    JoinWordsSingleSpaced(Words(s));
  }

  /** Past the first word and its space, single-spaced text is still single-spaced. */
  lemma SingleSpacedTail(s: string, n: nat)
    requires SingleSpaced(s) && n < |s| && IsSpace(s[n])
    ensures 0 < n && n + 1 < |s| && s[n] == ' ' && !IsSpace(s[n + 1])
    ensures SingleSpaced(s[n + 1..])
  {
    var r := s[n + 1..];
    assert !DoubleSpaceAt(s, n);
    assert forall i :: 0 <= i < |r| ==> r[i] == s[n + 1 + i];
    forall i | 0 <= i < |r| ensures !DoubleSpaceAt(r, i) {
      assert !DoubleSpaceAt(s, n + 1 + i);
    }
  }

  /** Single-spaced text is left as it is by `' '.join(s.split())`. */
  lemma {:induction false} CollapseFixesSingleSpaced(s: string)
    requires SingleSpaced(s)
    ensures CollapseSpaces(s) == s
    decreases |s|
  {
    if s != [] {
      var n := WordLen(s);
      var w := s[..n];
      var rest := s[n..];
      assert s == w + rest;
      if rest != [] {
        SingleSpacedTail(s, n);
        var r := s[n + 1..];
        assert rest == " " + r;
        AppendAssoc(w, " ", r);
        assert TrimLeft(rest) == r;
        CollapseFixesSingleSpaced(r);
        WordsTrimLeft(rest);
        WordsCons(s);
        JoinCons(w, Words(r), " ");
      } else {
        WordsCons(s);
      }
    }
  }


  /** The end of the run of white space that starts at `i`. */
  function SpaceRunEnd(t: string, i: nat): (k: nat)
    requires i <= |t|
    ensures i <= k <= |t|
    decreases |t| - i
  {
    if i < |t| && IsSpace(t[i]) then SpaceRunEnd(t, i + 1) else i
  }

  /** The run is white space and stops at a character that is not. */
  lemma {:induction false} SpaceRun(t: string, i: nat)
    requires i <= |t|
    ensures forall j :: i <= j < SpaceRunEnd(t, i) ==> IsSpace(t[j])
    ensures SpaceRunEnd(t, i) < |t| ==> !IsSpace(t[SpaceRunEnd(t, i)])
    decreases |t| - i
  {
    if i < |t| && IsSpace(t[i]) {
      SpaceRun(t, i + 1);
    }
  }

  /** A pass over `prefixes` in order: whenever the text starts with the
      prefix at hand, that prefix is cut off and the rest stripped. A later
      prefix is tested against the text left by the earlier ones. */
  function StripListedPrefixes(s: string, prefixes: seq<string>): (r: string)
    ensures |r| <= |s|
    decreases |prefixes|
  {
    if prefixes == [] then s
    else
      var p := prefixes[0];
      StripListedPrefixes(if StartsWith(s, p) then Strip(s[|p|..]) else s, prefixes[1..])
  }

  /** The prefix loop: each prefix in turn is cut off the front, and the
      rest stripped, when the text still starts with it. */
  method StripPrefixes(s: string, prefixes: seq<string>) returns (r: string)
    ensures r == StripListedPrefixes(s, prefixes)
  {
    r := s;
    for k := 0 to |prefixes|
      invariant StripListedPrefixes(r, prefixes[k..]) == StripListedPrefixes(s, prefixes)
    {
      var prefix := prefixes[k];
      if StartsWith(r, prefix) {
        r := Strip(r[|prefix|..]);
      }
      assert prefixes[k..][1..] == prefixes[k + 1..];
    }
  }

  /** Text that starts with none of the prefixes is left as it is. */
  lemma {:induction false} StripListedPrefixesNone(s: string, prefixes: seq<string>)
    requires forall k :: 0 <= k < |prefixes| ==> !StartsWith(s, prefixes[k])
    ensures StripListedPrefixes(s, prefixes) == s
    decreases |prefixes|
  {
    if prefixes != [] {
      assert !StartsWith(s, prefixes[0]);
      StripListedPrefixesNone(s, prefixes[1..]);
    }
  }

  /** Stripping a tail of trimmed text only trims its left end. */
  lemma StripTailOfTrimmed(s: string, k: nat)
    requires Trimmed(s) && k <= |s|
    ensures EndsWith(s, Strip(s[k..]))
  {
    var l := TrimLeft(s[k..]);
    TrimmedTail(s, k, l);
    StripLeftOnly(s[k..], l);
  }

  lemma TrimmedTail(s: string, k: nat, l: string)
    requires Trimmed(s) && k <= |s| && l == TrimLeft(s[k..])
    ensures EndsWith(s, l) && TrimRight(l) == l
  {
    EndOfTail(s, k, l);
    TrimmedEnd(s, l);
    TrimmedRight(l);
  }

  /** A suffix of a suffix of `s` is a suffix of `s`. */
  lemma EndOfTail(s: string, k: nat, l: string)
    requires k <= |s| && EndsWith(s[k..], l)
    ensures EndsWith(s, l)
  {
    assert s[k..][|s| - k - |l|..] == s[|s| - |l|..];
  }

  lemma TrimmedEnd(s: string, l: string)
    requires Trimmed(s) && EndsWith(s, l)
    ensures l == [] || !IsSpace(l[|l| - 1])
  {
    if l != [] {
      assert l[|l| - 1] == s[|s| - 1];
    }
  }

  lemma StripLeftOnly(x: string, l: string)
    requires l == TrimLeft(x) && TrimRight(l) == l
    ensures Strip(x) == l
  {
  }

  lemma TrimmedRight(l: string)
    requires l == [] || !IsSpace(l[|l| - 1])
    ensures TrimRight(l) == l
  {
  }

  /** A trimmed tail of single-spaced text is single-spaced. */
  lemma SingleSpacedTrimmedTail(s: string, t: string)
    requires SingleSpaced(s) && EndsWith(s, t) && Trimmed(t)
    ensures SingleSpaced(t)
  {
    var k := |s| - |t|;
    assert forall i :: 0 <= i < |t| ==> t[i] == s[k + i];
    forall i | 0 <= i < |t|
      ensures !DoubleSpaceAt(t, i)
    {
      assert !DoubleSpaceAt(s, k + i);
    }
  }

  lemma EndsWithTrans(s: string, t: string, r: string)
    requires EndsWith(s, t) && EndsWith(t, r)
    ensures EndsWith(s, r)
  {
    assert s[|s| - |r|..] == t[|t| - |r|..];
  }

  lemma StripPrefixTail(s: string, n: nat)
    requires Trimmed(s) && n <= |s|
    ensures EndsWith(s, Strip(s[n..]))
    ensures SingleSpaced(s) ==> SingleSpaced(Strip(s[n..]))
  {
    StripTailOfTrimmed(s, n);
    if SingleSpaced(s) {
      SingleSpacedTrimmedTail(s, Strip(s[n..]));
    }
  }

  /** Trimmed text keeps being a trimmed tail of itself under the prefix
      pass, and single-spaced text stays single-spaced. */
  lemma {:induction false} StripListedPrefixesTail(s: string, prefixes: seq<string>)
    requires Trimmed(s)
    ensures Trimmed(StripListedPrefixes(s, prefixes))
    ensures EndsWith(s, StripListedPrefixes(s, prefixes))
    ensures SingleSpaced(s) ==> SingleSpaced(StripListedPrefixes(s, prefixes))
    decreases |prefixes|
  {
    if prefixes != [] {
      var p := prefixes[0];
      var s1 := if StartsWith(s, p) then Strip(s[|p|..]) else s;
      if StartsWith(s, p) {
        StripPrefixTail(s, |p|);
      } else {
        assert s[|s| - |s|..] == s;
      }
      StripListedPrefixesTail(s1, prefixes[1..]);
      EndsWithTrans(s, s1, StripListedPrefixes(s1, prefixes[1..]));
    } else {
      assert s[|s| - |s|..] == s;
    }
  }

  /** An occurrence inside a tail is an occurrence in the whole text. */
  lemma ContainsInTail(s: string, r: string, p: string)
    requires EndsWith(s, r)
    ensures Contains(r, p) ==> Contains(s, p)
  {
    if Contains(r, p) {
      ContainsIff(s, r);
      assert OccursAt(s, r, |s| - |r|);
      ContainsTrans(s, r, p);
    }
  }

  /** A tail holds only characters of the whole. */
  lemma TailChars(s: string, r: string, c: char)
    requires EndsWith(s, r) && c !in s
    ensures c !in r
  {
    forall i | 0 <= i < |r| ensures r[i] != c {
      assert r[i] == s[|s| - |r| + i];
    }
  }

  /** Two occurrences of `c` at different places count twice. */
  lemma CountCharTwo(s: string, c: char, i: nat, j: nat)
    requires i < j < |s| && s[i] == c && s[j] == c
    ensures CountChar(s, c) >= 2
  {
    if i > 0 {
      CountCharTwo(s[1..], c, i - 1, j - 1);
    } else {
      CountCharPositive(s[1..], c, j - 1);
    }
  }

  lemma CountCharPositive(s: string, c: char, j: nat)
    requires j < |s| && s[j] == c
    ensures CountChar(s, c) >= 1
  {
    if j > 0 {
      CountCharPositive(s[1..], c, j - 1);
    }
  }

  /** A prefix that differs from `s` at position `j` (or runs past its end
      there) is not a prefix of `s`. */
  lemma NotStartsWithAt(s: string, p: string, j: nat)
    requires j < |p| && (j >= |s| || s[j] != p[j])
    ensures !StartsWith(s, p)
  {
    if |p| <= |s| {
      assert s[..|p|][j] == s[j];
    }
  }

  /** Text shorter than every listed prefix is left as it is. */
  lemma ShortTextKeepsPrefixes(s: string, prefixes: seq<string>)
    requires forall k :: 0 <= k < |prefixes| ==> |prefixes[k]| > |s|
    ensures StripListedPrefixes(s, prefixes) == s
  {
    StripListedPrefixesNone(s, prefixes);
  }

  /** One step of the prefix loop when the first prefix matches. */
  lemma StripHead(s: string, ps: seq<string>, u: string)
    requires ps != [] && StartsWith(s, ps[0]) && Strip(s[|ps[0]|..]) == u
    ensures StripListedPrefixes(s, ps) == StripListedPrefixes(u, ps[1..])
  {
  }

  /** The first two prefixes both match in turn and no later one matches
      what is left: the loop removes both. */
  lemma StripTwoPrefixes(s: string, t: string, u: string, ps: seq<string>)
    requires |ps| >= 2
    requires StartsWith(s, ps[0]) && Strip(s[|ps[0]|..]) == t
    requires StartsWith(t, ps[1]) && Strip(t[|ps[1]|..]) == u
    requires StripListedPrefixes(u, ps[2..]) == u
    ensures StripListedPrefixes(s, ps) == u
  {
    assert ps[1..][1..] == ps[2..];
    StripHead(s, ps, t);
    StripHead(t, ps[1..], u);
  }

  /** The first prefix does not match and the second does, and no later
      one matches what is left: the loop removes only the second. */
  lemma StripSecondPrefix(s: string, t: string, ps: seq<string>)
    requires |ps| >= 2 && !StartsWith(s, ps[0])
    requires StartsWith(s, ps[1]) && Strip(s[|ps[1]|..]) == t
    requires StripListedPrefixes(t, ps[2..]) == t
    ensures StripListedPrefixes(s, ps) == t
  {
    assert ps[1..][1..] == ps[2..];
    StripHead(s, ps[1..], t);
  }

  /** `p + " " + rest` starts with `p`, and stripping after `p` gives back
      the trimmed `rest`. */
  lemma StripAfterPrefix(s: string, p: string, rest: string)
    requires s == p + " " + rest && rest != [] && Trimmed(rest)
    ensures StartsWith(s, p) && Strip(s[|p|..]) == rest
  {
    assert s[..|p|] == p;
    assert s[|p|..] == " " + rest + "";
    StripPadded(rest, " ", "");
  }
}
