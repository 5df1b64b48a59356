/**
 * String primitives used by the chatbot: the `\w+` tokenizer (re.findall),
 * lower-casing, ' '.join, str.strip, substring and prefix tests, and the
 * colon splits of the teaching and ingestion directives.
 */
module Text {

  datatype Option<T> = None | Some(value: T)

  /** A character matched by the regular-expression class `\w` (ASCII part). */
  predicate IsWordChar(c: char) {
    ('a' <= c <= 'z') || ('A' <= c <= 'Z') || ('0' <= c <= '9') || c == '_'
  }

  /** A non-empty run of `\w` characters: what one match of `\w+` yields. */
  predicate IsWord(t: string) {
    |t| > 0 && forall i :: 0 <= i < |t| ==> IsWordChar(t[i])
  }

  /** The characters Python's str.isspace() accepts, hence what str.strip() removes. */
  predicate IsSpace(c: char) {
    c == ' ' || ('\t' <= c <= '\r') || ('\U{1C}' <= c <= '\U{1F}') || c == '\U{85}'
    || c == '\U{A0}' || c == '\U{1680}' || ('\U{2000}' <= c <= '\U{200A}')
    || c == '\U{2028}' || c == '\U{2029}' || c == '\U{202F}' || c == '\U{205F}'
    || c == '\U{3000}'
  }

  function LowerChar(c: char): char {
    if 'A' <= c <= 'Z' then (c as int + 32) as char else c
  }

  /** str.lower(), on the ASCII letters. */
  function Lower(s: string): string {
    seq(|s|, i requires 0 <= i < |s| => LowerChar(s[i]))
  }

  /** Length of the longest prefix of `s` made of `\w` characters. */
  function WordRun(s: string): (n: nat)
    ensures n <= |s|
    ensures forall i :: 0 <= i < n ==> IsWordChar(s[i])
    ensures n < |s| ==> !IsWordChar(s[n])
  {
    if s == [] || !IsWordChar(s[0]) then 0 else 1 + WordRun(s[1..])
  }

  /** re.findall(r'\w+', s): the maximal runs of word characters, left to right. */
  function FindWords(s: string): (ts: seq<string>)
    ensures forall i :: 0 <= i < |ts| ==> IsWord(ts[i])
    decreases |s|
  {
    if s == [] then []
    else if !IsWordChar(s[0]) then FindWords(s[1..])
    else
      var n := WordRun(s);
      [s[..n]] + FindWords(s[n..])
  }

  /** ' '.join(ts) */
  function JoinSpaces(ts: seq<string>): string {
    if ts == [] then ""
    else if |ts| == 1 then ts[0]
    else ts[0] + " " + JoinSpaces(ts[1..])
  }

  /** Python's `p in s` on strings: `p` occurs in `s` as a substring. */
  predicate Contains(s: string, p: string) {
    exists i :: 0 <= i <= |s| && p <= s[i..]
  }

  predicate StartsWith(s: string, p: string) {
    p <= s
  }

  predicate EndsWith(s: string, p: string) {
    |p| <= |s| && s[|s| - |p|..] == p
  }

  function TrimStart(s: string): string {
    if s != [] && IsSpace(s[0]) then TrimStart(s[1..]) else s
  }

  function TrimEnd(s: string): string {
    if s != [] && IsSpace(s[|s| - 1]) then TrimEnd(s[..|s| - 1]) else s
  }

  /** str.strip() */
  function Strip(s: string): string {
    TrimEnd(TrimStart(s))
  }

  /** Index of the first occurrence of `c` in `s`, if any. */
  function IndexOf(s: string, c: char): (r: Option<nat>)
    ensures r.None? ==> c !in s
    ensures r.Some? ==> r.value < |s| && s[r.value] == c && c !in s[..r.value]
  {
    if s == [] then None
    else if s[0] == c then Some(0)
    else match IndexOf(s[1..], c)
      case None => None
      case Some(k) =>
        assert s[..k + 1] == [s[0]] + s[1..][..k];
        Some(k + 1)
  }

  /** s.split(":", 2): at most three parts, cut at the first two colons. */
  function SplitColonTwice(s: string): (parts: seq<string>)
    ensures 1 <= |parts| <= 3
    ensures |parts| == 1 ==> parts[0] == s && ':' !in s
    ensures |parts| == 2 ==> s == parts[0] + ":" + parts[1] && ':' !in parts[0] && ':' !in parts[1]
    ensures |parts| == 3 ==> s == parts[0] + ":" + parts[1] + ":" + parts[2] && ':' !in parts[0] && ':' !in parts[1]
  {
    match IndexOf(s, ':')
    case None => [s]
    case Some(i) =>
      var rest := s[i + 1..];
      CutAt(s, i);
      match IndexOf(rest, ':')
      case None => [s[..i], rest]
      case Some(j) =>
        CutAt(rest, j);
        [s[..i], rest[..j], rest[j + 1..]]
  }

  /** A string is what precedes position `i`, the character there, and what follows. */
  lemma CutAt(s: string, i: nat)
    requires i < |s|
    ensures s == s[..i] + [s[i]] + s[i + 1..]
  {
  }

  /** s.split(":", 1)[1]: what follows the first colon (requires one to exist). */
  function AfterFirstColon(s: string): string
    requires ':' in s
  {
    match IndexOf(s, ':')
    case Some(i) => s[i + 1..]
  }

  /** The first colon of `s` is at `n` when `s[n]` is one and none comes before. */
  lemma FirstColonAt(s: string, n: nat)
    requires n < |s| && s[n] == ':' && ':' !in s[..n]
    ensures IndexOf(s, ':') == Some(n)
  {
  }

  /** Splitting at the first two colons recovers the parts when the first two have none. */
  lemma SplitColonTwiceOf(x: string, y: string, z: string)
    requires ':' !in x && ':' !in y
    ensures SplitColonTwice(x + ":" + y + ":" + z) == [x, y, z]
  {
    var s := x + ":" + y + ":" + z;
    assert s[..|x|] == x && s[|x|] == ':';
    FirstColonAt(s, |x|);
    var rest := s[|x| + 1..];
    assert rest[..|y|] == y && rest[|y|] == ':';
    FirstColonAt(rest, |y|);
    assert rest[|y| + 1..] == z;
  }

  // ---------------------------------------------------------------------------
  // Lemmas about the tokenizer and the string tests

  lemma {:induction false} WordRunOfWord(t: string, rest: string)
    requires IsWord(t)
    requires rest == [] || !IsWordChar(rest[0])
    ensures WordRun(t + rest) == |t|
  {
    if |t| > 1 {
      assert (t + rest)[1..] == t[1..] + rest;
      WordRunOfWord(t[1..], rest);
    } else {
      assert (t + rest)[1..] == rest;
    }
  }

  /** A single `\w+` run is one token. */
  lemma FindWordsOfWord(t: string)
    requires IsWord(t)
    ensures FindWords(t) == [t]
  {
    WordRunOfWord(t, []);
    assert t + [] == t;
    assert t[..|t|] == t && t[|t|..] == [];
  }

  /** A string without word characters has no tokens. */
  lemma {:induction false} FindWordsNone(s: string)
    requires forall i :: 0 <= i < |s| ==> !IsWordChar(s[i])
    ensures FindWords(s) == []
  {
    if s != [] {
      FindWordsNone(s[1..]);
    }
  }

  /** The first word run of `s` ends no later than a non-word character at `k`, and cutting at `k` keeps it. */
  lemma {:induction false} WordRunBefore(s: string, k: nat)
    requires k < |s| && !IsWordChar(s[k])
    ensures WordRun(s) <= k && WordRun(s[..k]) == WordRun(s)
  {
    if k == 0 {
      assert s[..k] == [];
    } else if !IsWordChar(s[0]) {
      assert s[..k][0] == s[0];
    } else {
      assert s[..k][0] == s[0] && s[..k][1..] == s[1..][..k - 1];
      assert s[1..][k - 1] == s[k];
      WordRunBefore(s[1..], k - 1);
    }
  }

  /**
   * A non-word character separates tokens: the tokens of `s` are those
   * before it followed by those after it. With FindWordsOfWord and
   * FindWordsNone this fixes the result: the maximal runs, left to right.
   */
  lemma {:induction false} FindWordsSplit(s: string, k: nat)
    requires k < |s| && !IsWordChar(s[k])
    ensures FindWords(s) == FindWords(s[..k]) + FindWords(s[k + 1..])
    decreases |s|, 1
  {
    var a := s[..k];
    if k == 0 {
      assert a == [] && s[1..] == s[k + 1..];
    } else if !IsWordChar(s[0]) {
      var b := s[1..];
      assert a[0] == s[0] && a[1..] == b[..k - 1];
      assert b[k - 1] == s[k] && b[k..] == s[k + 1..];
      assert FindWords(a) == FindWords(b[..k - 1]);
      assert FindWords(s) == FindWords(b);
      FindWordsSplit(b, k - 1);
    } else {
      FindWordsSplitAfterRun(s, k);
    }
  }

  /** FindWordsSplit when `s` starts with a word run, which then ends before `k`. */
  lemma {:induction false} FindWordsSplitAfterRun(s: string, k: nat)
    requires 0 < k < |s| && !IsWordChar(s[k]) && IsWordChar(s[0])
    ensures FindWords(s) == FindWords(s[..k]) + FindWords(s[k + 1..])
    decreases |s|, 0
  {
    var n := WordRun(s);
    WordRunBefore(s, k);
    var b := s[n..];
    var t, p, q := s[..n], FindWords(b[..k - n]), FindWords(b[k - n + 1..]);
    assert s[..k][0] == s[0] && s[..k][..n] == t && s[..k][n..] == b[..k - n];
    assert FindWords(s[..k]) == [t] + p;
    assert b[k - n] == s[k] && b[k - n + 1..] == s[k + 1..];
    FindWordsSplit(b, k - n);
    ConsAssoc(t, p, q);
  }

  lemma ConsAssoc(t: string, p: seq<string>, q: seq<string>)
    ensures [t] + (p + q) == ([t] + p) + q
  {
  }


  /** Tokenizing a space-joined list of words gives the list back. */
  lemma {:induction false} FindWordsOfJoin(ts: seq<string>)
    requires forall i :: 0 <= i < |ts| ==> IsWord(ts[i])
    ensures FindWords(JoinSpaces(ts)) == ts
  {
    if ts == [] {
    } else if |ts| == 1 {
      var t := ts[0];
      WordRunOfWord(t, []);
      assert t + [] == t;
      assert t[..|t|] == t && t[|t|..] == [];
    } else {
      var t, rest := ts[0], JoinSpaces(ts[1..]);
      var s := t + " " + rest;
      assert s == t + (" " + rest);
      WordRunOfWord(t, " " + rest);
      assert s[..|t|] == t;
      assert s[|t|..] == " " + rest;
      assert (" " + rest)[1..] == rest;
      FindWordsOfJoin(ts[1..]);
    }
  }

  /** No `\w+` token contains a character outside `\w`, an apostrophe or colon say. */
  lemma WordHasNoChar(t: string, c: char)
    requires IsWord(t) && !IsWordChar(c)
    ensures c !in t
  {
  }

  /** Every character of a space-joined list is a space or a character of an element. */
  lemma {:induction false} JoinSpacesChars(ts: seq<string>, c: char)
    requires c in JoinSpaces(ts)
    ensures c == ' ' || exists i :: 0 <= i < |ts| && c in ts[i]
  {
    if |ts| > 1 {
      var s := ts[0] + " " + JoinSpaces(ts[1..]);
      var k :| 0 <= k < |s| && s[k] == c;
      if k < |ts[0]| {
        assert c in ts[0];
      } else if k > |ts[0]| {
        assert JoinSpaces(ts[1..])[k - |ts[0]| - 1] == c;
        JoinSpacesChars(ts[1..], c);
        if c != ' ' {
          var i :| 0 <= i < |ts[1..]| && c in ts[1..][i];
          assert c in ts[i + 1];
        }
      }
    }
  }

  /** Stripping removes characters and adds none. */
  lemma StripKeepsChars(s: string, c: char)
    ensures c in Strip(s) ==> c in s
  {
    var i := TrimStartSplit(s);
    var j := TrimEndSplit(s[i..]);
    assert Strip(s) == s[i..][..j];
  }

  /**
   * str.strip() removes exactly the leading and trailing whitespace: for
   * any string cut into whitespace, a core that neither starts nor ends
   * with whitespace, and whitespace, the result is the core.
   */
  lemma StripOf(lead: string, core: string, trail: string)
    requires forall k :: 0 <= k < |lead| ==> IsSpace(lead[k])
    requires forall k :: 0 <= k < |trail| ==> IsSpace(trail[k])
    requires core != [] ==> !IsSpace(core[0]) && !IsSpace(core[|core| - 1])
    ensures Strip(lead + core + trail) == core
  {
    assert lead + core + trail == lead + (core + trail);
    TrimStartSpaces(lead, core + trail);
    if core == [] {
      assert core + trail == trail;
      TrimStartSpaces(trail, []);
      assert trail + [] == trail;
      assert TrimStart(lead + core + trail) == [];
    } else {
      assert (core + trail)[0] == core[0];
      assert TrimStart(core + trail) == core + trail;
      TrimEndSpaces(core, trail);
      assert TrimEnd(core) == core;
    }
  }

  /** Leading whitespace does not change what TrimStart leaves. */
  lemma {:induction false} TrimStartSpaces(lead: string, rest: string)
    requires forall k :: 0 <= k < |lead| ==> IsSpace(lead[k])
    ensures TrimStart(lead + rest) == TrimStart(rest)
  {
    if lead != [] {
      assert (lead + rest)[0] == lead[0];
      assert (lead + rest)[1..] == lead[1..] + rest;
      assert forall k :: 0 <= k < |lead[1..]| ==> lead[1..][k] == lead[k + 1];
      TrimStartSpaces(lead[1..], rest);
    } else {
      assert lead + rest == rest;
    }
  }

  /** Trailing whitespace does not change what TrimEnd leaves. */
  lemma {:induction false} TrimEndSpaces(rest: string, trail: string)
    requires forall k :: 0 <= k < |trail| ==> IsSpace(trail[k])
    ensures TrimEnd(rest + trail) == TrimEnd(rest)
  {
    if trail != [] {
      var u := rest + trail;
      assert u[..|u| - 1] == rest + trail[..|trail| - 1];
      TrimEndSpaces(rest, trail[..|trail| - 1]);
    } else {
      assert rest + trail == rest;
    }
  }

  /** TrimStart drops a whitespace prefix and stops at the first other character. */
  lemma {:induction false} TrimStartSplit(s: string) returns (k: nat)
    ensures k <= |s| && TrimStart(s) == s[k..]
    ensures forall m :: 0 <= m < k ==> IsSpace(s[m])
  {
    if s != [] && IsSpace(s[0]) {
      var k' := TrimStartSplit(s[1..]);
      k := k' + 1;
      assert s[1..][k'..] == s[k..];
      assert forall m :: 1 <= m < k ==> s[m] == s[1..][m - 1];
    } else {
      k := 0;
    }
  }

  /** TrimEnd drops a whitespace suffix and stops at the last other character. */
  lemma {:induction false} TrimEndSplit(s: string) returns (k: nat)
    ensures k <= |s| && TrimEnd(s) == s[..k]
  {
    if s != [] && IsSpace(s[|s| - 1]) {
      k := TrimEndSplit(s[..|s| - 1]);
      assert s[..|s| - 1][..k] == s[..k];
    } else {
      k := |s|;
    }
  }

  /** A substring of a substring is a substring. */
  lemma ContainsTransitive(s: string, p: string, q: string)
    requires Contains(s, p) && Contains(p, q)
    ensures Contains(s, q)
  {
    var i :| 0 <= i <= |s| && p <= s[i..];
    var j :| 0 <= j <= |p| && q <= p[j..];
    assert q <= s[i + j..];
  }

  /** A string without character `c` contains no pattern holding `c`. */
  lemma NotContainsChar(s: string, p: string, c: char)
    requires c in p && c !in s
    ensures !Contains(s, p)
  {
  }

  /** Lower-casing keeps every non-letter where it was, and makes none. */
  lemma LowerKeepsOtherChars(s: string, c: char)
    requires !('A' <= c <= 'Z') && !('a' <= c <= 'z')
    ensures forall i :: 0 <= i < |s| ==> (Lower(s)[i] == c <==> s[i] == c)
    ensures c in Lower(s) <==> c in s
  {
    if c in Lower(s) {
      var k :| 0 <= k < |s| && Lower(s)[k] == c;
      assert s[k] == c;
    }
    if c in s {
      var k :| 0 <= k < |s| && s[k] == c;
      assert Lower(s)[k] == c;
    }
  }
}
