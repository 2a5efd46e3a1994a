/** The text rules geoipdb.go applies to the answers of its sources:
    strings.TrimSpace, the split at the first space (strings.SplitN(s, " ", 2)),
    the ASN pattern reASN, and the removal of reDNSFilter matches from a Team
    Cymru TXT string. */
module Answers {
  import opened Wrappers

  /** unicode.IsSpace: the Latin-1 spaces and the other White_Space code points.
      In the Latin-1 range these are '\t', '\n', '\v', '\f', '\r', ' ', U+0085
      and U+00A0. */
  predicate IsSpace(c: char): (r: bool)
    ensures c <= '\U{00FF}' ==> (r <==> c in ['\t', '\n', '\U{000B}', '\U{000C}', '\r', ' ', '\U{0085}', '\U{00A0}'])
  {
    || c == '\t' || c == '\n' || c == '\U{000B}' || c == '\U{000C}' || c == '\r' || c == ' '
    || c == '\U{0085}' || c == '\U{00A0}' || c == '\U{1680}'
    || ('\U{2000}' <= c <= '\U{200A}')
    || c == '\U{2028}' || c == '\U{2029}' || c == '\U{202F}' || c == '\U{205F}' || c == '\U{3000}'
  }

  /** Drop the leading white space. */
  function TrimLeft(s: string): (r: string)
    ensures |r| <= |s| && r == s[|s| - |r|..]
    ensures forall i | 0 <= i < |s| - |r| :: IsSpace(s[i])
    ensures r == [] || !IsSpace(r[0])
  {
    if s != [] && IsSpace(s[0]) then TrimLeft(s[1..]) else s
  }

  /** Drop the trailing white space. */
  function TrimRight(s: string): (r: string)
    ensures |r| <= |s| && r == s[..|r|]
    ensures forall i | |r| <= i < |s| :: IsSpace(s[i])
    ensures r == [] || !IsSpace(r[|r| - 1])
  {
    if s != [] && IsSpace(s[|s| - 1]) then TrimRight(s[..|s| - 1]) else s
  }

  /** strings.TrimSpace: s without its leading and trailing white space;
      neither end of the result is white space. */
  function TrimSpace(s: string): (r: string)
    ensures r == [] || (!IsSpace(r[0]) && !IsSpace(r[|r| - 1]))
    ensures |r| <= |s|
  {
    TrimRight(TrimLeft(s))
  }

  /** What TrimSpace removes: the result is the slice s[lead..lead + |r|] and
      all of s outside it is white space. */
  lemma TrimSpaceSlice(s: string) returns (lead: nat)
    ensures lead + |TrimSpace(s)| <= |s| && TrimSpace(s) == s[lead..lead + |TrimSpace(s)|]
    ensures forall i | 0 <= i < lead :: IsSpace(s[i])
    ensures forall i | lead + |TrimSpace(s)| <= i < |s| :: IsSpace(s[i])
  {
    var l := TrimLeft(s);
    var r := TrimRight(l);
    lead := |s| - |l|;
    assert l == s[lead..];
    assert r == l[..|r|];
    forall i | lead + |r| <= i < |s| ensures IsSpace(s[i]) {
      assert s[i] == l[i - lead];
    }
  }

  /** No '|' survives trimming a text without one. */
  lemma TrimSpaceNoPipe(s: string)
    requires '|' !in s
    ensures '|' !in TrimSpace(s)
  {
    var lead := TrimSpaceSlice(s);
    var t := TrimSpace(s);
    forall k | 0 <= k < |t| ensures t[k] != '|' {
      assert t[k] == s[lead + k];
    }
  }

  /** TrimSpace yields "" exactly when s is all white space. */
  lemma TrimSpaceEmpty(s: string)
    ensures TrimSpace(s) == [] <==> forall i | 0 <= i < |s| :: IsSpace(s[i])
  {
    var lead := TrimSpaceSlice(s);
    if TrimSpace(s) != [] {
      assert !IsSpace(s[lead]);
    }
  }

  /** Trimming twice is trimming once. */
  lemma TrimSpaceIdempotent(s: string)
    ensures TrimSpace(TrimSpace(s)) == TrimSpace(s)
  {
    var t := TrimSpace(s);
    if t != [] {
      assert TrimLeft(t) == t;
      assert TrimRight(t) == t;
    }
  }

  /** The first position of c in s. */
  function IndexOf(s: string, c: char): (r: Option<nat>)
    ensures r.None? <==> c !in s
    ensures r.Some? ==> r.value < |s| && s[r.value] == c && c !in s[..r.value]
  {
    if s == [] then None
    else if s[0] == c then Some(0)
    else match IndexOf(s[1..], c)
      case None => None
      case Some(i) => assert s[..i + 1] == [s[0]] + s[1..][..i]; Some(i + 1)
  }

  /** The last position of c in s. */
  function LastIndexOf(s: string, c: char): (r: Option<nat>)
    ensures r.None? <==> c !in s
    ensures r.Some? ==> r.value < |s| && s[r.value] == c && c !in s[r.value + 1..]
  {
    if s == [] then None
    else if s[|s| - 1] == c then Some(|s| - 1)
    else match LastIndexOf(s[..|s| - 1], c)
      case None => assert s == s[..|s| - 1] + [s[|s| - 1]]; None
      case Some(i) => assert s[i + 1..] == s[..|s| - 1][i + 1..] + [s[|s| - 1]]; Some(i)
  }

  /** strings.SplitN(s, " ", 2) as its callers use it: the text before the first
      space, and the text after it ("" when there is no space). */
  function SplitFirstSpace(s: string): (r: (string, string))
    ensures ' ' in s ==> s == r.0 + " " + r.1 && ' ' !in r.0
    ensures ' ' !in s ==> r == (s, "")
  {
    match IndexOf(s, ' ')
    case None => (s, "")
    case Some(i) => assert s == s[..i] + " " + s[i + 1..]; (s[..i], s[i + 1..])
  }

  /** The (first, rest) pair put back together. */
  function Join(first: string, rest: string): string
  {
    if rest == "" then first else first + " " + rest
  }

  /** Splitting a trimmed, non-empty answer: the first token is non-empty and
      has no space, the rest is empty exactly when there was no space, and
      the two pieces join back into the answer. */
  lemma SplitTrimmed(s: string)
    requires TrimSpace(s) != ""
    ensures var t := TrimSpace(s); var r := SplitFirstSpace(t);
      && r.0 != "" && ' ' !in r.0
      && (r.1 == "" <==> ' ' !in t)
      && Join(r.0, r.1) == t
  {
    var t := TrimSpace(s);
    var r := SplitFirstSpace(t);
    if ' ' in t {
      assert t == r.0 + " " + r.1;
    }
  }

  // ---------------------------------------------------------------------
  // The ASN pattern ^AS[[:digit:]]+$

  predicate IsDigit(c: char)
  {
    '0' <= c <= '9'
  }

  /** The whole token is "AS" followed by one or more decimal digits. Such a
      token holds no white space and no '|'. */
  predicate IsAsn(s: string): (r: bool)
    ensures r ==> forall k | 0 <= k < |s| :: !IsSpace(s[k]) && s[k] != '|'
  {
    |s| > 2 && s[0] == 'A' && s[1] == 'S' && forall i | 2 <= i < |s| :: IsDigit(s[i])
  }

  /** Position i of s begins a line. */
  predicate LineStart(s: string, i: nat)
    requires i <= |s|
  {
    i == 0 || s[i - 1] == '\n'
  }

  /** Position j of s ends a line. */
  predicate LineEnd(s: string, j: nat)
    requires j <= |s|
  {
    j == |s| || s[j] == '\n'
  }

  /** reASN.MatchString as compiled: in POSIX mode ^ and $ anchor at line
      boundaries, so the pattern matches when some whole line of s is an ASN.
      It accepts every ASN, and on text without a line break it accepts
      exactly the ASNs. */
  predicate ReAsnMatches(s: string): (r: bool)
    ensures IsAsn(s) ==> r
    ensures '\n' !in s ==> (r <==> IsAsn(s))
  {
    OneLineIsWhole(s);
    exists i, j | 0 <= i <= j <= |s| && LineStart(s, i) && LineEnd(s, j) :: IsAsn(s[i..j])
  }

  /** The whole of s is a line, and without a line break the only one. */
  lemma OneLineIsWhole(s: string)
    ensures s[0..|s|] == s && LineStart(s, 0) && LineEnd(s, |s|)
    ensures '\n' !in s ==> forall i, j | 0 <= i <= j <= |s| && LineStart(s, i) && LineEnd(s, j) :: s[i..j] == s
  {
  }

  /** The compiled pattern accepts a token that is not an ASN: a token with a
      line break before an ASN line. */
  lemma ReAsnAcceptsMultiLineToken()
    ensures ReAsnMatches("error\nAS15169") && !IsAsn("error\nAS15169")
  {
    var s := "error\nAS15169";
    assert LineStart(s, 6) && LineEnd(s, 13);
    assert IsAsn(s[6..13]) by { assert s[6..13] == "AS15169"; }
  }

  // ---------------------------------------------------------------------
  // The Team Cymru TXT filter .*\|

  /** One line without everything up to and including its last '|'. */
  function StripThroughLastPipe(s: string): (r: string)
    ensures '|' !in r
    ensures '|' !in s ==> r == s
    ensures '|' in s ==> |r| < |s| && s == s[..|s| - |r| - 1] + "|" + r
  {
    match LastIndexOf(s, '|')
    case None => s
    case Some(i) => assert s == s[..i] + "|" + s[i + 1..]; s[i + 1..]
  }

  /** reDNSFilter.ReplaceAllString(s, ""): '.' does not match a line break, and
      a leftmost-longest match runs from the start of a line to its last '|',
      so every line loses everything up to and including its last '|'. */
  function DnsFilter(s: string): (r: string)
    ensures '|' !in r
    ensures '|' !in s ==> r == s
    ensures |r| <= |s|
    decreases |s|
  {
    match IndexOf(s, '\n')
    case None => StripThroughLastPipe(s)
    case Some(i) =>
      assert s == s[..i] + "\n" + s[i + 1..];
      assert '|' !in s ==> '|' !in s[..i] && '|' !in s[i + 1..];
      StripThroughLastPipe(s[..i]) + "\n" + DnsFilter(s[i + 1..])
  }

  /** A single-line TXT string keeps what follows its last '|'. */
  lemma DnsFilterOneLine(s: string)
    requires '\n' !in s
    ensures DnsFilter(s) == StripThroughLastPipe(s)
  {
  }

  /** A one-line string whose last '|' ends `head` filters to `tail`. */
  lemma DnsFilterKeepsTail(head: string, tail: string)
    requires head != [] && head[|head| - 1] == '|' && '|' !in tail
    requires '\n' !in head && '\n' !in tail
    ensures DnsFilter(head + tail) == tail
  {
    var s := head + tail;
    assert s[|head| - 1] == '|' && s[|head|..] == tail;
    assert '\n' !in s by {
      forall i | 0 <= i < |s| ensures s[i] != '\n' {
        if i < |head| { assert s[i] == head[i]; } else { assert s[i] == tail[i - |head|]; }
      }
    }
    DnsFilterOneLine(s);
    LastPipeAt(s, |head| - 1);
  }

  /** The shape of a Team Cymru origin answer: the text after the last '|',
      trimmed. */
  lemma CymruAnswerExample()
    ensures TrimSpace(DnsFilter("15169 | US | arin | 2000-03-30 |" + " " + "GOOGLE - Google Inc., US"))
         == "GOOGLE - Google Inc., US"
  {
    GoogleHasNoPipe();
    DnsFilterKeepsTail("15169 | US | arin | 2000-03-30 |", " " + "GOOGLE - Google Inc., US");
    assert "15169 | US | arin | 2000-03-30 |" + " " + "GOOGLE - Google Inc., US"
        == "15169 | US | arin | 2000-03-30 |" + (" " + "GOOGLE - Google Inc., US");
    TrimSpaceOfPadded("GOOGLE - Google Inc., US");
  }

  /** A string with non-space ends is its own trim. */
  lemma TrimSpaceOfTrimmed(t: string)
    requires t != [] && !IsSpace(t[0]) && !IsSpace(t[|t| - 1])
    ensures TrimSpace(t) == t
  {
  }

  /** An answer with non-space ends is its own trimmed form, and its first
      token starts with its first character. */
  lemma FirstTokenOfTrimmed(t: string)
    requires t != [] && !IsSpace(t[0]) && !IsSpace(t[|t| - 1])
    ensures TrimSpace(t) == t
    ensures SplitFirstSpace(t).0 != [] && SplitFirstSpace(t).0[0] == t[0]
  {
    TrimSpaceOfTrimmed(t);
    SplitTrimmed(t);
    var r := SplitFirstSpace(t);
    if ' ' in t {
      assert t == r.0 + " " + r.1;
      assert t[0] == r.0[0];
    }
  }

  /** Trimming and splitting a text without a line break leave none in the
      first token. */
  lemma FirstTokenOneLine(s: string)
    requires '\n' !in s
    ensures '\n' !in TrimSpace(s) && '\n' !in SplitFirstSpace(TrimSpace(s)).0
  {
    var lead := TrimSpaceSlice(s);
    var t := TrimSpace(s);
    forall k | 0 <= k < |t| ensures t[k] != '\n' {
      assert t[k] == s[lead + k];
    }
    var r := SplitFirstSpace(t);
    if ' ' in t {
      forall k | 0 <= k < |r.0| ensures r.0[k] != '\n' {
        assert r.0[k] == t[k];
      }
    }
  }

  /** The error text "error\nAS15169 x" is trimmed already, and its first
      token runs up to the space after the ASN line. */
  lemma MultiLineAnswerSplit()
    ensures TrimSpace("error\nAS15169 x") == "error\nAS15169 x"
    ensures SplitFirstSpace("error\nAS15169 x") == ("error\nAS15169", "x")
  {
    var first := "error\nAS15169";
    var data := first + " " + "x";
    assert data == "error\nAS15169 x";
    TrimSpaceOfTrimmed(data);
    assert ' ' !in first;
    assert data[..13] == first && data[14..] == "x";
  }

  /** One leading space is trimmed off a string with non-space ends. */
  lemma TrimSpaceOfPadded(t: string)
    requires t != [] && !IsSpace(t[0]) && !IsSpace(t[|t| - 1])
    ensures TrimSpace(" " + t) == t
  {
    assert (" " + t)[1..] == t;
  }

  /** The padded description field of the AS15169 sample answer holds no
      '|' and no line break. */
  lemma GoogleHasNoPipe()
    ensures '|' !in " " + "GOOGLE - Google Inc., US"
    ensures '\n' !in " " + "GOOGLE - Google Inc., US"
  {
  }

  /** With '|' at k and none after it, the filter keeps s[k + 1..]. */
  lemma LastPipeAt(s: string, k: nat)
    requires k < |s| && s[k] == '|' && '|' !in s[k + 1..]
    ensures StripThroughLastPipe(s) == s[k + 1..]
  {
    var r := StripThroughLastPipe(s);
    var m := |s| - |r| - 1;
    assert s[m] == '|' && s[m + 1..] == r;
  }
}
