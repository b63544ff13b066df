/**
 * The InputSanitizer namespace: HTML escaping for values echoed into pages
 * and exports, filename cleaning, and the length and character-set checks
 * applied to SSIDs, WPA2 passphrases and hostnames.
 */
module InputSanitizer {
  import opened ArduinoTypes

  /** An SSID element carries 1 to 32 octets (IEEE 802.11-2016 section 9.4.2.2). */
  const MaxSsidLength: nat := 32
  /** A WPA2 passphrase is 8 to 63 characters (IEEE 802.11-2016 Annex J.4.1). */
  const MinPassphraseLength: nat := 8
  const MaxPassphraseLength: nat := 63
  /** One hostname label is 1 to 63 characters (RFC 1123 section 2.1). */
  const MaxLabelLength: nat := 63

  predicate IsValidSSID(ssid: string)
  {
    |ssid| > 0 && |ssid| <= MaxSsidLength
  }

  /** The empty password stands for an open network. */
  predicate IsValidPassword(password: string)
  {
    |password| == 0 || (|password| >= MinPassphraseLength && |password| <= MaxPassphraseLength)
  }

  predicate IsLabelChar(c: char)
  {
    IsAlnum(c) || c == '-'
  }

  /** A single label: letters, digits and hyphens, not beginning or ending with a hyphen. */
  predicate IsValidHostname(hostname: string)
  {
    && 0 < |hostname| <= MaxLabelLength
    && (forall i :: 0 <= i < |hostname| ==> IsLabelChar(hostname[i]))
    && hostname[0] != '-'
    && hostname[|hostname| - 1] != '-'
  }

  /** isValidHostname as the source runs it: a scan with an early return on the first bad character. */
  method CheckHostname(hostname: string) returns (ok: bool)
    ensures ok <==> IsValidHostname(hostname)
  {
    if |hostname| == 0 || |hostname| > MaxLabelLength {
      return false;
    }
    var i := 0;
    while i < |hostname|
      invariant 0 <= i <= |hostname|
      invariant forall k :: 0 <= k < i ==> IsLabelChar(hostname[k])
    {
      var c := hostname[i];
      if !IsAlnum(c) && c != '-' {
        return false;
      }
      i := i + 1;
    }
    ok := hostname[0] != '-' && hostname[|hostname| - 1] != '-';
  }

  // ---------------------------------------------------------------------
  // sanitizeHTML

  /** String::replace(find, replacement) for a one-character `find`: every occurrence, left to right. */
  function ReplaceChar(s: string, find: char, replacement: string): (r: string)
  {
    if s == [] then []
    else (if s[0] == find then replacement else [s[0]]) + ReplaceChar(s[1..], find, replacement)
  }

  /** sanitizeHTML as written: five whole-string replacement passes, `&` first. */
  function SanitizeHTML(input: string): string
  {
    var s1 := ReplaceChar(input, '&', "&amp;");
    var s2 := ReplaceChar(s1, '<', "&lt;");
    var s3 := ReplaceChar(s2, '>', "&gt;");
    var s4 := ReplaceChar(s3, '"', "&quot;");
    ReplaceChar(s4, '\'', "&#x27;")
  }

  /** The escape of one character, independent of its neighbours. */
  function EscapeChar(c: char): string
  {
    if c == '&' then "&amp;"
    else if c == '<' then "&lt;"
    else if c == '>' then "&gt;"
    else if c == '"' then "&quot;"
    else if c == '\'' then "&#x27;"
    else [c]
  }

  /** The reference definition: escape every character on its own and concatenate. */
  function Escape(s: string): string
  {
    if s == [] then [] else EscapeChar(s[0]) + Escape(s[1..])
  }

  predicate IsMarkupChar(c: char)
  {
    c == '<' || c == '>' || c == '"' || c == '\''
  }

  lemma {:induction false} ReplaceCharAppend(a: string, b: string, find: char, replacement: string)
    ensures ReplaceChar(a + b, find, replacement) == ReplaceChar(a, find, replacement) + ReplaceChar(b, find, replacement)
  {
    if a == [] {
      assert a + b == b;
    } else {
      assert (a + b)[0] == a[0];
      assert (a + b)[1..] == a[1..] + b;
      ReplaceCharAppend(a[1..], b, find, replacement);
    }
  }

  lemma {:induction false} ReplaceCharAbsent(s: string, find: char, replacement: string)
    requires find !in s
    ensures ReplaceChar(s, find, replacement) == s
  {
    if s != [] {
      ReplaceCharAbsent(s[1..], find, replacement);
    }
  }

  /** The five passes applied to one character give exactly that character's escape. */
  lemma SanitizeOneChar(c: char)
    ensures SanitizeHTML([c]) == EscapeChar(c)
  {
    if c == '&' {
      SanitizeAmpersand();
    } else if c == '<' {
      SanitizeLessThan();
    } else if c == '>' {
      SanitizeGreaterThan();
    } else if c == '"' {
      SanitizeQuote();
    } else if c == '\'' {
      SanitizeApostrophe();
    } else {
      SanitizePlainChar(c);
    }
  }

  lemma SanitizeAmpersand()
    ensures SanitizeHTML("&") == "&amp;"
  {
    ReplaceCharSingle('&', '&', "&amp;");
    PassesAfterAmpersand("&amp;", "&amp;");
  }

  lemma SanitizeLessThan()
    ensures SanitizeHTML("<") == "&lt;"
  {
    ReplaceCharSingle('<', '&', "&amp;");
    ReplaceCharSingle('<', '<', "&lt;");
    PassesAfterLessThan("&lt;", "&lt;");
  }

  lemma SanitizeGreaterThan()
    ensures SanitizeHTML(">") == "&gt;"
  {
    ReplaceCharSingle('>', '&', "&amp;");
    ReplaceCharSingle('>', '<', "&lt;");
    ReplaceCharSingle('>', '>', "&gt;");
    PassesAfterGreaterThan("&gt;", "&gt;");
  }

  lemma SanitizeQuote()
    ensures SanitizeHTML("\"") == "&quot;"
  {
    ReplaceCharSingle('"', '&', "&amp;");
    ReplaceCharSingle('"', '<', "&lt;");
    ReplaceCharSingle('"', '>', "&gt;");
    ReplaceCharSingle('"', '"', "&quot;");
    ReplaceCharAbsent("&quot;", '\'', "&#x27;");
  }

  lemma SanitizeApostrophe()
    ensures SanitizeHTML("'") == "&#x27;"
  {
    ReplaceCharSingle('\'', '&', "&amp;");
    ReplaceCharSingle('\'', '<', "&lt;");
    ReplaceCharSingle('\'', '>', "&gt;");
    ReplaceCharSingle('\'', '"', "&quot;");
    ReplaceCharSingle('\'', '\'', "&#x27;");
  }

  lemma SanitizePlainChar(c: char)
    requires c != '&' && !IsMarkupChar(c)
    ensures SanitizeHTML([c]) == [c]
  {
    ReplaceCharSingle(c, '&', "&amp;");
    ReplaceCharSingle(c, '<', "&lt;");
    ReplaceCharSingle(c, '>', "&gt;");
    ReplaceCharSingle(c, '"', "&quot;");
    ReplaceCharSingle(c, '\'', "&#x27;");
  }

  /** Once `s` is free of the characters later passes look for, those passes leave it alone. */
  lemma PassesAfterAmpersand(s1: string, e: string)
    requires s1 == e && '<' !in e && '>' !in e && '"' !in e && '\'' !in e
    ensures ReplaceChar(ReplaceChar(ReplaceChar(ReplaceChar(s1, '<', "&lt;"), '>', "&gt;"), '"', "&quot;"), '\'', "&#x27;") == e
  {
    ReplaceCharAbsent(s1, '<', "&lt;");
    PassesAfterLessThan(s1, e);
  }

  lemma PassesAfterLessThan(s2: string, e: string)
    requires s2 == e && '>' !in e && '"' !in e && '\'' !in e
    ensures ReplaceChar(ReplaceChar(ReplaceChar(s2, '>', "&gt;"), '"', "&quot;"), '\'', "&#x27;") == e
  {
    ReplaceCharAbsent(s2, '>', "&gt;");
    PassesAfterGreaterThan(s2, e);
  }

  lemma PassesAfterGreaterThan(s3: string, e: string)
    requires s3 == e && '"' !in e && '\'' !in e
    ensures ReplaceChar(ReplaceChar(s3, '"', "&quot;"), '\'', "&#x27;") == e
  {
    ReplaceCharAbsent(s3, '"', "&quot;");
    ReplaceCharAbsent(s3, '\'', "&#x27;");
  }

  lemma ReplaceCharSingle(c: char, find: char, replacement: string)
    ensures ReplaceChar([c], find, replacement) == if c == find then replacement else [c]
  {
    assert ReplaceChar([c][1..], find, replacement) == [];
  }

  /**
   * The sequential replacements never re-escape an inserted entity: because
   * `&` goes first and no later replacement text contains `<`, `>`, `"` or
   * `'`, the whole-string passes equal the per-character escape.
   */
  lemma {:induction false} SanitizeHTMLIsEscape(s: string)
    ensures SanitizeHTML(s) == Escape(s)
  {
    if s != [] {
      var head, tail := [s[0]], s[1..];
      assert s == head + tail;
      SanitizeDistributes(head, tail);
      SanitizeOneChar(s[0]);
      SanitizeHTMLIsEscape(tail);
    }
  }

  lemma SanitizeDistributes(a: string, b: string)
    ensures SanitizeHTML(a + b) == SanitizeHTML(a) + SanitizeHTML(b)
  {
    var a1, b1 := ReplaceChar(a, '&', "&amp;"), ReplaceChar(b, '&', "&amp;");
    ReplaceCharAppend(a, b, '&', "&amp;");
    var a2, b2 := ReplaceChar(a1, '<', "&lt;"), ReplaceChar(b1, '<', "&lt;");
    ReplaceCharAppend(a1, b1, '<', "&lt;");
    var a3, b3 := ReplaceChar(a2, '>', "&gt;"), ReplaceChar(b2, '>', "&gt;");
    ReplaceCharAppend(a2, b2, '>', "&gt;");
    var a4, b4 := ReplaceChar(a3, '"', "&quot;"), ReplaceChar(b3, '"', "&quot;");
    ReplaceCharAppend(a3, b3, '"', "&quot;");
    ReplaceCharAppend(a4, b4, '\'', "&#x27;");
  }

  /** No markup-significant character survives escaping. */
  lemma {:induction false} EscapeHasNoMarkup(s: string)
    ensures forall i :: 0 <= i < |Escape(s)| ==> !IsMarkupChar(Escape(s)[i])
  {
    if s != [] {
      EscapeHasNoMarkup(s[1..]);
      var e, rest := EscapeChar(s[0]), Escape(s[1..]);
      assert Escape(s) == e + rest;
      forall i | 0 <= i < |e + rest| ensures !IsMarkupChar((e + rest)[i]) {
        if i >= |e| {
          assert (e + rest)[i] == rest[i - |e|];
        }
      }
    }
  }

  /** Each character grows to at most six (`&quot;`, `&#x27;`), and never shrinks. */
  lemma {:induction false} EscapeLength(s: string)
    ensures |s| <= |Escape(s)| <= 6 * |s|
  {
    if s != [] {
      EscapeLength(s[1..]);
    }
  }

  /** sanitizeHTML leaves text without `&`, `<`, `>`, `"` and `'` untouched. */
  lemma {:induction false} EscapePlainText(s: string)
    requires forall i :: 0 <= i < |s| ==> s[i] != '&' && !IsMarkupChar(s[i])
    ensures Escape(s) == s
  {
    if s != [] {
      EscapePlainText(s[1..]);
    }
  }

  /** The properties of sanitizeHTML itself, obtained through the per-character form. */
  lemma SanitizeHTMLProperties(s: string)
    ensures forall i :: 0 <= i < |SanitizeHTML(s)| ==> !IsMarkupChar(SanitizeHTML(s)[i])
    ensures |s| <= |SanitizeHTML(s)| <= 6 * |s|
    ensures Nul !in s ==> Nul !in SanitizeHTML(s)
  {
    SanitizeHTMLIsEscape(s);
    EscapeHasNoMarkup(s);
    EscapeLength(s);
    if Nul !in s {
      EscapeKeepsNulFree(s);
    }
  }

  /** sanitizeHTML leaves text without `&`, `<`, `>`, `"` and `'` untouched. */
  lemma SanitizeHTMLLeavesPlainText(s: string)
    requires forall i :: 0 <= i < |s| ==> s[i] != '&' && !IsMarkupChar(s[i])
    ensures SanitizeHTML(s) == s
  {
    SanitizeHTMLIsEscape(s);
    EscapePlainText(s);
  }

  lemma {:induction false} EscapeKeepsNulFree(s: string)
    requires Nul !in s
    ensures Nul !in Escape(s)
  {
    if s != [] {
      EscapeKeepsNulFree(s[1..]);
    }
  }

  // ---------------------------------------------------------------------
  // sanitizeFilename

  predicate IsFilenameChar(c: char)
  {
    IsAlnum(c) || c == '_' || c == '-' || c == '.'
  }

  /** sanitizeFilename: keep safe characters, replace the rest with `_`, and prefix `file_` if empty or dot-led. */
  method SanitizeFilename(input: string) returns (clean: string)
    ensures |clean| > 0
    ensures forall i :: 0 <= i < |clean| ==> IsFilenameChar(clean[i])
    ensures clean[0] != '.'
    ensures |clean| == |input| || |clean| == |input| + 5
    ensures var body := clean[|clean| - |input|..];
      && (|clean| == |input| + 5 ==> clean[..5] == "file_")
      && forall i :: 0 <= i < |input| ==>
           body[i] == (if IsFilenameChar(input[i]) then input[i] else '_')
    ensures |clean| == |input| + 5 <==> (|input| == 0 || input[0] == '.')
  {
    clean := "";
    var i := 0;
    while i < |input|
      invariant 0 <= i <= |input|
      invariant |clean| == i
      invariant forall k :: 0 <= k < i ==>
        clean[k] == (if IsFilenameChar(input[k]) then input[k] else '_')
    {
      var c := input[i];
      if IsAlnum(c) || c == '_' || c == '-' || c == '.' {
        clean := clean + [c];
      } else {
        clean := clean + ['_'];
      }
      i := i + 1;
    }
    if |clean| == 0 || clean[0] == '.' {
      clean := "file_" + clean;
    }
  }
}
