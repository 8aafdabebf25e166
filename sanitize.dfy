/** `sanitizeInput`: HTML escaping of user text by five global
    replacements, ampersand first. */
module Sanitize {

  import opened Text

  /** `s.replace(/c/g, rep)` for a one-character pattern and a replacement
      without `$` patterns: every `c` of `s` becomes `rep`. */
  function ReplaceAll(s: string, c: char, rep: string): string {
    if s == [] then [] else (if s[0] == c then rep else [s[0]]) + ReplaceAll(s[1..], c, rep)
  }

  /** The five chained `replace` calls, in the order the script applies them. */
  function ReplaceChain(s: string): string {
    var amp := ReplaceAll(s, '&', "&amp;");
    var lt := ReplaceAll(amp, '<', "&lt;");
    var gt := ReplaceAll(lt, '>', "&gt;");
    var quot := ReplaceAll(gt, '"', "&quot;");
    ReplaceAll(quot, '\'', "&#039;")
  }

  /** `sanitizeInput(str)`: a falsy (empty) string gives `""`, anything else
      goes through the five replacements. */
  function SanitizeInput(s: string): string {
    if s == [] then [] else ReplaceChain(s)
  }

  /** The five characters that carry meaning in HTML markup. */
  predicate IsSpecial(c: char) {
    c == '&' || c == '<' || c == '>' || c == '"' || c == '\''
  }

  predicate NoSpecial(s: string) {
    forall i :: 0 <= i < |s| ==> !IsSpecial(s[i])
  }

  /** The single-character view of the escaping: the entity of one character. */
  function EscapeChar(c: char): (r: string)
    ensures |r| >= 1
    ensures |r| == 1 <==> !IsSpecial(c)
  {
    match c
    case '&' => "&amp;"
    case '<' => "&lt;"
    case '>' => "&gt;"
    case '"' => "&quot;"
    case '\'' => "&#039;"
    case _ => [c]
  }

  /** Escaping as one pass that maps each character to its entity. */
  function Escape(s: string): string {
    if s == [] then [] else EscapeChar(s[0]) + Escape(s[1..])
  }

  // ---------------------------------------------------------------------------
  // The five passes are one per-character substitution.

  lemma {:induction false} ReplaceAllConcat(a: string, b: string, c: char, rep: string)
    ensures ReplaceAll(a + b, c, rep) == ReplaceAll(a, c, rep) + ReplaceAll(b, c, rep)
  {
    if a == [] {
      assert a + b == b;
    } else {
      assert (a + b)[0] == a[0] && (a + b)[1..] == a[1..] + b;
      ReplaceAllConcat(a[1..], b, c, rep);
    }
  }

  lemma {:induction false} ReplaceAllAbsent(s: string, c: char, rep: string)
    requires c !in s
    ensures ReplaceAll(s, c, rep) == s
  {
    if s != [] {
      assert s[0] != c;
      assert c !in s[1..];
      ReplaceAllAbsent(s[1..], c, rep);
    }
  }

  lemma ReplaceAllOne(x: char, c: char, rep: string)
    ensures ReplaceAll([x], c, rep) == if x == c then rep else [x]
  {
    assert [x][1..] == [];
  }

  lemma ReplaceChainConcat(a: string, b: string)
    ensures ReplaceChain(a + b) == ReplaceChain(a) + ReplaceChain(b)
  {
    var a1, b1 := ReplaceAll(a, '&', "&amp;"), ReplaceAll(b, '&', "&amp;");
    ReplaceAllConcat(a, b, '&', "&amp;");
    var a2, b2 := ReplaceAll(a1, '<', "&lt;"), ReplaceAll(b1, '<', "&lt;");
    ReplaceAllConcat(a1, b1, '<', "&lt;");
    var a3, b3 := ReplaceAll(a2, '>', "&gt;"), ReplaceAll(b2, '>', "&gt;");
    ReplaceAllConcat(a2, b2, '>', "&gt;");
    var a4, b4 := ReplaceAll(a3, '"', "&quot;"), ReplaceAll(b3, '"', "&quot;");
    ReplaceAllConcat(a3, b3, '"', "&quot;");
    ReplaceAllConcat(a4, b4, '\'', "&#039;");
  }

  lemma ReplaceChainAmpersand()
    ensures ReplaceChain("&") == "&amp;"
  {
    ReplaceAllOne('&', '&', "&amp;");
    assert ['&'] == "&";
    AmpersandEntityPasses("&amp;");
  }

  /** The later passes leave `&amp;` alone. */
  lemma AmpersandEntityPasses(s: string)
    requires s == "&amp;"
    ensures ReplaceAll(s, '<', "&lt;") == s && ReplaceAll(s, '>', "&gt;") == s
    ensures ReplaceAll(s, '"', "&quot;") == s && ReplaceAll(s, '\'', "&#039;") == s
  {
    assert '<' !in s && '>' !in s && '"' !in s && '\'' !in s;
    ReplaceAllAbsent(s, '<', "&lt;");
    ReplaceAllAbsent(s, '>', "&gt;");
    ReplaceAllAbsent(s, '"', "&quot;");
    ReplaceAllAbsent(s, '\'', "&#039;");
  }

  lemma ReplaceChainLessThan()
    ensures ReplaceChain("<") == "&lt;"
  {
    assert ReplaceAll("<", '&', "&amp;") == "<";
    assert ReplaceAll("<", '<', "&lt;") == "&lt;";
    assert ReplaceAll("&lt;", '>', "&gt;") == "&lt;";
    assert ReplaceAll("&lt;", '"', "&quot;") == "&lt;";
    assert ReplaceAll("&lt;", '\'', "&#039;") == "&lt;";
  }

  lemma ReplaceChainGreaterThan()
    ensures ReplaceChain(">") == "&gt;"
  {
    assert ReplaceAll(">", '&', "&amp;") == ">";
    assert ReplaceAll(">", '<', "&lt;") == ">";
    assert ReplaceAll(">", '>', "&gt;") == "&gt;";
    assert ReplaceAll("&gt;", '"', "&quot;") == "&gt;";
    assert ReplaceAll("&gt;", '\'', "&#039;") == "&gt;";
  }

  lemma ReplaceChainQuote()
    ensures ReplaceChain("\"") == "&quot;"
  {
    assert ReplaceAll("\"", '&', "&amp;") == "\"";
    assert ReplaceAll("\"", '<', "&lt;") == "\"";
    assert ReplaceAll("\"", '>', "&gt;") == "\"";
    assert ReplaceAll("\"", '"', "&quot;") == "&quot;";
    assert ReplaceAll("&quot;", '\'', "&#039;") == "&quot;";
  }

  lemma ReplaceChainApostrophe()
    ensures ReplaceChain("'") == "&#039;"
  {
    assert ReplaceAll("'", '&', "&amp;") == "'";
    assert ReplaceAll("'", '<', "&lt;") == "'";
    assert ReplaceAll("'", '>', "&gt;") == "'";
    assert ReplaceAll("'", '"', "&quot;") == "'";
    assert ReplaceAll("'", '\'', "&#039;") == "&#039;";
  }

  /** On one character the chain yields that character's entity: the entity
      put in by an earlier pass holds no character a later pass looks for. */
  lemma ReplaceChainOne(x: char)
    ensures ReplaceChain([x]) == EscapeChar(x)
  {
    if x == '&' {
      assert [x] == "&";
      ReplaceChainAmpersand();
    } else if x == '<' {
      assert [x] == "<";
      ReplaceChainLessThan();
    } else if x == '>' {
      assert [x] == ">";
      ReplaceChainGreaterThan();
    } else if x == '"' {
      assert [x] == "\"";
      ReplaceChainQuote();
    } else if x == '\'' {
      assert [x] == "'";
      ReplaceChainApostrophe();
    } else {
      ReplaceAllOne(x, '&', "&amp;");
      ReplaceAllOne(x, '<', "&lt;");
      ReplaceAllOne(x, '>', "&gt;");
      ReplaceAllOne(x, '"', "&quot;");
      ReplaceAllOne(x, '\'', "&#039;");
    }
  }

  /** The five chained replacements equal the per-character escaping. */
  lemma {:induction false} ReplaceChainIsEscape(s: string)
    ensures ReplaceChain(s) == Escape(s)
  {
    if s != [] {
      assert s == [s[0]] + s[1..];
      ReplaceChainConcat([s[0]], s[1..]);
      ReplaceChainOne(s[0]);
      ReplaceChainIsEscape(s[1..]);
    }
  }

  lemma SanitizeIsEscape(s: string)
    ensures SanitizeInput(s) == Escape(s)
  {
    ReplaceChainIsEscape(s);
  }

  /** Ampersand first matters: the same five passes with `&` moved to the end
      escape the entities the other passes inserted a second time. */
  function ReplaceChainAmpersandLast(s: string): string {
    var lt := ReplaceAll(s, '<', "&lt;");
    var gt := ReplaceAll(lt, '>', "&gt;");
    var quot := ReplaceAll(gt, '"', "&quot;");
    var apos := ReplaceAll(quot, '\'', "&#039;");
    ReplaceAll(apos, '&', "&amp;")
  }

  lemma AmpersandLastPasses(s: string)
    requires s == "&lt;"
    ensures ReplaceAll(s, '>', "&gt;") == s && ReplaceAll(s, '"', "&quot;") == s
    ensures ReplaceAll(s, '\'', "&#039;") == s
  {
    assert '>' !in s && '"' !in s && '\'' !in s;
    ReplaceAllAbsent(s, '>', "&gt;");
    ReplaceAllAbsent(s, '"', "&quot;");
    ReplaceAllAbsent(s, '\'', "&#039;");
  }

  lemma AmpersandLastFinal(s: string)
    requires s == "&lt;"
    ensures ReplaceAll(s, '&', "&amp;") == "&amp;lt;"
  {
    assert s == "&" + "lt;";
    ReplaceAllConcat("&", "lt;", '&', "&amp;");
    ReplaceAllOne('&', '&', "&amp;");
    assert '&' !in "lt;";
    ReplaceAllAbsent("lt;", '&', "&amp;");
  }

  lemma AmpersandLastDoubleEscapes()
    ensures ReplaceChainAmpersandLast("<") == "&amp;lt;"
    ensures SanitizeInput("<") == "&lt;"
  {
    ReplaceAllOne('<', '<', "&lt;");
    assert ReplaceAll("<", '<', "&lt;") == "&lt;";
    AmpersandLastPasses("&lt;");
    AmpersandLastFinal("&lt;");
    ReplaceChainLessThan();
  }


  // ---------------------------------------------------------------------------
  // What the escaped text looks like.

  /** `e` occurs in `r` at position `i`. */
  predicate OccursAt(r: string, i: nat, e: string) {
    i + |e| <= |r| && r[i..i + |e|] == e
  }

  /** One of the five entities starts at position `i` of `r`. */
  predicate EntityAt(r: string, i: nat) {
    OccursAt(r, i, "&amp;") || OccursAt(r, i, "&lt;") || OccursAt(r, i, "&gt;")
    || OccursAt(r, i, "&quot;") || OccursAt(r, i, "&#039;")
  }

  /** No raw `<`, `>`, `"` or `'`, and every `&` starts an entity. */
  predicate IsEscaped(r: string) {
    forall i :: 0 <= i < |r| ==>
      r[i] != '<' && r[i] != '>' && r[i] != '"' && r[i] != '\'' && (r[i] == '&' ==> EntityAt(r, i))
  }

  lemma OccursAtConcat(a: string, b: string, i: nat, e: string)
    ensures OccursAt(a, i, e) ==> OccursAt(a + b, i, e)
    ensures OccursAt(b, i, e) ==> OccursAt(a + b, |a| + i, e)
  {
    if OccursAt(a, i, e) {
      assert (a + b)[i..i + |e|] == a[i..i + |e|];
    }
    if OccursAt(b, i, e) {
      assert (a + b)[|a| + i..|a| + i + |e|] == b[i..i + |e|];
    }
  }

  lemma EntityAtConcat(a: string, b: string, i: nat)
    ensures EntityAt(a, i) ==> EntityAt(a + b, i)
    ensures EntityAt(b, i) ==> EntityAt(a + b, |a| + i)
  {
    OccursAtConcat(a, b, i, "&amp;");
    OccursAtConcat(a, b, i, "&lt;");
    OccursAtConcat(a, b, i, "&gt;");
    OccursAtConcat(a, b, i, "&quot;");
    OccursAtConcat(a, b, i, "&#039;");
  }

  lemma EscapedConcat(a: string, b: string)
    requires IsEscaped(a) && IsEscaped(b)
    ensures IsEscaped(a + b)
  {
    var r := a + b;
    forall i | 0 <= i < |r| && r[i] == '&' ensures EntityAt(r, i) {
      if i < |a| {
        assert a[i] == '&';
        EntityAtConcat(a, b, i);
      } else {
        assert b[i - |a|] == '&';
        EntityAtConcat(a, b, i - |a|);
      }
    }
  }

  lemma EscapeCharEscaped(c: char)
    ensures IsEscaped(EscapeChar(c))
  {
    var r := EscapeChar(c);
    if IsSpecial(c) {
      assert r[0] == '&' && OccursAt(r, 0, r);
      assert forall i :: 1 <= i < |r| ==> r[i] != '&';
    }
  }

  /** Escaped text holds no raw markup character. */
  lemma {:induction false} EscapeIsEscaped(s: string)
    ensures IsEscaped(Escape(s))
  {
    if s != [] {
      EscapeCharEscaped(s[0]);
      EscapeIsEscaped(s[1..]);
      EscapedConcat(EscapeChar(s[0]), Escape(s[1..]));
    }
  }

  // ---------------------------------------------------------------------------
  // Decoding the entities gives the input back.

  /** Reads the five entities back as their characters; any other character
      stands for itself. */
  function Unescape(r: string): string
    decreases |r|
  {
    if r == [] then []
    else if OccursAt(r, 0, "&amp;") then "&" + Unescape(r[5..])
    else if OccursAt(r, 0, "&lt;") then "<" + Unescape(r[4..])
    else if OccursAt(r, 0, "&gt;") then ">" + Unescape(r[4..])
    else if OccursAt(r, 0, "&quot;") then "\"" + Unescape(r[6..])
    else if OccursAt(r, 0, "&#039;") then "'" + Unescape(r[6..])
    else [r[0]] + Unescape(r[1..])
  }

  /** Text whose second character differs from the entity's does not start with it. */
  lemma OtherEntity(r: string, e: string)
    requires |r| >= 2 && |e| >= 2 && r[1] != e[1]
    ensures !OccursAt(r, 0, e)
  {
    assert |e| <= |r| ==> r[..|e|][1] == r[1];
  }

  lemma UnescapeAmp(t: string)
    ensures Unescape("&amp;" + t) == "&" + Unescape(t)
  {
    var r := "&amp;" + t;
    assert r[..5] == "&amp;" && r[5..] == t;
  }

  lemma UnescapeLt(t: string)
    ensures Unescape("&lt;" + t) == "<" + Unescape(t)
  {
    var r := "&lt;" + t;
    assert r[1] == 'l';
    OtherEntity(r, "&amp;");
    assert r[..4] == "&lt;" && r[4..] == t;
  }

  lemma UnescapeGt(t: string)
    ensures Unescape("&gt;" + t) == ">" + Unescape(t)
  {
    var r := "&gt;" + t;
    assert r[1] == 'g';
    OtherEntity(r, "&amp;");
    OtherEntity(r, "&lt;");
    assert r[..4] == "&gt;" && r[4..] == t;
  }

  lemma UnescapeQuot(t: string)
    ensures Unescape("&quot;" + t) == "\"" + Unescape(t)
  {
    var r := "&quot;" + t;
    assert r[1] == 'q';
    OtherEntity(r, "&amp;");
    OtherEntity(r, "&lt;");
    OtherEntity(r, "&gt;");
    assert r[..6] == "&quot;" && r[6..] == t;
  }

  lemma UnescapeApos(t: string)
    ensures Unescape("&#039;" + t) == "'" + Unescape(t)
  {
    var r := "&#039;" + t;
    assert r[1] == '#';
    OtherEntity(r, "&amp;");
    OtherEntity(r, "&lt;");
    OtherEntity(r, "&gt;");
    OtherEntity(r, "&quot;");
    assert r[..6] == "&#039;" && r[6..] == t;
  }

  /** Text whose first character is not `&` starts no entity. */
  lemma NoEntityStart(r: string, e: string)
    requires r != [] && r[0] != '&' && e != [] && e[0] == '&'
    ensures !OccursAt(r, 0, e)
  {
    assert |e| <= |r| ==> r[..|e|][0] == r[0];
  }

  lemma UnescapePlain(c: char, t: string)
    requires !IsSpecial(c)
    ensures Unescape([c] + t) == [c] + Unescape(t)
  {
    var r := [c] + t;
    NoEntityStart(r, "&amp;");
    NoEntityStart(r, "&lt;");
    NoEntityStart(r, "&gt;");
    NoEntityStart(r, "&quot;");
    NoEntityStart(r, "&#039;");
    assert r[0] == c && r[1..] == t;
  }

  lemma UnescapeEntity(e: string, c: char, t: string)
    requires e == EscapeChar(c)
    ensures Unescape(e + t) == [c] + Unescape(t)
  {
    if c == '&' {
      UnescapeAmp(t);
    } else if c == '<' {
      UnescapeLt(t);
    } else if c == '>' {
      UnescapeGt(t);
    } else if c == '"' {
      UnescapeQuot(t);
    } else if c == '\'' {
      UnescapeApos(t);
    } else {
      UnescapePlain(c, t);
    }
  }

  /** Unescape undoes the escaping, so no character is lost or reordered. */
  lemma {:induction false} UnescapeEscape(s: string)
    ensures Unescape(Escape(s)) == s
  {
    if s != [] {
      UnescapeEntity(EscapeChar(s[0]), s[0], Escape(s[1..]));
      UnescapeEscape(s[1..]);
      assert s == [s[0]] + s[1..];
    }
  }

  // ---------------------------------------------------------------------------
  // Lengths and idempotence.

  lemma {:induction false} EscapeLength(s: string)
    ensures |Escape(s)| >= |s|
    ensures |Escape(s)| == |s| <==> NoSpecial(s)
  {
    if s != [] {
      EscapeLength(s[1..]);
      if NoSpecial(s[1..]) && !IsSpecial(s[0]) {
        forall i | 0 <= i < |s| ensures !IsSpecial(s[i]) {
          if i > 0 { assert s[i] == s[1..][i - 1]; }
        }
      }
      if NoSpecial(s) {
        assert forall i :: 0 <= i < |s[1..]| ==> s[1..][i] == s[i + 1];
      }
    }
  }

  /** The length of the escaped text from the counts of the five characters:
      their entities are 4, 3, 3, 5 and 5 characters longer than they are. */
  function EscapedLength(t: string): nat {
    |t| + 4 * Count(t, '&') + 3 * Count(t, '<') + 3 * Count(t, '>') + 5 * Count(t, '"') + 5 * Count(t, '\'')
  }

  lemma {:induction false} EscapeLengthCounts(t: string)
    ensures |Escape(t)| == EscapedLength(t)
  {
    if t != [] {
      EscapeLengthCounts(t[1..]);
    }
  }

  lemma {:induction false} EscapePlain(s: string)
    requires NoSpecial(s)
    ensures Escape(s) == s
  {
    if s != [] {
      assert !IsSpecial(s[0]);
      assert NoSpecial(s[1..]) by {
        assert forall i :: 0 <= i < |s[1..]| ==> s[1..][i] == s[i + 1];
      }
      EscapePlain(s[1..]);
      assert s == [s[0]] + s[1..];
    }
  }

  /** A markup character in the input leaves an `&` in the output. */
  lemma {:induction false} EscapeKeepsSpecial(s: string)
    requires !NoSpecial(s)
    ensures !NoSpecial(Escape(s))
  {
    var e, t := EscapeChar(s[0]), Escape(s[1..]);
    assert Escape(s) == e + t;
    if IsSpecial(s[0]) {
      assert (e + t)[0] == e[0] == '&';
    } else {
      assert !NoSpecial(s[1..]) by {
        var i :| 0 <= i < |s| && IsSpecial(s[i]);
        assert i > 0 && s[1..][i - 1] == s[i];
      }
      EscapeKeepsSpecial(s[1..]);
      var j :| 0 <= j < |t| && IsSpecial(t[j]);
      assert (e + t)[|e| + j] == t[j];
    }
  }

  /** Re-sanitising changes the text exactly when it held a markup character:
      `"&"` gives `"&amp;"` and that gives `"&amp;amp;"`. */
  lemma SanitizeIdempotentIff(s: string)
    ensures SanitizeInput(SanitizeInput(s)) == SanitizeInput(s) <==> NoSpecial(s)
  {
    var r := SanitizeInput(s);
    SanitizeIsEscape(s);
    SanitizeIsEscape(r);
    if NoSpecial(s) {
      EscapePlain(s);
    } else {
      EscapeKeepsSpecial(s);
      EscapeLength(r);
    }
  }

  // ---------------------------------------------------------------------------
  // The promises of sanitizeInput, stated on SanitizeInput itself.

  /** Empty in, empty out, and only then. */
  lemma SanitizeEmptyIff(s: string)
    ensures SanitizeInput(s) == [] <==> s == []
  {
    SanitizeIsEscape(s);
    EscapeLength(s);
  }

  /** The output holds no raw `<`, `>`, `"` or `'`, and each `&` in it begins
      one of `&amp;`, `&lt;`, `&gt;`, `&quot;`, `&#039;`. */
  lemma SanitizeIsEscaped(s: string)
    ensures IsEscaped(SanitizeInput(s))
  {
    SanitizeIsEscape(s);
    EscapeIsEscaped(s);
  }

  lemma {:induction false} EscapeConcat(a: string, b: string)
    ensures Escape(a + b) == Escape(a) + Escape(b)
  {
    if a == [] {
      assert a + b == b;
    } else {
      assert (a + b)[0] == a[0] && (a + b)[1..] == a[1..] + b;
      EscapeConcat(a[1..], b);
    }
  }

  /** Sanitising distributes over concatenation. */
  lemma SanitizeConcat(a: string, b: string)
    ensures SanitizeInput(a + b) == SanitizeInput(a) + SanitizeInput(b)
  {
    SanitizeIsEscape(a);
    SanitizeIsEscape(b);
    SanitizeIsEscape(a + b);
    EscapeConcat(a, b);
  }

  /** Escaping never shortens, and keeps the length exactly when nothing needed escaping;
      text without markup characters comes back unchanged. */
  lemma SanitizeLength(s: string)
    ensures |SanitizeInput(s)| >= |s|
    ensures |SanitizeInput(s)| == |s| <==> NoSpecial(s)
    ensures NoSpecial(s) ==> SanitizeInput(s) == s
  {
    SanitizeIsEscape(s);
    EscapeLength(s);
    if NoSpecial(s) {
      EscapePlain(s);
    }
  }

  /** Nothing is lost: decoding the entities gives back the input, with every
      other character where it was. */
  lemma SanitizeRoundTrip(s: string)
    ensures Unescape(SanitizeInput(s)) == s
  {
    SanitizeIsEscape(s);
    UnescapeEscape(s);
  }

  /** The sanitised length, counted from the input: what the message length rule compares. */
  lemma SanitizeLengthCounts(t: string)
    ensures |SanitizeInput(t)| == EscapedLength(t)
  {
    SanitizeIsEscape(t);
    EscapeLengthCounts(t);
  }

  /** Different inputs give different outputs. */
  lemma SanitizeInjective(a: string, b: string)
    requires SanitizeInput(a) == SanitizeInput(b)
    ensures a == b
  {
    SanitizeRoundTrip(a);
    SanitizeRoundTrip(b);
  }

  lemma EscapeSingle(x: char)
    ensures Escape([x]) == EscapeChar(x)
  {
    assert [x][1..] == [];
  }

  /** A tag around plain text escapes to its entities around the same text. */
  lemma EscapeBracketed(inner: string)
    requires NoSpecial(inner)
    ensures Escape(['<'] + inner + ['>']) == "&lt;" + inner + "&gt;"
  {
    EscapeConcat(['<'] + inner, ['>']);
    EscapeConcat(['<'], inner);
    EscapeSingle('<');
    EscapeSingle('>');
    EscapePlain(inner);
  }

  /** An element whose name and body hold no special character comes out
      inert: both tags are escaped and the text between them is kept. */
  lemma EscapeElement(name: string, body: string)
    requires NoSpecial(name) && NoSpecial(body)
    ensures Escape(['<'] + name + ['>'] + body + (['<', '/'] + name + ['>']))
         == "&lt;" + name + "&gt;" + body + ("&lt;/" + name + "&gt;")
  {
    var open, closing := ['<'] + name + ['>'], ['/'] + name;
    var close := ['<'] + closing + ['>'];
    forall i | 0 <= i < |closing| ensures !IsSpecial(closing[i]) {
      if i > 0 {
        assert closing[i] == name[i - 1];
      }
    }
    assert ['<', '/'] + name + ['>'] == close;
    assert "&lt;" + closing + "&gt;" == "&lt;/" + name + "&gt;";
    EscapeBracketed(name);
    EscapeBracketed(closing);
    EscapePlain(body);
    calc {
      Escape(open + body + close);
      { EscapeConcat(open + body, close); }
      Escape(open + body) + Escape(close);
      { EscapeConcat(open, body); }
      Escape(open) + Escape(body) + Escape(close);
    }
  }

  /** Injected markup comes out inert. */
  lemma SanitizeScriptTag(s: string)
    requires s == "<script>alert(1)</script>"
    ensures SanitizeInput(s) == "&lt;script&gt;alert(1)&lt;/script&gt;"
  {
    SanitizeIsEscape(s);
    var name, body := ScriptTagParts(s);
    EscapeElement(name, body);
  }

  /** `<script>alert(1)</script>` as an element with a plain name and body. */
  lemma ScriptTagParts(s: string) returns (name: string, body: string)
    requires s == "<script>alert(1)</script>"
    ensures NoSpecial(name) && NoSpecial(body)
    ensures s == ['<'] + name + ['>'] + body + (['<', '/'] + name + ['>'])
    ensures "&lt;" + name + "&gt;" + body + ("&lt;/" + name + "&gt;") == "&lt;script&gt;alert(1)&lt;/script&gt;"
  {
    name, body := "script", "alert(1)";
    assert NoSpecial(name) && NoSpecial(body);
    ScriptTagRaw(s, ['<'] + name + ['>'], body, ['<', '/'] + name + ['>']);
    ScriptTagEscaped("&lt;" + name + "&gt;", body, "&lt;/" + name + "&gt;");
  }

  lemma ScriptTagRaw(s: string, open: string, body: string, close: string)
    requires s == "<script>alert(1)</script>" && open == "<script>" && body == "alert(1)" && close == "</script>"
    ensures s == open + body + close
  {
  }

  lemma ScriptTagEscaped(open: string, body: string, close: string)
    requires open == "&lt;script&gt;" && body == "alert(1)" && close == "&lt;/script&gt;"
    ensures open + body + close == "&lt;script&gt;alert(1)&lt;/script&gt;"
  {
  }

  lemma EscapeAmpersandEntity(s: string)
    requires s == "&amp;"
    ensures Escape(s) == "&amp;amp;"
  {
    assert Escape("&amp;") == "&amp;amp;";
  }

  lemma SanitizeEntityAgain(s: string)
    requires s == "&amp;"
    ensures SanitizeInput(s) == "&amp;amp;"
  {
    ReplaceChainIsEscape(s);
    EscapeAmpersandEntity(s);
  }

  /** A second pass escapes the ampersands of the first. */
  lemma SanitizeTwiceAmpersand(s: string)
    requires s == "&"
    ensures SanitizeInput(s) == "&amp;"
    ensures SanitizeInput(SanitizeInput(s)) == "&amp;amp;"
  {
    ReplaceChainAmpersand();
    SanitizeEntityAgain(SanitizeInput(s));
  }
}
