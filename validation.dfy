/** The decision the contact form's submit handler takes: which error slots
    get a message, whether the consent alert is raised, and whether the
    submission goes ahead. */
module Validation {

  import opened Optional
  import opened Text
  import opened Sanitize

  const MsgNome := "Informe seu nome."
  const MsgEmail := "Informe um e-mail v\U{E1}lido."
  const MsgAssunto := "Informe o assunto."
  const MsgMensagem := "A mensagem deve ter ao menos 10 caracteres."
  const ConsentAlert := "\U{C9} necess\U{E1}rio autorizar o uso dos dados para contato."
  const StatusErrors := "Erros encontrados no formul\U{E1}rio. Verifique os campos."
  const StatusSending := "Enviando..."

  /** The sanitised message must be at least this long. */
  const MinMessageLength := 10

  /** The four fields with an error element (`erro-nome`, `erro-email`,
      `erro-assunto`, `erro-mensagem`). */
  datatype Field = Nome | Email | Assunto | Mensagem

  /** The order in which the handler clears the error elements. */
  const ErrorFields: seq<Field> := [Nome, Email, Assunto, Mensagem]

  /** The raw values of the form's controls when it is submitted; `consent`
      is the checkbox's `checked` (a missing checkbox reads as unchecked). */
  datatype Submission = Submission(nome: string, email: string, assunto: string, mensagem: string, consent: bool)

  /** What one submit decides: a message per error slot, or none, and the
      overall `ok` flag. */
  datatype Verdict = Verdict(
    erroNome: Option<string>, erroEmail: Option<string>,
    erroAssunto: Option<string>, erroMensagem: Option<string>,
    ok: bool)

  // ---------------------------------------------------------------------------
  // The e-mail pattern.

  /** `[^\s@]` */
  predicate EmailChar(c: char) {
    !IsSpace(c) && c != '@'
  }

  predicate EmailChars(s: string) {
    forall i :: 0 <= i < |s| ==> EmailChar(s[i])
  }

  /** `/^[^\s@]+@[^\s@]+\.[^\s@]+$/.test(e)`: some `@` and some later `.` cut
      `e` into three non-empty runs of characters that are neither
      whitespace nor `@`. */
  predicate MatchesEmailPattern(e: string) {
    exists at, dot | 0 < at < |e| && at + 1 < dot < |e| - 1 ::
      e[at] == '@' && e[dot] == '.'
      && EmailChars(e[..at]) && EmailChars(e[at + 1..dot]) && EmailChars(e[dot + 1..])
  }

  /** The first position of `c` in `s`. */
  function IndexOf(s: string, c: char): (i: nat)
    requires c in s
    ensures i < |s| && s[i] == c && c !in s[..i]
  {
    if s[0] == c then 0
    else
      assert c in s[1..];
      var i := IndexOf(s[1..], c);
      assert s[..i + 1] == [s[0]] + s[1..][..i];
      i + 1
  }

  /** The shape the pattern accepts, part by part: exactly one `@`; before it
      a non-empty run without whitespace; after it no whitespace and a `.`
      with text on both sides. */
  predicate EmailShape(e: string) {
    Count(e, '@') == 1
    && var at := IndexOf(e, '@');
    var local, domain := e[..at], e[at + 1..];
    local != [] && NoSpace(local) && NoSpace(domain)
    && exists k :: 0 < k < |domain| - 1 && domain[k] == '.'
  }

  /** `c` occurs once in `s`, at `at`, exactly when no other position holds it. */
  lemma CountOnce(s: string, c: char, at: nat)
    requires at < |s| && s[at] == c
    ensures Count(s, c) == 1 <==> forall j :: 0 <= j < |s| && j != at ==> s[j] != c
  {
    assert s == s[..at] + [c] + s[at + 1..];
    CountConcat(s[..at] + [c], s[at + 1..], c);
    CountConcat(s[..at], [c], c);
    assert Count([c], c) == 1;
    if Count(s, c) == 1 {
      forall j | 0 <= j < |s| && j != at ensures s[j] != c {
        if j < at {
          assert s[j] == s[..at][j];
        } else {
          assert s[j] == s[at + 1..][j - at - 1];
        }
      }
    }
    if forall j :: 0 <= j < |s| && j != at ==> s[j] != c {
      assert c !in s[..at] by {
        forall j | 0 <= j < at ensures s[..at][j] != c { assert s[..at][j] == s[j]; }
      }
      var t := s[at + 1..];
      assert c !in t by {
        forall j | 0 <= j < |t| ensures t[j] != c { assert t[j] == s[at + 1 + j]; }
      }
    }
  }

  lemma PatternGivesShape(e: string, at: nat, dot: nat)
    requires 0 < at < |e| && at + 1 < dot < |e| - 1
    requires e[at] == '@' && e[dot] == '.'
    requires EmailChars(e[..at]) && EmailChars(e[at + 1..dot]) && EmailChars(e[dot + 1..])
    ensures EmailShape(e)
  {
    forall j | 0 <= j < |e| && j != at ensures e[j] != '@' && !IsSpace(e[j]) {
      if j < at {
        assert e[j] == e[..at][j];
      } else if j < dot {
        assert e[j] == e[at + 1..dot][j - at - 1];
      } else if j > dot {
        assert e[j] == e[dot + 1..][j - dot - 1];
      }
    }
    CountOnce(e, '@', at);
    var i := IndexOf(e, '@');
    assert i == at;
    var local, domain := e[..at], e[at + 1..];
    assert NoSpace(local);
    assert NoSpace(domain) by {
      forall j | 0 <= j < |domain| ensures !IsSpace(domain[j]) { assert domain[j] == e[at + 1 + j]; }
    }
    var k := dot - at - 1;
    assert 0 < k < |domain| - 1 && domain[k] == '.';
  }

  lemma ShapeGivesPattern(e: string)
    requires EmailShape(e)
    ensures MatchesEmailPattern(e)
  {
    var at := IndexOf(e, '@');
    var local, domain := e[..at], e[at + 1..];
    CountOnce(e, '@', at);
    var k :| 0 < k < |domain| - 1 && domain[k] == '.';
    var dot := at + 1 + k;
    assert e[dot] == '.';
    assert EmailChars(e[..at]) by {
      forall j | 0 <= j < at ensures EmailChar(e[..at][j]) { assert e[..at][j] == e[j]; }
    }
    var host := e[at + 1..dot];
    assert EmailChars(host) by {
      forall j | 0 <= j < |host| ensures EmailChar(host[j]) {
        assert host[j] == e[at + 1 + j] == domain[j];
      }
    }
    var tld := e[dot + 1..];
    assert EmailChars(tld) by {
      forall j | 0 <= j < |tld| ensures EmailChar(tld[j]) {
        assert tld[j] == e[dot + 1 + j] == domain[k + 1 + j];
      }
    }
  }

  /** The pattern accepts exactly the addresses of the shape above. */
  lemma EmailPatternIffShape(e: string)
    ensures MatchesEmailPattern(e) <==> EmailShape(e)
  {
    if MatchesEmailPattern(e) {
      var at, dot :| 0 < at < |e| && at + 1 < dot < |e| - 1
        && e[at] == '@' && e[dot] == '.'
        && EmailChars(e[..at]) && EmailChars(e[at + 1..dot]) && EmailChars(e[dot + 1..]);
      PatternGivesShape(e, at, dot);
    }
    if EmailShape(e) {
      ShapeGivesPattern(e);
    }
  }

  // ---------------------------------------------------------------------------
  // Escaping does not change what the e-mail pattern accepts.

  /** An address cut at its `@` and at a later `.` into three runs. */
  lemma PatternOfParts(l: string, h: string, t: string)
    requires l != [] && h != [] && t != []
    requires EmailChars(l) && EmailChars(h) && EmailChars(t)
    ensures MatchesEmailPattern(l + "@" + h + "." + t)
  {
    var e := l + "@" + h + "." + t;
    var at, dot := |l|, |l| + 1 + |h|;
    assert e[..at] == l && e[at + 1..dot] == h && e[dot + 1..] == t;
    assert e[at] == '@' && e[dot] == '.';
  }

  /** The `@` and `.` positions at which the pattern splits a matching address. */
  lemma PatternWitness(e: string) returns (at: nat, dot: nat)
    requires MatchesEmailPattern(e)
    ensures 0 < at < |e| && at + 1 < dot < |e| - 1 && e[at] == '@' && e[dot] == '.'
    ensures EmailChars(e[..at]) && EmailChars(e[at + 1..dot]) && EmailChars(e[dot + 1..])
  {
    at, dot :| 0 < at < |e| && at + 1 < dot < |e| - 1
      && e[at] == '@' && e[dot] == '.'
      && EmailChars(e[..at]) && EmailChars(e[at + 1..dot]) && EmailChars(e[dot + 1..]);
  }

  lemma PartsOfPattern(e: string) returns (l: string, h: string, t: string)
    requires MatchesEmailPattern(e)
    ensures e == l + "@" + h + "." + t
    ensures l != [] && h != [] && t != [] && EmailChars(l) && EmailChars(h) && EmailChars(t)
  {
    var at, dot := PatternWitness(e);
    l, h, t := PartsAt(e, at, dot);
  }

  /** The three parts of an address cut at `at` and `dot`. */
  lemma PartsAt(e: string, at: nat, dot: nat) returns (l: string, h: string, t: string)
    requires 0 < at < |e| && at + 1 < dot < |e| - 1 && e[at] == '@' && e[dot] == '.'
    requires EmailChars(e[..at]) && EmailChars(e[at + 1..dot]) && EmailChars(e[dot + 1..])
    ensures e == l + "@" + h + "." + t
    ensures l != [] && h != [] && t != [] && EmailChars(l) && EmailChars(h) && EmailChars(t)
  {
    l, h, t := e[..at], e[at + 1..dot], e[dot + 1..];
    var rest := e[at + 1..];
    CutAt(e, at);
    CutAt(rest, dot - at - 1);
    SuffixSlices(e, at, dot);
    Regroup(e, l, h, t);
  }

  /** A sequence cut around its `k`th element. */
  lemma CutAt(e: string, k: nat)
    requires k < |e|
    ensures e == e[..k] + [e[k]] + e[k + 1..]
  {
  }

  /** The slices of `e[at + 1..]` around its element at `dot`. */
  lemma SuffixSlices(e: string, at: nat, dot: nat)
    requires at < dot < |e|
    ensures e[at + 1..][..dot - at - 1] == e[at + 1..dot]
    ensures e[at + 1..][dot - at - 1] == e[dot]
    ensures e[at + 1..][dot - at..] == e[dot + 1..]
  {
  }

  lemma EmailCharsConcat(a: string, b: string)
    ensures EmailChars(a + b) <==> EmailChars(a) && EmailChars(b)
  {
    if EmailChars(a) && EmailChars(b) {
      forall i | 0 <= i < |a + b| ensures EmailChar((a + b)[i]) {
        if i >= |a| { assert (a + b)[i] == b[i - |a|]; }
      }
    }
    if EmailChars(a + b) {
      forall i | 0 <= i < |b| ensures EmailChar(b[i]) { assert b[i] == (a + b)[|a| + i]; }
      forall i | 0 <= i < |a| ensures EmailChar(a[i]) { assert a[i] == (a + b)[i]; }
    }
  }

  /** Entities contain neither whitespace nor `@`, `.` or any character
      other than their own special one when that is kept. */
  lemma EscapeCharEmail(x: char)
    ensures EmailChars(EscapeChar(x)) <==> EmailChar(x)
    ensures '@' in EscapeChar(x) <==> x == '@'
    ensures '.' in EscapeChar(x) <==> x == '.'
  {
    var r := EscapeChar(x);
    if IsSpecial(x) {
      assert r[0] == '&' && r[|r| - 1] == ';';
      forall k | 0 <= k < |r| ensures EmailChar(r[k]) && r[k] != '.' {
        if x == '&' {
          assert r == "&amp;";
        } else if x == '<' {
          assert r == "&lt;";
        } else if x == '>' {
          assert r == "&gt;";
        } else if x == '"' {
          assert r == "&quot;";
        } else {
          assert r == "&#039;";
        }
      }
    } else {
      assert r == [x];
      assert EmailChars(r) <==> EmailChar(r[0]);
    }
  }

  lemma {:induction false} EmailCharsEscape(s: string)
    ensures EmailChars(Escape(s)) <==> EmailChars(s)
  {
    if s != [] {
      EmailCharsEscape(s[1..]);
      EmailCharsConcat(EscapeChar(s[0]), Escape(s[1..]));
      EmailCharsConcat([s[0]], s[1..]);
      assert s == [s[0]] + s[1..];
      EscapeCharEmail(s[0]);
    }
  }

  /** A character found inside the first part `h` of `h + rest`. */
  lemma SplitInHead(h: string, rest: string, a: string, b: string, c: char)
    requires h + rest == a + [c] + b && |a| < |h|
    ensures h[|a|] == c
  {
    assert h[|a|] == (h + rest)[|a|];
  }

  lemma SplitOfSingle(rest: string, a: string, b: string, c: char)
    requires [c] + rest == a + [c] + b && |a| < 1
    ensures a == [] && rest == b
  {
    assert b == (a + [c] + b)[1..];
  }

  /** A character found after the first part `h` of `h + rest`. */
  lemma SplitAfterHead(h: string, rest: string, a: string, b: string, c: char)
    requires h + rest == a + [c] + b && |a| >= |h|
    ensures a == h + a[|h|..] && rest == a[|h|..] + [c] + b
  {
    assert a[..|h|] == (a + [c] + b)[..|h|] == (h + rest)[..|h|];
    assert a == a[..|h|] + a[|h|..];
    assert rest == (h + rest)[|h|..] == (a + [c] + b)[|h|..];
  }

  /** An `@` or `.` of the escaped text comes from the same character of the
      raw text, and escaping the two sides of it gives the two sides of the
      escaped text. */
  lemma {:induction false} SplitEscaped(e: string, a: string, b: string, c: char) returns (i: nat)
    requires c == '@' || c == '.'
    requires Escape(e) == a + [c] + b
    ensures i < |e| && e[i] == c && Escape(e[..i]) == a && Escape(e[i + 1..]) == b
    decreases |e|
  {
    assert e != [];
    var x := e[0];
    var h := EscapeChar(x);
    var rest := Escape(e[1..]);
    assert h + rest == a + [c] + b;
    if |a| < |h| {
      SplitInHead(h, rest, a, b, c);
      EscapeCharEmail(x);
      assert x == c && h == [c];
      SplitOfSingle(rest, a, b, c);
      i := 0;
    } else {
      SplitAfterHead(h, rest, a, b, c);
      var i' := SplitEscaped(e[1..], a[|h|..], b, c);
      i := i' + 1;
      TailSlices(e, i');
      EscapeConcat([x], e[1..][..i']);
    }
  }

  /** The slices of `e` around `i + 1` in terms of those of `e[1..]` around `i`. */
  lemma TailSlices(e: string, i: nat)
    requires i + 1 < |e|
    ensures e[..i + 1] == [e[0]] + e[1..][..i]
    ensures e[i + 2..] == e[1..][i + 1..]
  {
  }

  lemma EscapedPattern(e: string)
    requires MatchesEmailPattern(e)
    ensures MatchesEmailPattern(Escape(e))
  {
    var l, h, t := PartsOfPattern(e);
    EscapeParts(l, h, t);
    EscapeLength(l);
    EscapeLength(h);
    EscapeLength(t);
    EmailCharsEscape(l);
    EmailCharsEscape(h);
    EmailCharsEscape(t);
    PatternOfParts(Escape(l), Escape(h), Escape(t));
  }

  /** Escaping an address part by part. */
  lemma EscapeParts(l: string, h: string, t: string)
    ensures Escape(l + "@" + h + "." + t) == Escape(l) + "@" + Escape(h) + "." + Escape(t)
  {
    EscapeConcat(l + "@" + h + ".", t);
    EscapeConcat(l + "@" + h, ".");
    EscapeConcat(l + "@", h);
    EscapeConcat(l, "@");
    assert Escape("@") == "@" && Escape(".") == ".";
  }

  /** SplitEscaped, as the two raw sides of the character. */
  lemma CutEscaped(e: string, a: string, b: string, c: char) returns (x: string, y: string)
    requires c == '@' || c == '.'
    requires Escape(e) == a + [c] + b
    ensures e == x + [c] + y && Escape(x) == a && Escape(y) == b
  {
    var i := SplitEscaped(e, a, b, c);
    x, y := e[..i], e[i + 1..];
    assert e == e[..i] + [e[i]] + e[i + 1..];
  }

  lemma Regroup(e: string, l: string, h: string, t: string)
    requires e == l + ['@'] + (h + ['.'] + t)
    ensures e == l + "@" + h + "." + t
  {
  }

  /** The raw address behind an escaped one cut at its `@` and `.`. */
  lemma UnescapeParts(e: string, l': string, h': string, t': string) returns (l: string, h: string, t: string)
    requires Escape(e) == l' + "@" + h' + "." + t'
    ensures e == l + "@" + h + "." + t
    ensures Escape(l) == l' && Escape(h) == h' && Escape(t) == t'
  {
    assert Escape(e) == l' + ['@'] + (h' + "." + t');
    var rest;
    l, rest := CutEscaped(e, l', h' + "." + t', '@');
    assert h' + "." + t' == h' + ['.'] + t';
    h, t := CutEscaped(rest, h', t', '.');
    Regroup(e, l, h, t);
  }

  lemma UnescapedPattern(e: string)
    requires MatchesEmailPattern(Escape(e))
    ensures MatchesEmailPattern(e)
  {
    var l', h', t' := PartsOfPattern(Escape(e));
    var l, h, t := UnescapeParts(e, l', h', t');
    assert l != [] && h != [] && t != [];
    EmailCharsEscape(l);
    EmailCharsEscape(h);
    EmailCharsEscape(t);
    PatternOfParts(l, h, t);
  }

  /** The pattern accepts an address exactly when it accepts its escaped
      form, so testing the e-mail before or after `sanitizeInput` gives the
      same verdict. */
  lemma EscapingKeepsEmailVerdict(e: string)
    ensures MatchesEmailPattern(SanitizeInput(e)) <==> MatchesEmailPattern(e)
  {
    SanitizeIsEscape(e);
    if MatchesEmailPattern(e) {
      EscapedPattern(e);
    }
    if MatchesEmailPattern(Escape(e)) {
      UnescapedPattern(e);
    }
  }

  // ---------------------------------------------------------------------------
  // The decision.

  /** The submit handler's checks on the trimmed fields. Name, subject and
      message are trimmed and then sanitised before they are checked; the
      e-mail is only trimmed. Each slot holds its message exactly when its own
      check fails; a missing consent clears `ok` and fills no slot. */
  function Decide(s: Submission): (v: Verdict)
    ensures v.erroNome == (if AllSpace(s.nome) then Some(MsgNome) else None)
    ensures v.erroEmail == (if EmailShape(Trim(s.email)) then None else Some(MsgEmail))
    ensures v.erroAssunto == (if AllSpace(s.assunto) then Some(MsgAssunto) else None)
    ensures v.erroMensagem == (if EscapedLength(Trim(s.mensagem)) < MinMessageLength then Some(MsgMensagem) else None)
    ensures v.ok <==> v.erroNome == None && v.erroEmail == None && v.erroAssunto == None
                      && v.erroMensagem == None && s.consent
  {
    var nome := SanitizeInput(Trim(s.nome));
    var email := Trim(s.email);
    var assunto := SanitizeInput(Trim(s.assunto));
    var mensagem := SanitizeInput(Trim(s.mensagem));
    TrimEmptyIff(s.nome);
    SanitizeEmptyIff(Trim(s.nome));
    TrimEmptyIff(s.assunto);
    SanitizeEmptyIff(Trim(s.assunto));
    EmailPatternIffShape(email);
    SanitizeLengthCounts(Trim(s.mensagem));
    var nomeOk := nome != [];
    var emailOk := MatchesEmailPattern(email);
    var assuntoOk := assunto != [];
    var mensagemOk := |mensagem| >= MinMessageLength;
    Verdict(
      if nomeOk then None else Some(MsgNome),
      if emailOk then None else Some(MsgEmail),
      if assuntoOk then None else Some(MsgAssunto),
      if mensagemOk then None else Some(MsgMensagem),
      nomeOk && emailOk && assuntoOk && mensagemOk && s.consent)
  }

  /** Decide's verdict once the handler's four tests are known. */
  lemma DecideByHandler(s: Submission, nomeOk: bool, emailOk: bool, assuntoOk: bool, mensagemOk: bool)
    requires nomeOk == (SanitizeInput(Trim(s.nome)) != []) && emailOk == MatchesEmailPattern(Trim(s.email))
    requires assuntoOk == (SanitizeInput(Trim(s.assunto)) != [])
    requires mensagemOk == (|SanitizeInput(Trim(s.mensagem))| >= MinMessageLength)
    ensures Decide(s) == Verdict(
      if nomeOk then None else Some(MsgNome), if emailOk then None else Some(MsgEmail),
      if assuntoOk then None else Some(MsgAssunto), if mensagemOk then None else Some(MsgMensagem),
      nomeOk && emailOk && assuntoOk && mensagemOk && s.consent)
  {
    TrimEmptyIff(s.nome);
    SanitizeEmptyIff(Trim(s.nome));
    TrimEmptyIff(s.assunto);
    SanitizeEmptyIff(Trim(s.assunto));
    EmailPatternIffShape(Trim(s.email));
    SanitizeLengthCounts(Trim(s.mensagem));
  }

  /** The consent checkbox only gates `ok`: it fills no error slot. */
  lemma ConsentFillsNoSlot(s: Submission, consent: bool)
    ensures var v, w := Decide(s), Decide(s.(consent := consent));
      w.erroNome == v.erroNome && w.erroEmail == v.erroEmail
      && w.erroAssunto == v.erroAssunto && w.erroMensagem == v.erroMensagem
      && (w.ok <==> v.erroNome == None && v.erroEmail == None && v.erroAssunto == None
                    && v.erroMensagem == None && consent)
  {
  }

  // ---------------------------------------------------------------------------
  // Sample submissions.

  lemma SampleEmail(e: string)
    requires e == "a@b.co"
    ensures Trim(e) == e && EmailShape(e)
  {
    assert e[..1] == "a" && e[2..3] == "b" && e[4..] == "co";
    PatternGivesShape(e, 1, 3);
    assert !IsSpace(e[0]) && !IsSpace(e[5]);
    TrimFixes(e);
  }

  /** An address without `@` is refused. */
  lemma NotAnEmail(e: string)
    requires e == "not-an-email"
    ensures Trim(e) == e && !EmailShape(e) && !MatchesEmailPattern(e)
  {
    NotAnEmailTrim(e);
    NotAnEmailNoAt(e);
    NoAtNoEmail(e);
  }

  lemma NotAnEmailTrim(e: string)
    requires e == "not-an-email"
    ensures Trim(e) == e
  {
    assert !IsSpace(e[0]) && !IsSpace(e[11]);
    TrimFixes(e);
  }

  lemma NotAnEmailNoAt(e: string)
    requires e == "not-an-email"
    ensures '@' !in e
  {
  }

  /** Text without an at sign is no address. */
  lemma NoAtNoEmail(e: string)
    requires '@' !in e
    ensures !EmailShape(e) && !MatchesEmailPattern(e)
  {
    EmailPatternIffShape(e);
  }

  /** Text without the five special characters keeps its length when escaped. */
  lemma PlainEscapedLength(t: string)
    requires '&' !in t && '<' !in t && '>' !in t && '"' !in t && '\'' !in t
    ensures EscapedLength(t) == |t|
  {
  }

  lemma SampleMessageTrim(m: string)
    requires m == "0123456789"
    ensures Trim(m) == m
  {
    assert !IsSpace(m[0]) && !IsSpace(m[9]);
    TrimFixes(m);
  }

  lemma SampleMessagePlain(m: string)
    requires m == "0123456789"
    ensures '&' !in m && '<' !in m && '>' !in m && '"' !in m && '\'' !in m
  {
  }

  lemma SampleMessage(m: string)
    requires m == "0123456789"
    ensures EscapedLength(Trim(m)) == 10
  {
    SampleMessageTrim(m);
    SampleMessagePlain(m);
    PlainEscapedLength(m);
  }

  lemma ShortMessageTrim(m: string)
    requires m == "short"
    ensures Trim(m) == m
  {
    assert !IsSpace(m[0]) && !IsSpace(m[4]);
    TrimFixes(m);
  }

  lemma ShortMessagePlain(m: string)
    requires m == "short"
    ensures '&' !in m && '<' !in m && '>' !in m && '"' !in m && '\'' !in m
  {
  }

  lemma ShortMessage(m: string)
    requires m == "short"
    ensures EscapedLength(Trim(m)) == 5
  {
    ShortMessageTrim(m);
    ShortMessagePlain(m);
    PlainEscapedLength(m);
  }

  lemma MarkupTrim(m: string)
    requires m == "<<<"
    ensures Trim(m) == m
  {
    assert !IsSpace(m[0]) && !IsSpace(m[2]);
    TrimFixes(m);
  }

  lemma MarkupCounts(m: string)
    requires m == "<<<"
    ensures EscapedLength(m) == 12
  {
    assert m[1..] == "<<" && m[2..] == "<";
    assert Count(m, '<') == 3;
    assert '&' !in m && '>' !in m && '"' !in m && '\'' !in m;
  }

  /** Three raw characters pass the length rule once each became `&lt;`. */
  lemma MarkupMessage(m: string)
    requires m == "<<<"
    ensures |m| < MinMessageLength && EscapedLength(Trim(m)) == 12
  {
    MarkupTrim(m);
    MarkupCounts(m);
  }

  lemma NotBlank(t: string)
    requires t != [] && !IsSpace(t[0])
    ensures !AllSpace(t)
  {
  }

  /** The sample name and subject are not blank. */
  lemma SampleNameAndSubject(n: string, a: string)
    requires n == "Ana" && a == "Hi"
    ensures !AllSpace(n) && !AllSpace(a)
  {
    NotBlank(n);
    SampleSubject(a);
  }

  lemma SampleSubject(a: string)
    requires a == "Hi"
    ensures !AllSpace(a)
  {
    NotBlank(a);
  }

  /** Decide's verdict once the four checks are known. */
  lemma DecideFromChecks(s: Submission, nomeBlank: bool, emailOk: bool, assuntoBlank: bool, length: nat)
    requires nomeBlank == AllSpace(s.nome) && emailOk == EmailShape(Trim(s.email))
    requires assuntoBlank == AllSpace(s.assunto) && length == EscapedLength(Trim(s.mensagem))
    ensures Decide(s) == Verdict(
      if nomeBlank then Some(MsgNome) else None, if emailOk then None else Some(MsgEmail),
      if assuntoBlank then Some(MsgAssunto) else None,
      if length < MinMessageLength then Some(MsgMensagem) else None,
      !nomeBlank && emailOk && !assuntoBlank && length >= MinMessageLength && s.consent)
  {
  }

  lemma MissingNameSample(s: Submission)
    requires s == Submission("", "a@b.co", "Hi", "0123456789", true)
    ensures Decide(s) == Verdict(Some(MsgNome), None, None, None, false)
  {
    SampleEmail(s.email);
    SampleSubject(s.assunto);
    SampleMessage(s.mensagem);
    DecideFromChecks(s, true, true, false, 10);
  }

  lemma BadEmailSample(s: Submission)
    requires s == Submission("Ana", "not-an-email", "Hi", "0123456789", true)
    ensures Decide(s) == Verdict(None, Some(MsgEmail), None, None, false)
  {
    SampleNameAndSubject(s.nome, s.assunto);
    NotAnEmail(s.email);
    SampleMessage(s.mensagem);
    DecideFromChecks(s, false, false, false, 10);
  }

  lemma ShortMessageSample(s: Submission)
    requires s == Submission("Ana", "a@b.co", "Hi", "short", true)
    ensures Decide(s) == Verdict(None, None, None, Some(MsgMensagem), false)
  {
    SampleNameAndSubject(s.nome, s.assunto);
    SampleEmail(s.email);
    ShortMessage(s.mensagem);
    DecideFromChecks(s, false, true, false, 5);
  }

  lemma NoConsentSample(s: Submission)
    requires s == Submission("Ana", "a@b.co", "Hi", "0123456789", false)
    ensures Decide(s) == Verdict(None, None, None, None, false)
  {
    SampleNameAndSubject(s.nome, s.assunto);
    SampleEmail(s.email);
    SampleMessage(s.mensagem);
    DecideFromChecks(s, false, true, false, 10);
  }

  lemma AcceptedSample(s: Submission)
    requires s == Submission("Ana", "a@b.co", "Hi", "0123456789", true)
    ensures Decide(s) == Verdict(None, None, None, None, true)
  {
    SampleNameAndSubject(s.nome, s.assunto);
    SampleEmail(s.email);
    SampleMessage(s.mensagem);
    DecideFromChecks(s, false, true, false, 10);
  }

  /** A message of three `<` is accepted although it is three characters long. */
  lemma MarkupMessageSample(s: Submission)
    requires s == Submission("Ana", "a@b.co", "Hi", "<<<", true)
    ensures |s.mensagem| < MinMessageLength && Decide(s) == Verdict(None, None, None, None, true)
  {
    SampleNameAndSubject(s.nome, s.assunto);
    SampleEmail(s.email);
    MarkupMessage(s.mensagem);
    DecideFromChecks(s, false, true, false, 12);
  }

  /** What an error element shows for a slot: its message, or nothing. */
  function SlotText(slot: Option<string>): string {
    match slot
    case None => ""
    case Some(msg) => msg
  }

  /** The verdict that leaves every error element empty. */
  const NoErrors := Verdict(None, None, None, None, true)

  /** The form's error elements, status line and consent alert as the
      submit handler leaves them. */
  class ContactForm {
    /** `textContent` of `erro-nome`, `erro-email`, `erro-assunto`, `erro-mensagem`. */
    var errorText: map<Field, string>
    /** `textContent` of the `status` element. */
    var status: string

    ghost predicate Valid()
      reads this
    {
      Nome in errorText && Email in errorText && Assunto in errorText && Mensagem in errorText
    }

    /** The four error elements show the slots of verdict `v`. */
    ghost predicate Shows(v: Verdict)
      reads this
    {
      Valid()
      && errorText[Nome] == SlotText(v.erroNome) && errorText[Email] == SlotText(v.erroEmail)
      && errorText[Assunto] == SlotText(v.erroAssunto) && errorText[Mensagem] == SlotText(v.erroMensagem)
    }

    /** The elements hold whatever the page markup put in them until the
        first submit writes to them. */
    constructor (nome: string, email: string, assunto: string, mensagem: string, initialStatus: string)
      ensures Valid() && status == initialStatus
      ensures errorText == map[Nome := nome, Email := email, Assunto := assunto, Mensagem := mensagem]
    {
      errorText := map[Nome := nome, Email := email, Assunto := assunto, Mensagem := mensagem];
      status := initialStatus;
    }

    /** The `forEach` that empties the four error elements before any check. */
    method ClearErrors()
      requires Valid()
      modifies this`errorText
      ensures Valid()
      ensures Shows(NoErrors)
    {
      for i := 0 to |ErrorFields|
        invariant Valid()
        invariant forall j :: 0 <= j < i ==> errorText[ErrorFields[j]] == ""
      {
        errorText := errorText[ErrorFields[i] := ""];
      }
      assert errorText[ErrorFields[0]] == "" && errorText[ErrorFields[1]] == "";
      assert errorText[ErrorFields[2]] == "" && errorText[ErrorFields[3]] == "";
    }

    /** The submit handler up to the simulated sending: clear the four error
        elements, run the checks, raise the consent alert, set the status. */
    method Submit(s: Submission) returns (ok: bool, alert: Option<string>)
      requires Valid()
      modifies this
      ensures Valid()
      ensures ok == Decide(s).ok
      ensures Shows(Decide(s))
      ensures alert == (if s.consent then None else Some(ConsentAlert))
      ensures status == (if ok then StatusSending else StatusErrors)
    {
      var nomeOk, emailOk, assuntoOk, mensagemOk := CheckFields(s);
      ok, alert := Report(nomeOk, emailOk, assuntoOk, mensagemOk, s.consent);
    }

    /** Everything the handler does once the four checks are known: show the
        failed checks' messages, raise the alert without consent, and set the
        status line. */
    method Report(nomeOk: bool, emailOk: bool, assuntoOk: bool, mensagemOk: bool, consent: bool)
      returns (ok: bool, alert: Option<string>)
      requires Valid()
      modifies this`errorText, this`status
      ensures ok == (nomeOk && emailOk && assuntoOk && mensagemOk && consent)
      ensures Shows(Verdict(if nomeOk then None else Some(MsgNome), if emailOk then None else Some(MsgEmail),
                            if assuntoOk then None else Some(MsgAssunto), if mensagemOk then None else Some(MsgMensagem), ok))
      ensures alert == (if consent then None else Some(ConsentAlert))
      ensures status == (if ok then StatusSending else StatusErrors)
    {
      ok := ShowErrors(nomeOk, emailOk, assuntoOk, mensagemOk);
      ok, alert := CheckConsent(ok, consent);
      ShowStatus(ok);
    }

    /** Trim and sanitise the four fields and run their checks; the results
        are the verdict's slots, and with consent its `ok`. */
    static method CheckFields(s: Submission) returns (nomeOk: bool, emailOk: bool, assuntoOk: bool, mensagemOk: bool)
      ensures Decide(s) == Verdict(
        if nomeOk then None else Some(MsgNome), if emailOk then None else Some(MsgEmail),
        if assuntoOk then None else Some(MsgAssunto), if mensagemOk then None else Some(MsgMensagem),
        nomeOk && emailOk && assuntoOk && mensagemOk && s.consent)
    {
      var nome := SanitizeInput(Trim(s.nome));
      var email := Trim(s.email);
      var assunto := SanitizeInput(Trim(s.assunto));
      var mensagem := SanitizeInput(Trim(s.mensagem));
      nomeOk, emailOk := nome != [], MatchesEmailPattern(email);
      assuntoOk, mensagemOk := assunto != [], |mensagem| >= MinMessageLength;
      DecideByHandler(s, nomeOk, emailOk, assuntoOk, mensagemOk);
    }

    /** Empty the four error elements, then fill those whose check failed. */
    method ShowErrors(nomeOk: bool, emailOk: bool, assuntoOk: bool, mensagemOk: bool) returns (ok: bool)
      requires Valid()
      modifies this`errorText
      ensures ok == (nomeOk && emailOk && assuntoOk && mensagemOk)
      ensures Shows(Verdict(if nomeOk then None else Some(MsgNome), if emailOk then None else Some(MsgEmail),
                            if assuntoOk then None else Some(MsgAssunto), if mensagemOk then None else Some(MsgMensagem), ok))
    {
      ok := true;
      ClearErrors();
      var texts := errorText;
      if !nomeOk {
        texts := texts[Nome := MsgNome];
        ok := false;
      }
      if !emailOk {
        texts := texts[Email := MsgEmail];
        ok := false;
      }
      if !assuntoOk {
        texts := texts[Assunto := MsgAssunto];
        ok := false;
      }
      if !mensagemOk {
        texts := texts[Mensagem := MsgMensagem];
        ok := false;
      }
      errorText := texts;
    }

    /** The consent check: an alert, and the submission is refused. */
    static method CheckConsent(ok: bool, consent: bool) returns (ok': bool, alert: Option<string>)
      ensures ok' == (ok && consent)
      ensures alert == (if consent then None else Some(ConsentAlert))
    {
      ok', alert := ok, None;
      if !consent {
        alert := Some(ConsentAlert);
        ok' := false;
      }
    }

    /** The `status` text after the checks. */
    method ShowStatus(ok: bool)
      modifies this`status
      ensures status == (if ok then StatusSending else StatusErrors)
    {
      if !ok {
        status := StatusErrors;
      } else {
        status := StatusSending;
      }
    }
  }
}
