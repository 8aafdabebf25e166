# EcoTech contact page script, modelled in Dafny

This project models the logic in the EcoTech site's page script,
`ecotech/script.js`. The model has four parts:

- **Escaping** (`sanitize.dfy`, module `Sanitize`). `sanitizeInput` escapes
  user text for HTML with five global `replace` calls, `&` first. The model
  states these five passes as written. It proves they equal one per-character
  substitution, `Escape`. From that it proves:
  - the output is escaped: no raw `<`, `>`, `"` or `'` is left, and every `&`
    starts one of the five entities;
  - escaping distributes over concatenation;
  - the length grows by a fixed amount per special character;
  - an unescaping function inverts it;
  - the result is not idempotent on text with markup characters.
  The last point matters because the input listener re-sanitises the whole
  field on every keystroke: `"&"` typed into a field becomes `"&amp;"` and
  then `"&amp;amp;"` (`SanitizeTwiceAmpersand`).
- **The submit handler** (`validation.dfy`, module `Validation`). `Decide`
  computes the verdict of one submission as a pure function:
  - one optional message for each of the four error elements, set exactly
    when that element's own check fails;
  - the `ok` flag.
  It works on the raw field values. Name, subject and message are trimmed
  and then sanitised. The e-mail is only trimmed and is matched against
  `/^[^\s@]+@[^\s@]+\.[^\s@]+$/`, which is written out by hand as
  `MatchesEmailPattern`. That pattern is proved equal to a shape described
  part by part (`EmailShape`). It is also proved to give the same verdict on
  the escaped address (`EscapingKeepsEmailVerdict`), so escaping the e-mail
  before or after the test would not change which addresses are accepted.
  The class `ContactForm` is the imperative handler. It clears the four error
  elements in a loop, fills in those whose check failed and lowers `ok`. It
  then raises the consent alert and sets the status line. Its contract ties
  the page state to `Decide`.
- **Text normalisation for speech** (`text.dfy`, module `Text`):
  `t.replace(/\s+/g, " ").trim()` and `String.prototype.trim`. `\s` is the
  WhiteSpace and LineTerminator set of ECMAScript (`IsSpace`). The normalised
  text has no whitespace at either end and only single U+0020 spaces inside.
  It keeps every other character, in order, and normalising is idempotent.
  Each whitespace run between two words becomes exactly one space, so the
  words stay apart (`NormalizeSpaceJoin`).
- **The voice reader** (`voice.dfy`, module `Voice`). The class `Reader` holds:
  - the `ativo` flag, which the toggle button flips;
  - the `WeakMap` of last-read times, as a `map` from element identities to
    milliseconds;
  - the button's `aria-pressed` and text.

  `TentarLer` receives the current time as a parameter. It speaks exactly
  when the reader is on, the text has at least two characters and 1200 ms
  have passed since the element was last read. Only then does it record the
  time. What it hands to the speech engine is what `speak` does: a cancel
  of speech in progress, then the text. Over any sequence of attempts made
  with the reader on, two readings of the same element are proved to be at
  least 1200 ms apart (`ReplaySpaced`). A session that mixes toggle clicks
  with attempts reads exactly what a reader kept on reads of the attempts
  made while it was on (`SessionIsReplayOn`), so the spacing holds across
  clicks too (`SessionSpaced`).

## Model

| member | source | states |
|---|---|---|
| Text.IsSpace | ecotech/script.js:80-83 | the characters `\s` matches and `trim` strips: the ECMAScript WhiteSpace and LineTerminator code points |
| Text.Trim | ecotech/script.js:80-83 | `trim()` leaves no whitespace at the start or end and never lengthens the text |
| Text.TrimSplit | ecotech/script.js:80-83 | the input is whitespace, then the trimmed text, then whitespace |
| Text.TrimEmptyIff | ecotech/script.js:95 | a trimmed field is empty exactly when the raw field is all whitespace |
| Text.TrimKeepsVisible | ecotech/script.js:184 | trimming removes whitespace only: the other characters stay, in order |
| Text.CollapseRuns | ecotech/script.js:184 | collapsing runs never lengthens, gives empty only for empty input, and keeps whether the text starts with whitespace |
| Text.CollapseRunsSpec | ecotech/script.js:184 | after collapsing, every whitespace character is a single U+0020 with no whitespace beside it, and the other characters are kept in order |
| Text.NormalizeSpace | ecotech/script.js:184 | the speech text has no whitespace at either end, only single spaces inside, and the same non-whitespace characters in the same order |
| Text.CollapseRunsFixes | ecotech/script.js:184 | text that is already single-spaced is left unchanged by collapsing |
| Text.NormalizeSpaceIdempotent | ecotech/script.js:184 | normalising twice gives the same text as normalising once |
| Text.CollapseRunsOfRun | ecotech/script.js:184 | a non-empty whitespace run, of any length and mix of characters, becomes exactly one U+0020 |
| Text.CollapseRunsConcat | ecotech/script.js:184 | collapsing distributes over any concatenation that does not cut a whitespace run in two, so each run is replaced where it stands and nothing else moves |
| Text.CollapseRunsLast | ecotech/script.js:184 | a text ending in a non-whitespace character still ends in that character after collapsing |
| Text.TrimFramed | ecotech/script.js:184 | `trim` of a text that starts and ends with non-whitespace, with whitespace around it, gives exactly that text |
| Text.TrimJoin | ecotech/script.js:184 | `trim` of two texts joined by one space trims only their outer ends |
| Text.NormalizeSpaceJoin | ecotech/script.js:184 | two texts separated by any whitespace run are spoken as their own speech texts joined by exactly one space, so words are never run together |
| Text.NormalizeSpaceOfWord | ecotech/script.js:184 | a word without whitespace is its own speech text |
| Text.NormalizeSpaceOfRun | ecotech/script.js:184 | a text of whitespace only has an empty speech text |
| Sanitize.SanitizeInput | ecotech/script.js:2-11 | `sanitizeInput`: empty input gives `""`, anything else goes through the five passes |
| Sanitize.ReplaceAll | ecotech/script.js:6-10 | one global `replace` of a single character by a string, left to right |
| Sanitize.ReplaceChain | ecotech/script.js:5-10 | the five chained `replace` calls, `&` first, then `<`, `>`, `"` and `'` |
| Sanitize.Escape | ecotech/script.js:2-11 | the per-character form of the escaping, each character replaced by `EscapeChar` of it |
| Sanitize.Unescape | ecotech/script.js:2-11 | reading the five entities back, an independent inverse used by the round trip |
| Sanitize.EscapeChar | ecotech/script.js:6-10 | each of the five special characters becomes a longer entity; every other character stays a single character |
| Sanitize.ReplaceAllConcat | ecotech/script.js:6-10 | one global replacement of a character distributes over concatenation |
| Sanitize.ReplaceChainOne | ecotech/script.js:6-10 | on a single character, the five passes give exactly its entity |
| Sanitize.ReplaceChainIsEscape | ecotech/script.js:5-10 | the five chained passes equal the per-character substitution on every string |
| Sanitize.SanitizeIsEscape | ecotech/script.js:2-11 | `sanitizeInput`, including its empty-input branch, is the per-character substitution |
| Sanitize.AmpersandLastDoubleEscapes | ecotech/script.js:6 | the order matters: with `&` replaced last, `"<"` becomes `"&amp;lt;"` instead of `"&lt;"` |
| Sanitize.SanitizeEmptyIff | ecotech/script.js:3 | the result is empty exactly when the input is empty |
| Sanitize.SanitizeIsEscaped | ecotech/script.js:2-11 | the output has no raw `<`, `>`, `"` or `'`, and every `&` in it begins one of the five entities |
| Sanitize.EscapeConcat | ecotech/script.js:2-11 | the per-character escaping distributes over concatenation |
| Sanitize.SanitizeConcat | ecotech/script.js:2-11 | sanitising a concatenation is concatenating the sanitised parts |
| Sanitize.SanitizeLength | ecotech/script.js:2-11 | the output is never shorter than the input, has the same length exactly when the input has no special character, and is then the input itself |
| Sanitize.SanitizeLengthCounts | ecotech/script.js:2-11 | the output length is the input length plus 4 per `&`, 3 per `<` and per `>`, and 5 per `"` and per `'` |
| Sanitize.SanitizeRoundTrip | ecotech/script.js:2-11 | reading the five entities back recovers the input |
| Sanitize.SanitizeInjective | ecotech/script.js:2-11 | different inputs give different outputs |
| Sanitize.SanitizeIdempotentIff | ecotech/script.js:2-11 | sanitising the output again leaves it unchanged exactly when the input had no special character |
| Sanitize.EscapeElement | ecotech/script.js:2-11 | an element whose name and body hold none of the five special characters comes out with both tags escaped to `&lt;`/`&gt;` and its name and body unchanged |
| Sanitize.SanitizeScriptTag | ecotech/script.js:2-11 | `"<script>alert(1)</script>"` becomes `"&lt;script&gt;alert(1)&lt;/script&gt;"` |
| Sanitize.SanitizeEntityAgain | ecotech/script.js:21 | an existing `"&amp;"` is escaped once more, to `"&amp;amp;"` |
| Sanitize.SanitizeTwiceAmpersand | ecotech/script.js:21 | re-sanitising a field holding `"&"` gives `"&amp;"` and then `"&amp;amp;"` |
| Validation.MatchesEmailPattern | ecotech/script.js:99 | `/^[^\s@]+@[^\s@]+\.[^\s@]+$/.test`: some `@` and some later `.` cut the address into three non-empty runs without whitespace or `@` |
| Validation.EmailShape | ecotech/script.js:99 | the shape the pattern is proved to accept, described part by part |
| Validation.IndexOf | ecotech/script.js:99 | the first position of a character that occurs: it holds the character and no earlier position does |
| Validation.CountOnce | ecotech/script.js:99 | a character occurs exactly once exactly when no other position holds it |
| Validation.PatternGivesShape | ecotech/script.js:99 | an address that the pattern splits at an `@` and a later `.` has the part-by-part shape |
| Validation.ShapeGivesPattern | ecotech/script.js:99 | an address of the part-by-part shape matches the pattern |
| Validation.EmailPatternIffShape | ecotech/script.js:99 | the pattern accepts exactly: one `@`, a non-empty whitespace-free part before it, and a whitespace-free part after it with a `.` that has text on both sides |
| Validation.PatternOfParts | ecotech/script.js:99 | three non-empty runs without whitespace or `@`, joined by `@` and `.`, match the pattern |
| Validation.PartsOfPattern | ecotech/script.js:99 | a matching address is three such runs joined by `@` and `.` |
| Validation.EmailCharsEscape | ecotech/script.js:81 | escaping introduces no whitespace and no `@`, and removes none |
| Validation.SplitEscaped | ecotech/script.js:81 | an `@` or `.` in escaped text comes from the same character of the raw text, and the two sides escape separately |
| Validation.EscapingKeepsEmailVerdict | ecotech/script.js:81 | the pattern accepts the sanitised address exactly when it accepts the raw one |
| Validation.Decide | ecotech/script.js:79-117 | each error slot holds its fixed message exactly when its own check fails: blank name, address not of the e-mail shape, blank subject, escaped message shorter than 10. `ok` holds exactly when all four slots are empty and consent is given |
| Validation.ConsentFillsNoSlot | ecotech/script.js:114-117 | changing the consent changes no error slot, and without consent `ok` is false |
| Validation.NotAnEmail | ecotech/script.js:99 | `"not-an-email"` is refused by the pattern |
| Validation.MarkupMessage | ecotech/script.js:83 | `"<<<"` is 3 characters but 12 once escaped |
| Validation.MissingNameSample | ecotech/script.js:79-117 | an empty name with every other field valid fills the name slot only and refuses the submission |
| Validation.BadEmailSample | ecotech/script.js:79-117 | `"not-an-email"` with every other field valid fills the e-mail slot only and refuses the submission |
| Validation.ShortMessageSample | ecotech/script.js:79-117 | the message `"short"` fills the message slot only and refuses the submission |
| Validation.NoConsentSample | ecotech/script.js:79-117 | valid fields without consent fill no slot but refuse the submission |
| Validation.AcceptedSample | ecotech/script.js:79-117 | valid fields with consent fill no slot and accept the submission |
| Validation.MarkupMessageSample | ecotech/script.js:83-113 | a three-character message `"<<<"` passes the length rule |
| Validation.ContactForm.constructor | ecotech/script.js:76-93 | the form starts with the four error elements present, each error element and the status line holding the text it was given by the page |
| Validation.ContactForm.CheckFields | ecotech/script.js:80-113 | the four checks the handler computes are exactly the slots of `Decide`, and with consent its `ok` |
| Validation.ContactForm.Report | ecotech/script.js:86-126 | once the checks are known: each element shows its message exactly when its check failed, `ok` is all four checks and consent, the alert is raised exactly without consent, and the status line follows `ok` |
| Validation.ContactForm.ClearErrors | ecotech/script.js:88-93 | after the loop, all four error elements are empty |
| Validation.ContactForm.ShowErrors | ecotech/script.js:86-113 | from empty elements, each element shows its message exactly when its check failed, and `ok` is the conjunction of the four checks |
| Validation.ContactForm.CheckConsent | ecotech/script.js:114-117 | without consent the alert is raised and `ok` is lowered; with consent nothing happens |
| Validation.ContactForm.ShowStatus | ecotech/script.js:119-126 | the status line shows the error text when `ok` is false, otherwise "Enviando..." |
| Validation.ContactForm.Submit | ecotech/script.js:76-126 | the error elements show exactly the slots of `Decide`, the returned flag is its `ok`, the alert is raised exactly without consent, and the status line follows `ok` |
| Voice.LastRead | ecotech/script.js:206 | `ultimoLido.get(el)`, with 0 in its place when it is missing: the recorded time, or 0 for an element never read |
| Voice.Speak | ecotech/script.js:187-196 | `speak`: nothing for an empty text, otherwise a cancel of speech in progress and then the utterance |
| Voice.Replay | ecotech/script.js:201-210 | the readings of a sequence of `tentarLer` attempts, threading the last-read times from one attempt to the next |
| Voice.Read | ecotech/script.js:201-210 | a read attempt speaks exactly when the reader is on, the text has at least 2 characters and 1200 ms have passed since the element's last read (0 if never). It then speaks that text and records the time; no other element's entry changes, and a silent attempt changes nothing |
| Voice.RereadTooSoonIsSilent | ecotech/script.js:206-208 | after the element is read, a read of it less than 1200 ms later is silent |
| Voice.ReplayAfterLast | ecotech/script.js:201-210 | every reading in a sequence of attempts is at least 1200 ms after the time first recorded for its element |
| Voice.ReplaySpaced | ecotech/script.js:199-210 | in any sequence of attempts, two readings of the same element are at least 1200 ms apart |
| Voice.ReplayOff | ecotech/script.js:202 | with the reader off, nothing is read |
| Voice.Session | ecotech/script.js:201-223 | the readings of a sequence of toggle clicks and `tentarLer` attempts: a click flips `ativo` and leaves the last-read times alone, an attempt is one read |
| Voice.SessionIsReplayOn | ecotech/script.js:201-223 | a session reads exactly what a reader kept on reads of the attempts made while it was on |
| Voice.SessionSpaced | ecotech/script.js:199-223 | across toggle clicks, two readings of the same element are at least 1200 ms apart |
| Voice.ReplayIsSubsequence | ecotech/script.js:201-210 | the readings are a subsequence of the attempts: each sits at its own position, and the positions strictly increase |
| Voice.Reader.constructor | ecotech/script.js:161-199 | the reader starts off, with no element read; the button keeps the `aria-pressed` and text it was given |
| Voice.Reader.Toggle | ecotech/script.js:213-223 | a click flips `ativo` and sets `aria-pressed` and the button text to match. Switching off cancels speech; switching on goes through `speak`, which cancels and then speaks the hint |
| Voice.Reader.TentarLer | ecotech/script.js:201-210 | the new last-read times are those of `Read` applied to the normalised element text; the speech calls are `speak` of what it reads, a cancel then that text, and none when it is silent |

## Left out

- DOM access and event wiring: `addEventListener`, `getElementById`, `querySelector`, `textContent` writes, `preventDefault`. The error elements and the status line are fields of `ContactForm`.
- The realtime listener on the name, subject and message fields, with its cursor restore (`setSelectionRange`) and paste interception (`clipboardData`, `execCommand`). These are platform calls. What the listener does to the text is `SanitizeInput` on the whole value, whose repeated effect is stated by `SanitizeIdempotentIff` and `SanitizeTwiceAmpersand`.
- `showToast`, the `setTimeout` simulation of sending, `form.reset()`, the submit button's `disabled` toggling and `console` logging. These are UI orchestration and timers with no decision of their own.
- The alert call itself: `Submit` returns the alert text instead of showing it.
- The Web Speech API (`speechSynthesis`, `SpeechSynthesisUtterance`, `cancel`, the voice choice in `escolherVoz`). The calls the script makes on `speechSynthesis` are returned as a sequence of `SpeechCall` values, cancel or speak of a text; the language, voice, rate and pitch set on each utterance are not modelled.
- `Date.now()`: the time is a parameter of `TentarLer`.
- The early returns of `setupVoice` when the browser has no `speechSynthesis` or the page has no `toggle-voz` button: the model is the reader once it has been set up, with both present.
- The attribute fallback chain in `textoDoElemento` (`data-tts`, `aria-label`, `innerText`, `textContent`) and the `el.matches` selector filters of the focus and hover listeners. These depend on DOM semantics. `TentarLer` takes the chosen raw text.
- The Ctrl+Alt+L shortcut, which only clicks the toggle button (`Toggle`).
- The footer year, the mobile navigation's `aria-expanded` flip and the `aria-current` link highlighting. These are attribute writes; the `current === ""` test there can never hold, because of `|| "index.html"`.
- Missing page elements: the model assumes the four error elements, the status line and the form fields exist. A missing consent checkbox reads as unchecked (`consent?.checked`), so consent is a `bool`.
- Validation.Decide: the message length is counted in characters, not in UTF-16 code units as JavaScript's `length` counts, so a character outside the Basic Multilingual Plane counts once instead of twice.
- Voice.Read: the length test on the speech text counts characters, not UTF-16 code units, as above. Times are unbounded integers, not IEEE doubles.
- Text.IsSpace: whitespace is the fixed ECMAScript WhiteSpace and LineTerminator set. The `Zs` category is written out as the code points it held when the standard was fixed, with no Unicode-version dependence.
- Where two versions of the script disagree on whether the e-mail is escaped before its test, this model follows `ecotech/script.js`, which tests the raw trimmed address; `EscapingKeepsEmailVerdict` shows the other order accepts the same addresses.
