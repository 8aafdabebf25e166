/** The page's voice reader: a toggle button switches it on and off, and an
    element that gains focus or the mouse is read aloud, at most once per
    1200 ms per element. The speech engine itself is outside the model; an
    utterance is the text handed to it. */
module Voice {

  import opened Optional
  import opened Text

  /** The identity of a page element (the keys of the `WeakMap`). */
  type ElementId = nat

  /** Milliseconds that must pass before the same element is read again. */
  const ThrottleMs := 1200

  /** Shorter speech texts are not read. */
  const MinLength := 2

  const Hint := "Leitura de voz ativada. Passe o mouse ou use a tecla Tab para ouvir os conte\U{FA}dos."
  const LabelOn := "Leitura de voz: ON"
  const LabelOff := "Leitura de voz"

  /** `ultimoLido.get(el) || 0`: the time `el` was last read, 0 if never. */
  function LastRead(m: map<ElementId, int>, el: ElementId): int {
    if el in m then m[el] else 0
  }

  /** What one read attempt produces: the utterance, if any, and the new
      last-read times. */
  datatype Reading = Reading(spoken: Option<string>, last: map<ElementId, int>)

  /** `tentarLer(el)` at time `agora`, for an element whose speech text is
      `texto`, given the reader's `ativo` flag and last-read times `m`. It
      speaks exactly when the reader is on, the text has at least two
      characters and the element was not read in the last 1200 ms; only then
      is the element's time set to `agora`, and no other entry changes. */
  function Read(ativo: bool, m: map<ElementId, int>, el: ElementId, texto: string, agora: int): (r: Reading)
    ensures r.spoken.Some? <==> ativo && |texto| >= MinLength && agora - LastRead(m, el) >= ThrottleMs
    ensures r.spoken.Some? ==> r.spoken.value == texto
    ensures forall e :: e != el ==> LastRead(r.last, e) == LastRead(m, e)
    ensures LastRead(r.last, el) == if r.spoken.Some? then agora else LastRead(m, el)
    ensures r.spoken.None? ==> r.last == m
  {
    if !ativo then Reading(None, m)
    else if |texto| < MinLength then Reading(None, m)
    else
      var ultimo := LastRead(m, el);
      if agora - ultimo < ThrottleMs then Reading(None, m)
      else Reading(Some(texto), m[el := agora])
  }

  /** A read that speaks has moved the element's time to `agora`, so a read of
      the same element less than 1200 ms later is silent. */
  lemma RereadTooSoonIsSilent(ativo: bool, m: map<ElementId, int>, el: ElementId, texto: string, agora: int,
                              texto': string, later: int)
    requires Read(ativo, m, el, texto, agora).spoken.Some?
    requires later - agora < ThrottleMs
    ensures Read(ativo, Read(ativo, m, el, texto, agora).last, el, texto', later).spoken.None?
  {
  }

  /** One attempt in a sequence of reads: `el` at time `agora`, with speech text `texto`. */
  datatype Attempt = Attempt(el: ElementId, texto: string, agora: int)

  /** The attempts of `attempts` that were read aloud, in order, starting from
      the last-read times `m`, with `ativo` fixed throughout. */
  function Replay(ativo: bool, m: map<ElementId, int>, attempts: seq<Attempt>): seq<Attempt>
    decreases |attempts|
  {
    if attempts == [] then []
    else
      var a := attempts[0];
      var r := Read(ativo, m, a.el, a.texto, a.agora);
      (if r.spoken.Some? then [a] else []) + Replay(ativo, r.last, attempts[1..])
  }

  /** Every attempt `Replay` reads aloud is at least 1200 ms after the time
      the starting map records for its element. */
  lemma {:induction false} ReplayAfterLast(ativo: bool, m: map<ElementId, int>, attempts: seq<Attempt>)
    ensures forall i :: 0 <= i < |Replay(ativo, m, attempts)| ==>
      Replay(ativo, m, attempts)[i].agora - LastRead(m, Replay(ativo, m, attempts)[i].el) >= ThrottleMs
    decreases |attempts|
  {
    if attempts != [] {
      var a := attempts[0];
      var r := Read(ativo, m, a.el, a.texto, a.agora);
      ReplayAfterLast(ativo, r.last, attempts[1..]);
      var head: seq<Attempt> := if r.spoken.Some? then [a] else [];
      var tail := Replay(ativo, r.last, attempts[1..]);
      assert Replay(ativo, m, attempts) == head + tail;
      forall i | 0 <= i < |head + tail|
        ensures (head + tail)[i].agora - LastRead(m, (head + tail)[i].el) >= ThrottleMs
      {
        if i >= |head| {
          var b := tail[i - |head|];
          assert (head + tail)[i] == b;
          assert LastRead(r.last, b.el) >= LastRead(m, b.el);
        }
      }
    }
  }

  /** The throttle over any sequence of attempts: two readings of the same
      element are at least 1200 ms apart. */
  lemma {:induction false} ReplaySpaced(ativo: bool, m: map<ElementId, int>, attempts: seq<Attempt>)
    ensures forall i, j ::
      (0 <= i < j < |Replay(ativo, m, attempts)| && Replay(ativo, m, attempts)[i].el == Replay(ativo, m, attempts)[j].el) ==>
      Replay(ativo, m, attempts)[j].agora - Replay(ativo, m, attempts)[i].agora >= ThrottleMs
    decreases |attempts|
  {
    if attempts != [] {
      var a := attempts[0];
      var r := Read(ativo, m, a.el, a.texto, a.agora);
      ReplaySpaced(ativo, r.last, attempts[1..]);
      ReplayAfterLast(ativo, r.last, attempts[1..]);
      var head: seq<Attempt> := if r.spoken.Some? then [a] else [];
      var tail := Replay(ativo, r.last, attempts[1..]);
      var s := head + tail;
      assert Replay(ativo, m, attempts) == s;
      forall i, j | 0 <= i < j < |s| && s[i].el == s[j].el
        ensures s[j].agora - s[i].agora >= ThrottleMs
      {
        assert s[j] == tail[j - |head|];
        if i < |head| {
          assert s[i] == a && LastRead(r.last, a.el) == a.agora;
        } else {
          assert s[i] == tail[i - |head|];
        }
      }
    }
  }

  /** With the reader off nothing is read. */
  lemma {:induction false} ReplayOff(m: map<ElementId, int>, attempts: seq<Attempt>)
    ensures Replay(false, m, attempts) == []
    decreases |attempts|
  {
    if attempts != [] {
      ReplayOff(m, attempts[1..]);
    }
  }

  /** One event of a session on the page: a click on the toggle button, or a
      read attempt. */
  datatype Event = Click | Try(attempt: Attempt)

  /** The attempts of `events` made while the reader was on, starting from
      `ativo`; each click flips it. */
  function AttemptsWhileOn(ativo: bool, events: seq<Event>): seq<Attempt>
    decreases |events|
  {
    if events == [] then []
    else
      match events[0]
      case Click => AttemptsWhileOn(!ativo, events[1..])
      case Try(a) => (if ativo then [a] else []) + AttemptsWhileOn(ativo, events[1..])
  }

  /** The readings of a session, starting from `ativo` and the last-read
      times `m`: a click flips `ativo` and leaves the times alone, as `Toggle`
      does; an attempt is `Read` with the current flag. */
  function Session(ativo: bool, m: map<ElementId, int>, events: seq<Event>): seq<Attempt>
    decreases |events|
  {
    if events == [] then []
    else
      match events[0]
      case Click => Session(!ativo, m, events[1..])
      case Try(a) =>
        var r := Read(ativo, m, a.el, a.texto, a.agora);
        (if r.spoken.Some? then [a] else []) + Session(ativo, r.last, events[1..])
  }

  /** Clicks only decide which attempts count: a session reads what a
      reader kept on reads of the attempts made while it was on. */
  lemma {:induction false} SessionIsReplayOn(ativo: bool, m: map<ElementId, int>, events: seq<Event>)
    ensures Session(ativo, m, events) == Replay(true, m, AttemptsWhileOn(ativo, events))
    decreases |events|
  {
    if events != [] {
      match events[0]
      case Click =>
        SessionIsReplayOn(!ativo, m, events[1..]);
      case Try(a) =>
        var r := Read(ativo, m, a.el, a.texto, a.agora);
        SessionIsReplayOn(ativo, r.last, events[1..]);
        var rest := AttemptsWhileOn(ativo, events[1..]);
        if ativo {
          assert AttemptsWhileOn(ativo, events) == [a] + rest;
          assert ([a] + rest)[1..] == rest;
        } else {
          assert AttemptsWhileOn(ativo, events) == rest;
        }
    }
  }

  /** The throttle across toggle clicks: two readings of the same element in
      a session are at least 1200 ms apart. */
  lemma SessionSpaced(ativo: bool, m: map<ElementId, int>, events: seq<Event>)
    ensures forall i, j ::
      (0 <= i < j < |Session(ativo, m, events)| && Session(ativo, m, events)[i].el == Session(ativo, m, events)[j].el) ==>
      Session(ativo, m, events)[j].agora - Session(ativo, m, events)[i].agora >= ThrottleMs
  {
    SessionIsReplayOn(ativo, m, events);
    ReplaySpaced(true, m, AttemptsWhileOn(ativo, events));
  }

  /** What `Replay` reads aloud are attempts made, in their order: the
      readings sit at strictly increasing positions `idx` of the attempts. */
  lemma {:induction false} ReplayIsSubsequence(ativo: bool, m: map<ElementId, int>, attempts: seq<Attempt>)
    returns (idx: seq<nat>)
    ensures |Replay(ativo, m, attempts)| <= |attempts|
    ensures forall x :: x in Replay(ativo, m, attempts) ==> x in attempts
    ensures |idx| == |Replay(ativo, m, attempts)|
    ensures forall i :: 0 <= i < |idx| ==> idx[i] < |attempts| && Replay(ativo, m, attempts)[i] == attempts[idx[i]]
    ensures forall i, j :: 0 <= i < j < |idx| ==> idx[i] < idx[j]
    decreases |attempts|
  {
    if attempts == [] {
      idx := [];
    } else {
      var a := attempts[0];
      var r := Read(ativo, m, a.el, a.texto, a.agora);
      var rest := ReplayIsSubsequence(ativo, r.last, attempts[1..]);
      var tail := Replay(ativo, r.last, attempts[1..]);
      var head: seq<Attempt> := if r.spoken.Some? then [a] else [];
      idx := PrependIndices(head, tail, attempts, rest);
      assert Replay(ativo, m, attempts) == head + tail;
    }
  }

  /** Positions of `head + tail` in `attempts`, from positions of `tail` in
      `attempts[1..]`, when `head` is empty or the first attempt. */
  lemma PrependIndices(head: seq<Attempt>, tail: seq<Attempt>, attempts: seq<Attempt>, rest: seq<nat>)
    returns (idx: seq<nat>)
    requires attempts != [] && (head == [] || head == [attempts[0]])
    requires |rest| == |tail|
    requires forall i :: 0 <= i < |rest| ==> rest[i] < |attempts| - 1 && tail[i] == attempts[1..][rest[i]]
    requires forall i, j :: 0 <= i < j < |rest| ==> rest[i] < rest[j]
    ensures |head + tail| <= |attempts|
    ensures forall x :: x in head + tail ==> x in attempts
    ensures |idx| == |head + tail|
    ensures forall i :: 0 <= i < |idx| ==> idx[i] < |attempts| && (head + tail)[i] == attempts[idx[i]]
    ensures forall i, j :: 0 <= i < j < |idx| ==> idx[i] < idx[j]
  {
    var sh := ShiftIndices(tail, attempts, rest);
    if head == [] {
      assert head + tail == tail;
      idx := sh;
    } else {
      idx := [0] + sh;
      var s := head + tail;
      forall i | 0 <= i < |idx| ensures idx[i] < |attempts| && s[i] == attempts[idx[i]] {
        if i > 0 {
          assert idx[i] == sh[i - 1] && s[i] == tail[i - 1];
        }
      }
      forall i, j | 0 <= i < j < |idx| ensures idx[i] < idx[j] {
        if i > 0 {
          assert idx[i] == sh[i - 1];
        }
        assert idx[j] == sh[j - 1];
      }
    }
    IndexedMembers(head + tail, attempts, idx);
    IncreasingBound(idx, |attempts|);
  }

  /** Positions in `attempts[1..]` moved one place on, to positions in `attempts`. */
  lemma ShiftIndices(tail: seq<Attempt>, attempts: seq<Attempt>, rest: seq<nat>) returns (sh: seq<nat>)
    requires attempts != [] && |rest| == |tail|
    requires forall i :: 0 <= i < |rest| ==> rest[i] < |attempts| - 1 && tail[i] == attempts[1..][rest[i]]
    requires forall i, j :: 0 <= i < j < |rest| ==> rest[i] < rest[j]
    ensures |sh| == |tail|
    ensures forall i :: 0 <= i < |sh| ==> 0 < sh[i] < |attempts| && tail[i] == attempts[sh[i]]
    ensures forall i, j :: 0 <= i < j < |sh| ==> sh[i] < sh[j]
  {
    sh := seq(|rest|, k requires 0 <= k < |rest| => rest[k] + 1);
    forall i | 0 <= i < |sh| ensures 0 < sh[i] < |attempts| && tail[i] == attempts[sh[i]] {
      assert attempts[1..][rest[i]] == attempts[rest[i] + 1];
    }
  }

  /** Whatever sits at a position of `attempts` is one of the attempts. */
  lemma IndexedMembers(s: seq<Attempt>, attempts: seq<Attempt>, idx: seq<nat>)
    requires |idx| == |s|
    requires forall i :: 0 <= i < |idx| ==> idx[i] < |attempts| && s[i] == attempts[idx[i]]
    ensures forall x :: x in s ==> x in attempts
  {
    forall x | x in s ensures x in attempts {
      var i :| 0 <= i < |s| && s[i] == x;
      assert attempts[idx[i]] == x;
    }
  }

  /** Strictly increasing positions below `n` number at most `n`. */
  lemma {:induction false} IncreasingBound(idx: seq<nat>, n: nat)
    requires forall i :: 0 <= i < |idx| ==> idx[i] < n
    requires forall i, j :: 0 <= i < j < |idx| ==> idx[i] < idx[j]
    ensures |idx| <= n
    decreases |idx|
  {
    if idx != [] {
      var last := idx[|idx| - 1];
      var init := idx[..|idx| - 1];
      assert forall i :: 0 <= i < |init| ==> init[i] == idx[i];
      IncreasingBound(init, last);
    }
  }

  /** A call into the speech engine: `speechSynthesis.cancel()`, or
      `speechSynthesis.speak` of an utterance of `text`. */
  datatype SpeechCall = Cancel | Utter(text: string)

  /** `speak(texto)`: nothing for an empty text; otherwise speech in
      progress is cancelled and then the text is spoken. */
  function Speak(texto: string): (calls: seq<SpeechCall>)
    ensures calls == [] <==> texto == []
    ensures calls != [] ==> calls[0] == Cancel && calls[|calls| - 1] == Utter(texto)
  {
    if texto == [] then [] else [Cancel, Utter(texto)]
  }

  /** The reader's state: the `ativo` flag, the `WeakMap` of last-read
      times, and the toggle button's `aria-pressed` and text. */
  class Reader {
    var ativo: bool
    var ultimoLido: map<ElementId, int>
    var ariaPressed: string
    var buttonText: string

    /** The reader starts switched off, with nothing read yet. The button's
        `aria-pressed` and text are whatever the page markup gives them. */
    constructor (initialPressed: string, initialText: string)
      ensures !ativo && ultimoLido == map[]
      ensures ariaPressed == initialPressed && buttonText == initialText
    {
      ativo := false;
      ultimoLido := map[];
      ariaPressed := initialPressed;
      buttonText := initialText;
    }

    /** The toggle button's click handler. It flips `ativo` and updates the
        button. Switching off cancels speech in progress; switching on
        speaks the hint, which itself first cancels. */
    method Toggle() returns (calls: seq<SpeechCall>)
      modifies this`ativo, this`ariaPressed, this`buttonText
      ensures ativo == !old(ativo)
      ensures ariaPressed == (if ativo then "true" else "false")
      ensures buttonText == (if ativo then LabelOn else LabelOff)
      ensures calls == (if ativo then [Cancel, Utter(Hint)] else [Cancel])
    {
      ativo := !ativo;
      ariaPressed := if ativo then "true" else "false";
      calls := [];
      if !ativo {
        calls := calls + [Cancel];
      }
      buttonText := if ativo then LabelOn else LabelOff;
      if ativo {
        calls := calls + Speak(Hint);
      }
    }

    /** `tentarLer(el)` at time `agora` for an element whose raw text (its
        `data-tts`, `aria-label` or visible text) is `raw`; the speech text is
        `raw` with its whitespace normalised. */
    method TentarLer(el: ElementId, raw: string, agora: int) returns (calls: seq<SpeechCall>)
      modifies this`ultimoLido
      ensures var r := Read(ativo, old(ultimoLido), el, NormalizeSpace(raw), agora);
        ultimoLido == r.last && calls == (if r.spoken.Some? then Speak(r.spoken.value) else [])
      ensures calls != [] <==>
        ativo && |NormalizeSpace(raw)| >= MinLength && agora - LastRead(old(ultimoLido), el) >= ThrottleMs
      ensures calls != [] ==> calls == [Cancel, Utter(NormalizeSpace(raw))]
    {
      calls := [];
      if !ativo {
        return;
      }
      var texto := NormalizeSpace(raw);
      if |texto| < MinLength {
        return;
      }
      var ultimo := LastRead(ultimoLido, el);
      if agora - ultimo < ThrottleMs {
        return;
      }
      ultimoLido := ultimoLido[el := agora];
      calls := Speak(texto);
    }
  }
}
