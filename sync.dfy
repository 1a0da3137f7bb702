/**
 * The debounced, echo-suppressing synchronisation between a keymap document
 * and the preview, as a state machine over explicit events.
 *
 * The state is the echo guard (the last keymap sent to, or received from,
 * the preview), the one pending timer and the log of messages posted to the
 * preview. Scheduling a send replaces whatever was pending; when the timer
 * fires, the keymap is resolved (a document is read at that moment) and sent
 * unless it equals the echo guard and the send is not the initial one.
 */
module Sync {
  import opened Wrappers

  /** The throttle interval of an ordinary send, in milliseconds. */
  const ThrottleDelay: nat := 1000

  /** What a send carries: a document, read when the timer fires, or a fixed text. */
  datatype KeymapSource = DocumentSource(uri: string) | RawText(text: string)

  datatype PendingSend = PendingSend(source: KeymapSource, init: bool, delay: nat)

  /** A message posted to the preview: `{command: "setKeymap", keymap}`. */
  datatype Message = SetKeymap(keymap: string)

  datatype State = State(echoGuard: string, pending: Option<PendingSend>, sent: seq<Message>)

  /** The state when the extension activates. */
  const Initial := State("", None, [])

  /** The timer delay: none for the initial send, the throttle interval otherwise. */
  function Delay(init: bool): (d: nat)
    ensures d == 0 <==> init
    ensures !init ==> d == ThrottleDelay
  {
    if init then 0 else ThrottleDelay
  }

  /** The keymap a source stands for, given the document's text when the timer fires. */
  function Resolve(source: KeymapSource, documentText: string): (keymap: string)
    ensures source.DocumentSource? ==> keymap == documentText
    ensures source.RawText? ==> keymap == source.text
  {
    match source
    case DocumentSource(_) => documentText
    case RawText(text) => text
  }

  /** Schedules a send: any pending send is cancelled and replaced; nothing else changes. */
  function Scheduled(s: State, source: KeymapSource, init: bool): (t: State)
    ensures t.pending == Some(PendingSend(source, init, Delay(init)))
    ensures t.echoGuard == s.echoGuard && t.sent == s.sent
  {
    s.(pending := Some(PendingSend(source, init, Delay(init))))
  }

  /** The pending timer fires; `documentText` is the document's text at that moment. */
  function Fired(s: State, documentText: string): (t: State)
    ensures t.pending == None
    ensures s.pending.None? ==> t == s
    ensures s.pending.Some? ==> var keymap := Resolve(s.pending.value.source, documentText);
      && (t.sent != s.sent <==> keymap != s.echoGuard || s.pending.value.init)
      && (t.sent != s.sent ==> t.sent == s.sent + [SetKeymap(keymap)] && t.echoGuard == keymap)
      && (t.sent == s.sent ==> t.echoGuard == s.echoGuard)
  {
    match s.pending
    case None => s
    case Some(p) =>
      var keymap := Resolve(p.source, documentText);
      if keymap != s.echoGuard || p.init then State(keymap, None, s.sent + [SetKeymap(keymap)])
      else s.(pending := None)
  }

  /** A keymap comes from the preview: the echo guard is set to it, before anything else. */
  function PreviewEdited(s: State, keymap: string): (t: State)
    ensures t.echoGuard == keymap && t.pending == s.pending && t.sent == s.sent
  {
    s.(echoGuard := keymap)
  }

  /**
   * A firing timer sends at most one message; when it sends, the echo guard
   * becomes the keymap sent, and when it does not, the guard is unchanged.
   * Either way nothing is pending afterwards.
   */
  lemma FireSendsAtMostOne(s: State, documentText: string)
    ensures var t := Fired(s, documentText);
      && t.pending == None
      && (t.sent == s.sent || (|t.sent| == |s.sent| + 1 && t.sent[..|s.sent|] == s.sent))
      && (t.sent != s.sent ==> t.echoGuard == t.sent[|s.sent|].keymap)
      && (t.sent == s.sent ==> t.echoGuard == s.echoGuard)
  {
    match s.pending
    case None =>
    case Some(p) =>
      var t := Fired(s, documentText);
      if t.sent != s.sent {
        assert t.sent == s.sent + [SetKeymap(Resolve(p.source, documentText))];
      }
  }

  /** An ordinary send whose keymap equals the echo guard is suppressed. */
  lemma FireSuppressesEcho(s: State, documentText: string)
    requires s.pending.Some? && !s.pending.value.init
    requires Resolve(s.pending.value.source, documentText) == s.echoGuard
    ensures Fired(s, documentText) == s.(pending := None)
  {
  }

  /** The initial send always goes out, whatever the echo guard holds. */
  lemma FireInitBypassesGuard(s: State, documentText: string)
    requires s.pending.Some? && s.pending.value.init
    ensures var keymap := Resolve(s.pending.value.source, documentText);
      Fired(s, documentText) == State(keymap, None, s.sent + [SetKeymap(keymap)])
  {
  }

  /** The events the coordinator reacts to. */
  datatype Event =
    | Schedule(source: KeymapSource, init: bool)
    | Fire(documentText: string)
    | PreviewEdit(keymap: string)

  function Step(s: State, e: Event): State {
    match e
    case Schedule(source, init) => Scheduled(s, source, init)
    case Fire(documentText) => Fired(s, documentText)
    case PreviewEdit(keymap) => PreviewEdited(s, keymap)
  }

  function Run(s: State, events: seq<Event>): State
    decreases |events|
  {
    if events == [] then s else Run(Step(s, events[0]), events[1..])
  }

  function FireCount(events: seq<Event>): nat
    decreases |events|
  {
    if events == [] then 0 else (if events[0].Fire? then 1 else 0) + FireCount(events[1..])
  }

  /** Running events one after the other is running them in one go. */
  lemma {:induction false} RunAppend(s: State, events: seq<Event>, e: Event)
    ensures Run(s, events + [e]) == Step(Run(s, events), e)
    decreases |events|
  {
    if events == [] {
      assert [e][1..] == [];
    } else {
      assert (events + [e])[1..] == events[1..] + [e];
      RunAppend(Step(s, events[0]), events[1..], e);
    }
  }

  /**
   * Over any run the message log only grows at its end, and by at most one
   * message for each timer that fired.
   */
  lemma {:induction false} RunOnlyAppends(s: State, events: seq<Event>)
    ensures var t := Run(s, events);
      |s.sent| <= |t.sent| <= |s.sent| + FireCount(events) && t.sent[..|s.sent|] == s.sent
    decreases |events|
  {
    if events != [] {
      var s' := Step(s, events[0]);
      FireSendsAtMostOne(s, if events[0].Fire? then events[0].documentText else "");
      RunOnlyAppends(s', events[1..]);
      var t := Run(s', events[1..]);
      assert t.sent[..|s'.sent|][..|s.sent|] == t.sent[..|s.sent|];
    }
  }

  ghost predicate OnlySchedules(events: seq<Event>) {
    forall i :: 0 <= i < |events| ==> events[i].Schedule?
  }

  /** A burst of schedules leaves the state the last of them alone would leave. */
  lemma {:induction false} BurstKeepsLastSchedule(s: State, events: seq<Event>)
    requires |events| > 0 && OnlySchedules(events)
    ensures var last := events[|events| - 1];
      Run(s, events) == Scheduled(s, last.source, last.init)
    decreases |events|
  {
    var last := events[|events| - 1];
    if |events| > 1 {
      var first := events[0];
      assert OnlySchedules(events[1..]) by {
        forall i | 0 <= i < |events[1..]| ensures events[1..][i].Schedule? {
          assert events[1..][i] == events[i + 1];
        }
      }
      BurstKeepsLastSchedule(Scheduled(s, first.source, first.init), events[1..]);
      assert events[1..][|events[1..]| - 1] == last;
    } else {
      assert events[1..] == [];
    }
  }

  /**
   * Coalescing: any number of schedules followed by one firing timer post at
   * most one message. It carries the keymap of the last source scheduled,
   * read when the timer fires, and it is posted exactly when that last send
   * is the initial one or its keymap differs from the echo guard.
   */
  lemma Coalescing(s: State, schedules: seq<Event>, documentText: string)
    requires |schedules| > 0 && OnlySchedules(schedules)
    ensures var last := schedules[|schedules| - 1];
      var keymap := Resolve(last.source, documentText);
      var t := Run(s, schedules + [Fire(documentText)]);
      && t.pending == None
      && (t.sent == s.sent || t.sent == s.sent + [SetKeymap(keymap)])
      && (t.sent != s.sent <==> last.init || keymap != s.echoGuard)
      && (t.sent != s.sent ==> t.echoGuard == keymap)
      && (t.sent == s.sent ==> t.echoGuard == s.echoGuard)
  {
    var last := schedules[|schedules| - 1];
    RunAppend(s, schedules, Fire(documentText));
    BurstKeepsLastSchedule(s, schedules);
    assert Run(s, schedules + [Fire(documentText)])
      == Fired(Scheduled(s, last.source, last.init), documentText);
  }

  /**
   * No echo: once a keymap has come from the preview, ordinary sends that
   * resolve to that same keymap are suppressed, however many were scheduled,
   * and the echo guard keeps the keymap.
   */
  lemma PreviewEditIsNotEchoed(s: State, keymap: string, schedules: seq<Event>, documentText: string)
    requires |schedules| > 0 && OnlySchedules(schedules)
    requires !schedules[|schedules| - 1].init
    requires Resolve(schedules[|schedules| - 1].source, documentText) == keymap
    ensures var t := Run(s, [PreviewEdit(keymap)] + schedules + [Fire(documentText)]);
      t.sent == s.sent && t.echoGuard == keymap && t.pending == None
  {
    var events := [PreviewEdit(keymap)] + schedules + [Fire(documentText)];
    assert events[0] == PreviewEdit(keymap);
    assert events[1..] == schedules + [Fire(documentText)];
    assert Run(s, events) == Run(PreviewEdited(s, keymap), schedules + [Fire(documentText)]);
    Coalescing(PreviewEdited(s, keymap), schedules, documentText);
  }
}
