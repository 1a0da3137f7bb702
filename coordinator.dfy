/**
 * The state `activate` captures and the handlers that update it, as one
 * object: the echo guard, the single throttle timer, the messages posted to
 * the preview, and the URIs of the content providers created so far (their
 * document listeners are never released, so every provider with a matching
 * URI reacts to a document event).
 *
 * The timer, the preview and the documents are outside: a timer firing is
 * the call `FireTimer` with the document's text at that moment, a posted
 * message is an entry appended to `sent`, and an edit for the document is
 * returned to the caller instead of being applied.
 */
module Coordinator {
  import opened Wrappers
  import opened Sync
  import opened DocumentEdit

  class SyncCoordinator {
    var echoGuard: string
    var pending: Option<PendingSend>
    var sent: seq<Message>
    var previewUris: seq<string>

    /** The synchronisation events so far, in order. */
    ghost var history: seq<Event>

    ghost function Snapshot(): State
      reads this
    {
      State(echoGuard, pending, sent)
    }

    /** The object's state is what running its history from the start gives. */
    ghost predicate Valid()
      reads this
    {
      Snapshot() == Run(Initial, history)
    }

    constructor ()
      ensures Valid()
      ensures echoGuard == "" && pending == None && sent == [] && previewUris == [] && history == []
    {
      echoGuard, pending, sent, previewUris := "", None, [], [];
      history := [];
    }

    /** Appends `e` to the history, keeping `Valid()` for a state that took step `e`. */
    ghost method Record(e: Event)
      requires Snapshot() == Step(Run(Initial, history), e)
      modifies this`history
      ensures history == old(history) + [e] && Valid()
    {
      RunAppend(Initial, history, e);
      history := history + [e];
    }

    /** `sendKeymapToPreview`: cancels any pending send and schedules a new one. */
    method SendKeymapToPreview(source: KeymapSource, init: bool)
      requires Valid()
      modifies this
      ensures Valid() && history == old(history) + [Schedule(source, init)]
      ensures Snapshot() == Scheduled(old(Snapshot()), source, init)
      ensures pending == Some(PendingSend(source, init, Delay(init)))
      ensures previewUris == old(previewUris)
    {
      pending := Some(PendingSend(source, init, Delay(init)));
      Record(Schedule(source, init));
    }

    /**
     * The throttle timer fires. `documentText` is the text of the document
     * the pending send refers to, read now; a raw text is used as given.
     */
    method FireTimer(documentText: string)
      requires Valid()
      modifies this
      ensures Valid() && history == old(history) + [Fire(documentText)]
      ensures Snapshot() == Fired(old(Snapshot()), documentText)
      ensures previewUris == old(previewUris)
    {
      if pending.Some? {
        var p := pending.value;
        pending := None;
        var keymap := Resolve(p.source, documentText);
        if keymap != echoGuard || p.init {
          echoGuard := keymap;
          sent := sent + [SetKeymap(keymap)];
        }
      }
      Record(Fire(documentText));
    }

    /**
     * The preview command: with an active editor, a content provider for
     * its document is created, whose listeners stay subscribed from then on.
     */
    method ShowPreview(activeDocumentUri: Option<string>)
      requires Valid()
      modifies this
      ensures Valid() && history == old(history) && Snapshot() == old(Snapshot())
      ensures previewUris == if activeDocumentUri.Some?
        then old(previewUris) + [activeDocumentUri.value] else old(previewUris)
    {
      if activeDocumentUri.Some? {
        previewUris := previewUris + [activeDocumentUri.value];
      }
    }

    /**
     * Every provider's listener for a document event compares the event's
     * URI with its own and, when they match, schedules an ordinary send of
     * `source`. However many providers match, the outcome is one pending send.
     */
    method NotifyProviders(uri: string, source: KeymapSource)
      requires Valid()
      modifies this
      ensures Valid() && previewUris == old(previewUris)
      ensures uri in previewUris ==> Snapshot() == Scheduled(old(Snapshot()), source, false)
      ensures uri !in previewUris ==> Snapshot() == old(Snapshot())
    {
      var i := 0;
      while i < |previewUris|
        invariant 0 <= i <= |previewUris|
        invariant Valid() && previewUris == old(previewUris)
        invariant uri in previewUris[..i] ==> Snapshot() == Scheduled(old(Snapshot()), source, false)
        invariant uri !in previewUris[..i] ==> Snapshot() == old(Snapshot())
      {
        assert previewUris[..i + 1] == previewUris[..i] + [previewUris[i]];
        if previewUris[i] == uri {
          SendKeymapToPreview(source, false);
        }
        i := i + 1;
      }
      assert previewUris[..i] == previewUris;
    }

    /** A document with this URI changed or was opened: its text is to be sent. */
    method DocumentUpdated(uri: string)
      requires Valid()
      modifies this
      ensures Valid() && previewUris == old(previewUris)
      ensures uri in previewUris ==> Snapshot() == Scheduled(old(Snapshot()), DocumentSource(uri), false)
      ensures uri !in previewUris ==> Snapshot() == old(Snapshot())
    {
      NotifyProviders(uri, DocumentSource(uri));
    }

    /** A document with this URI was closed: the empty keymap is to be sent. */
    method DocumentClosed(uri: string)
      requires Valid()
      modifies this
      ensures Valid() && previewUris == old(previewUris)
      ensures uri in previewUris ==> Snapshot() == Scheduled(old(Snapshot()), RawText(""), false)
      ensures uri !in previewUris ==> Snapshot() == old(Snapshot())
    {
      NotifyProviders(uri, RawText(""));
    }

    /** The preview has loaded: the document it names is sent at once, past the echo guard. */
    method PreviewConnected(uri: string)
      requires Valid()
      modifies this
      ensures Valid() && previewUris == old(previewUris)
      ensures Snapshot() == Scheduled(old(Snapshot()), DocumentSource(uri), true)
      ensures pending == Some(PendingSend(DocumentSource(uri), true, 0))
    {
      SendKeymapToPreview(DocumentSource(uri), true);
    }

    /**
     * A keymap arrives from the preview for the document whose lines are
     * `documentLines`. The echo guard is set to it first; then the edit that
     * brings the document to the keymap is returned (none when it already
     * holds it).
     */
    method KeymapFromPreview(documentLines: DocumentLines, keymap: string) returns (edit: EditOutcome)
      requires Valid()
      modifies this
      ensures Valid() && history == old(history) + [PreviewEdit(keymap)]
      ensures Snapshot() == PreviewEdited(old(Snapshot()), keymap)
      ensures echoGuard == keymap && pending == old(pending) && sent == old(sent)
      ensures previewUris == old(previewUris)
      ensures edit == EditFor(documentLines, keymap)
      ensures Applied(documentLines, edit) == keymap
    {
      echoGuard := keymap;
      Record(PreviewEdit(keymap));
      edit := EditFor(documentLines, keymap);
      EditForSyncsDocument(documentLines, keymap);
    }
  }

  /**
   * Whatever the handlers have done, the preview has received at most one
   * message per timer that fired.
   */
  lemma SentBoundedByFires(c: SyncCoordinator)
    requires c.Valid()
    ensures |c.sent| <= FireCount(c.history)
  {
    RunOnlyAppends(Initial, c.history);
  }

  /**
   * A preview connects to a document reading "KEYMAP_A" and a final line
   * break, then receives exactly one message with that text; an edit from
   * the preview replaces the whole document (the handler's range as written
   * ends on the empty last line, past its end, and gives the same text), and
   * the document change that edit causes is not echoed back.
   */
  method ConnectThenEditScenario()
  {
    var c := new SyncCoordinator();
    c.ShowPreview(Some("file:///keymap.c"));
    c.PreviewConnected("file:///keymap.c");
    c.FireTimer("KEYMAP_A\n");
    assert c.sent == [SetKeymap("KEYMAP_A\n")];
    var lines: DocumentLines := ["KEYMAP_A", ""];
    assert Text(lines) == "KEYMAP_A\n";
    var edit := c.KeymapFromPreview(lines, "NEW");
    assert edit == Replace(Range(Position(0, 0), Position(1, 0)), "NEW");
    assert Utf16Length(lines[0]) == 8;
    assert SourceEditFor(lines, "NEW") == Replace(Range(Position(0, 0), Position(1, 8)), "NEW");
    SourceEditSyncsIff(lines, "NEW");
    assert Applied(lines, SourceEditFor(lines, "NEW")) == Applied(lines, edit) == "NEW";
    c.DocumentUpdated("file:///keymap.c");
    c.FireTimer("NEW");
    assert c.sent == [SetKeymap("KEYMAP_A\n")] && c.echoGuard == "NEW";
  }
}
