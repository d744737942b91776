/**
 * `AutoKeyUi`: the inspector drawer of a localised string field. It keeps
 * the list of string table collections behind the "Table" popup, the
 * translations requested from Ollama and not yet accepted or cancelled, a
 * snippet queued for insertion at the cursor, and the settings version the
 * key solver last ran against. Unity's GUI state (focus, clicks, the text
 * the user typed, the cursor) and the collaborators the drawer calls (the
 * property editor, the key solver) are inputs to the operations below.
 */
module AutoKeyUi {
  import opened Wrappers
  import opened Text
  import opened Settings
  import Ollama

  const TextControlNamePrefix: string := "LocalizationText"
  const TranslatingLabel: string := "translating..."
  const NoneLabel: string := "None"

  datatype AutoKeyUiMode = Auto | Manual

  /** A string table collection; `id` stands for its object identity. */
  datatype TableCollection = TableCollection(id: nat, name: string)

  /** A pending translation: `None` while the request is in flight, then the
      result handed to the completion callback. */
  type Pending = map<string, Option<Ollama.RequestResult>>

  // ----------------------------------------------------------- table popup

  /** The popup labels: "None", then the collection names in order. */
  function Labels(cs: seq<TableCollection>): (r: seq<string>)
    ensures |r| == |cs| + 1 && r[0] == NoneLabel
    ensures forall i :: 0 <= i < |cs| ==> r[i + 1] == cs[i].name
  {
    [NoneLabel] + seq(|cs|, i requires 0 <= i < |cs| => cs[i].name)
  }

  /** One plus the index of the first occurrence of `c`, or 0 when absent. */
  function Position(cs: seq<TableCollection>, c: TableCollection): (r: nat)
    ensures r <= |cs|
    ensures r == 0 <==> c !in cs
    ensures r > 0 ==> cs[r - 1] == c && c !in cs[..r - 1]
  {
    if cs == [] then 0
    else if cs[0] == c then 1
    else
      var k := Position(cs[1..], c);
      assert cs[1..][..k] == cs[1..k + 1];
      assert cs[..k + 1] == [cs[0]] + cs[1..k + 1];
      if k == 0 then 0 else k + 1
  }

  /** The popup entry of the field's current collection: 0 ("None") when it
      has none or it is not listed. */
  function PopupIndex(cs: seq<TableCollection>, current: Option<TableCollection>): nat {
    match current
    case None => 0
    case Some(c) => Position(cs, c)
  }

  /** The collection chosen by popup entry `k`; entry 0 and below is none. */
  function SelectedCollection(cs: seq<TableCollection>, k: int): Option<TableCollection>
    requires k <= |cs|
  {
    if k <= 0 then None else Some(cs[k - 1])
  }

  /** The popup shows the current collection: its entry maps back to it and
      is labelled with its name. */
  lemma {:induction false} PopupShowsCurrent(cs: seq<TableCollection>, current: Option<TableCollection>)
    requires current.Some? ==> current.value in cs
    ensures SelectedCollection(cs, PopupIndex(cs, current)) == current
    ensures current.Some? ==> Labels(cs)[PopupIndex(cs, current)] == current.value.name
    ensures current.None? ==> Labels(cs)[PopupIndex(cs, current)] == NoneLabel
  {
  }

  /** Choosing an entry of a popup without repeated collections reports no
      change when that entry is the one already shown, and a change
      otherwise. */
  lemma {:induction false} SelectionRoundTrip(cs: seq<TableCollection>, k: nat)
    requires k <= |cs|
    requires forall i, j :: 0 <= i < j < |cs| ==> cs[i] != cs[j]
    ensures PopupIndex(cs, SelectedCollection(cs, k)) == k
  {
    if k > 0 {
      var r := Position(cs, cs[k - 1]);
      assert cs[r - 1] == cs[k - 1];
    }
  }

  /** The field's name in the GUI focus system. */
  function ControlName(path: string, locale: LocaleIdentifier): string {
    TextControlNamePrefix + "@" + path + "-" + locale.code
  }

  /** Within one property, control names tell locales apart. */
  lemma {:induction false} ControlNameInjective(path: string, a: LocaleIdentifier, b: LocaleIdentifier)
    ensures ControlName(path, a) == ControlName(path, b) ==> a == b
  {
    var prefix := TextControlNamePrefix + "@" + path + "-";
    assert ControlName(path, a) == prefix + a.code;
    assert ControlName(path, b) == prefix + b.code;
    assert (prefix + a.code)[|prefix|..] == a.code;
    assert (prefix + b.code)[|prefix|..] == b.code;
  }

  // ------------------------------------------------------------- fan-out

  /** A preview locale a translation is requested for: defined, with a
      table, and not the locale translated from. */
  predicate IsTarget(locale: LocaleIdentifier, source: LocaleIdentifier, available: set<LocaleIdentifier>) {
    locale != DefaultLocale && locale in available && locale != source
  }

  /** The target locales, in preview order. */
  function Targets(locales: seq<LocaleIdentifier>, source: LocaleIdentifier, available: set<LocaleIdentifier>): (r: seq<LocaleIdentifier>)
    ensures forall l :: l in r <==> l in locales && IsTarget(l, source, available)
  {
    if locales == [] then []
    else (if IsTarget(locales[0], source, available) then [locales[0]] else [])
         + Targets(locales[1..], source, available)
  }

  /** What "Translate in other language" leaves behind: the pending map, the
      locales a request was sent for, and whether `Dictionary.Add` threw. */
  datatype FanOut = FanOut(pending: Pending, requested: seq<LocaleIdentifier>, threw: bool)

  /** The fan-out loop: each target gets a waiting entry and a request; the
      first target whose field already has an entry makes `Add` throw, which
      ends the loop with the earlier entries and requests in place. */
  function FanOutFrom(pending: Pending, path: string, locales: seq<LocaleIdentifier>,
                      source: LocaleIdentifier, available: set<LocaleIdentifier>): FanOut
    decreases |locales|
  {
    if locales == [] then FanOut(pending, [], false)
    else if !IsTarget(locales[0], source, available) then
      FanOutFrom(pending, path, locales[1..], source, available)
    else
      var name := ControlName(path, locales[0]);
      if name in pending then FanOut(pending, [], true)
      else
        var rest := FanOutFrom(pending[name := None], path, locales[1..], source, available);
        FanOut(rest.pending, [locales[0]] + rest.requested, rest.threw)
  }

  /** The fan-out only adds waiting entries for targets: existing entries
      keep their values, the source locale is never requested, and every new
      name is a target's. */
  lemma {:induction false} FanOutOnlyAddsTargets(pending: Pending, path: string, locales: seq<LocaleIdentifier>,
                                                 source: LocaleIdentifier, available: set<LocaleIdentifier>)
    ensures var r := FanOutFrom(pending, path, locales, source, available);
      && (forall n :: n in pending ==> n in r.pending && r.pending[n] == pending[n])
      && (forall n :: n in r.pending && n !in pending ==>
            r.pending[n] == None && exists l :: l in r.requested && n == ControlName(path, l))
      && (forall l :: l in r.requested ==> l in locales && IsTarget(l, source, available))
      && source !in r.requested
    decreases |locales|
  {
    if locales != [] {
      var l := locales[0];
      FanOutOnlyAddsTargets(pending, path, locales[1..], source, available);
      if IsTarget(l, source, available) {
        var name := ControlName(path, l);
        if name !in pending {
          FanOutOnlyAddsTargets(pending[name := None], path, locales[1..], source, available);
        }
      }
    }
  }

  /** When no target's field has an entry and no target is listed twice,
      nothing throws: every target gets a waiting entry and a request, in
      preview order. */
  lemma {:induction false} FanOutFresh(pending: Pending, path: string, locales: seq<LocaleIdentifier>,
                                       source: LocaleIdentifier, available: set<LocaleIdentifier>)
    requires forall l :: l in locales && IsTarget(l, source, available) ==> ControlName(path, l) !in pending
    requires forall i, j :: 0 <= i < j < |locales|
               && IsTarget(locales[i], source, available) && IsTarget(locales[j], source, available)
               ==> locales[i] != locales[j]
    ensures var r := FanOutFrom(pending, path, locales, source, available);
      && !r.threw
      && r.requested == Targets(locales, source, available)
      && forall l :: l in locales && IsTarget(l, source, available) ==>
           ControlName(path, l) in r.pending && r.pending[ControlName(path, l)] == None
    decreases |locales|
  {
    if locales != [] {
      var l := locales[0];
      var tail := locales[1..];
      assert forall i, j :: 0 <= i < j < |tail| ==> tail[i] == locales[i + 1] && tail[j] == locales[j + 1];
      if IsTarget(l, source, available) {
        var name := ControlName(path, l);
        forall m | m in tail && IsTarget(m, source, available) ensures ControlName(path, m) != name {
          var j :| 0 <= j < |tail| && tail[j] == m;
          assert locales[j + 1] == m;
          ControlNameInjective(path, m, l);
        }
        FanOutFresh(pending[name := None], path, tail, source, available);
        FanOutOnlyAddsTargets(pending[name := None], path, tail, source, available);
      } else {
        FanOutFresh(pending, path, tail, source, available);
      }
    }
  }

  /** One call of `OllamaWrapper.RequestTranslation`: the text to translate,
      the locale whose language it is translated into, and the control name
      the completion callback stores its result under. */
  datatype TranslationRequest = TranslationRequest(text: string, target: LocaleIdentifier, controlName: string)

  /** The requests sent for the requested locales, each carrying `text`. */
  function RequestsFor(path: string, text: string, locales: seq<LocaleIdentifier>): (r: seq<TranslationRequest>)
    ensures |r| == |locales|
    ensures forall k :: 0 <= k < |r| ==> r[k].text == text && r[k].target == locales[k]
                                         && r[k].controlName == ControlName(path, locales[k])
  {
    seq(|locales|, k requires 0 <= k < |locales| => TranslationRequest(text, locales[k], ControlName(path, locales[k])))
  }

  /** Translating again while a target's field still has an entry throws. */
  lemma {:induction false} FanOutThrowsOnExisting(pending: Pending, path: string, locales: seq<LocaleIdentifier>,
                                                  source: LocaleIdentifier, available: set<LocaleIdentifier>, l: LocaleIdentifier)
    requires l in locales && IsTarget(l, source, available) && ControlName(path, l) in pending
    ensures FanOutFrom(pending, path, locales, source, available).threw
    decreases |locales|
  {
    var first := locales[0];
    if first != l {
      assert l in locales[1..];
      if IsTarget(first, source, available) {
        var name := ControlName(path, first);
        if name !in pending {
          FanOutThrowsOnExisting(pending[name := None], path, locales[1..], source, available, l);
        }
      } else {
        FanOutThrowsOnExisting(pending, path, locales[1..], source, available, l);
      }
    }
  }

  // --------------------------------------------------------- one frame

  /** The buttons under a pending field. */
  datatype Click = NoClick | CancelClick | AcceptClick

  /** The table entry for the locale: none because the field has no shared
      entry (key), none although it has one, or an entry with its text. */
  datatype EntryState = NoSharedEntry | SharedOnly | Entry(value: string)

  /** What the GUI reports while one locale's field is drawn. */
  datatype FrameInput = FrameInput(
    tableAvailable: bool,  // the locale has a string table
    entry: EntryState,
    focused: bool,         // the field has keyboard focus
    cursor: Option<int>,   // the focused text editor's cursor, if there is an editor
    edit: Option<string>,  // the text the user typed this frame, if any
    click: Click,
    keyCreated: bool)      // what the key solver's TryCreateUniqueKey answers

  /** How the table is written at the end of the frame. */
  datatype Write =
    | NoWrite
    | SetEntry(text: string)           // the existing entry gets the text
    | CreateEntry(text: string)        // an entry is created for the shared key
    | CreateKeyAndEntry(text: string)  // a new key is generated, then the entry
    | KeyNotCreated                    // the key solver could not make a key

  /** The outcome of drawing one locale's field. */
  datatype Frame =
    | Skipped   // the locale has no table
    | Aborted   // `String.Insert` threw: the cursor is outside the text
    | Drawn(shown: string, readOnly: bool, selectIndex: Option<int>, pending: Pending,
            snippet: string, write: Write, recordVersion: bool)

  /** The text in the field before any snippet is inserted: the pending
      result, "translating..." while waiting, or the entry's text. */
  function BaseText(pending: Pending, name: string, entry: EntryState): string {
    if name in pending then
      match pending[name]
      case Some(res) => res.result
      case None => TranslatingLabel
    else if entry.Entry? then entry.value
    else ""
  }

  /** A queued snippet goes into the focused field that has an editor. */
  predicate InsertsSnippet(snippet: string, input: FrameInput) {
    snippet != "" && input.focused && input.cursor.Some?
  }

  /** Accept is enabled only on an arrived, successful result. */
  predicate AcceptEnabled(pending: Pending, name: string) {
    name in pending && pending[name].Some? && pending[name].value.success
  }

  /** The click removes the field's pending entry: Cancel, or an enabled
      Accept. */
  predicate ClosesPending(pending: Pending, name: string, click: Click) {
    name in pending && (click == CancelClick || (click == AcceptClick && AcceptEnabled(pending, name)))
  }

  /** `DrawLocale`: what is shown, whether it is editable, how the pending
      map and the queued snippet change, and what is written. */
  function Render(pending: Pending, snippet: string, name: string, input: FrameInput): Frame
  {
    if !input.tableAvailable then Skipped
    else
      var waiting := name in pending;
      var oldText := BaseText(pending, name, input.entry);
      var insert := InsertsSnippet(snippet, input);
      if insert && !(0 <= input.cursor.value <= |oldText|) then Aborted
      else
        var shown := if insert then Insert(oldText, input.cursor.value, snippet) else oldText;
        var newText := if !waiting && input.edit.Some? then input.edit.value else shown;
        var cancelled := waiting && input.click == CancelClick;
        var accepted := input.click == AcceptClick && AcceptEnabled(pending, name);
        var canWrite := !waiting || accepted;
        var changed := (!waiting && input.edit.Some?) || cancelled || accepted;
        var write :=
          if !canWrite || (!changed && !insert) then NoWrite
          else if input.entry.Entry? then SetEntry(newText)
          else if input.entry.SharedOnly? then CreateEntry(newText)
          else if input.keyCreated then CreateKeyAndEntry(newText)
          else KeyNotCreated;
        Drawn(shown, waiting,
              if insert then Some(input.cursor.value + |snippet|) else None,
              if cancelled || accepted then pending - {name} else pending,
              if insert then "" else snippet,
              write,
              write.CreateKeyAndEntry? || write.KeyNotCreated?)
  }

  /** Nothing is drawn without a table; a snippet insertion at a cursor
      outside the text throws before anything changes. */
  lemma {:induction false} RenderSkipsOrAborts(pending: Pending, snippet: string, name: string, input: FrameInput)
    ensures var r := Render(pending, snippet, name, input);
      && (r.Skipped? <==> !input.tableAvailable)
      && (r.Aborted? <==> input.tableAvailable && InsertsSnippet(snippet, input)
                          && !(0 <= input.cursor.value <= |BaseText(pending, name, input.entry)|))
  {
  }

  /** A field with a pending translation is read-only and shows the result,
      or "translating..." while waiting; otherwise it is editable and shows
      the entry's text. */
  lemma {:induction false} RenderShowsPending(pending: Pending, snippet: string, name: string, input: FrameInput)
    requires Render(pending, snippet, name, input).Drawn? && !InsertsSnippet(snippet, input)
    ensures var r := Render(pending, snippet, name, input);
      && (r.readOnly <==> name in pending)
      && (name in pending && pending[name].None? ==> r.shown == TranslatingLabel)
      && (name in pending && pending[name].Some? ==> r.shown == pending[name].value.result)
      && (name !in pending && input.entry.Entry? ==> r.shown == input.entry.value)
      && (name !in pending && !input.entry.Entry? ==> r.shown == "")
      && r.selectIndex == None && r.snippet == snippet
  {
  }

  /** A queued snippet goes in at the cursor of the focused field, the
      selection moves to its end, and the queue is emptied, so it is applied
      at most once. */
  lemma {:induction false} RenderInsertsSnippet(pending: Pending, snippet: string, name: string, input: FrameInput)
    requires Render(pending, snippet, name, input).Drawn? && InsertsSnippet(snippet, input)
    ensures var r := Render(pending, snippet, name, input);
      && r.shown == Insert(BaseText(pending, name, input.entry), input.cursor.value, snippet)
      && r.selectIndex == Some(input.cursor.value + |snippet|)
      && r.snippet == ""
      && (r.readOnly <==> name in pending)
  {
  }

  /** Only this field's entry can leave the pending map: Cancel removes it,
      Accept removes it when enabled, and nothing else changes it. */
  lemma {:induction false} RenderPendingMap(pending: Pending, snippet: string, name: string, input: FrameInput)
    requires Render(pending, snippet, name, input).Drawn?
    ensures var r := Render(pending, snippet, name, input);
      && (forall n :: n != name ==>
            (n in r.pending <==> n in pending) && (n in pending ==> r.pending[n] == pending[n]))
      && (ClosesPending(pending, name, input.click) ==> name !in r.pending)
      && (!ClosesPending(pending, name, input.click) ==> r.pending == pending)
  {
  }

  /** While a translation is pending nothing is written, not even an
      inserted snippet or after Cancel; an enabled Accept writes the shown
      result. */
  lemma {:induction false} RenderWritesPending(pending: Pending, snippet: string, name: string, input: FrameInput)
    requires Render(pending, snippet, name, input).Drawn? && name in pending
    ensures var r := Render(pending, snippet, name, input);
      && (!(input.click == AcceptClick && AcceptEnabled(pending, name)) ==> r.write == NoWrite)
      && (input.click == AcceptClick && AcceptEnabled(pending, name) ==>
            r.write != NoWrite && (r.write.KeyNotCreated? || r.write.text == r.shown))
  {
  }

  /** An editable field is written exactly when the user typed or a snippet
      was inserted, with the typed text or the text with the snippet. */
  lemma {:induction false} RenderWritesEditable(pending: Pending, snippet: string, name: string, input: FrameInput)
    requires Render(pending, snippet, name, input).Drawn? && name !in pending
    ensures var r := Render(pending, snippet, name, input);
      && (r.write == NoWrite <==> input.edit.None? && !InsertsSnippet(snippet, input))
      && (r.write != NoWrite && !r.write.KeyNotCreated? ==>
            r.write.text == if input.edit.Some? then input.edit.value else r.shown)
  {
  }

  /** The write goes to the existing entry, to a new entry for the shared
      key, or to a new key; only the last consults the key solver and records
      the settings version. */
  lemma {:induction false} RenderWriteTarget(pending: Pending, snippet: string, name: string, input: FrameInput)
    requires Render(pending, snippet, name, input).Drawn?
    ensures var r := Render(pending, snippet, name, input);
      && (r.write != NoWrite ==>
            && (input.entry.Entry? <==> r.write.SetEntry?)
            && (input.entry.SharedOnly? <==> r.write.CreateEntry?)
            && (input.entry.NoSharedEntry? ==> (r.write.CreateKeyAndEntry? <==> input.keyCreated)))
      && (r.recordVersion <==> r.write.CreateKeyAndEntry? || r.write.KeyNotCreated?)
  {
  }

  /** A result that arrives after Cancel puts the field back into the
      pending state: there is no check that the request is still wanted. */
  lemma {:induction false} LateResultAfterCancel(pending: Pending, snippet: string, name: string, input: FrameInput,
                              result: Ollama.RequestResult, next: FrameInput)
    requires name in pending && input.click == CancelClick
    requires Render(pending, snippet, name, input).Drawn?
    requires next.tableAvailable && !InsertsSnippet(Render(pending, snippet, name, input).snippet, next)
    ensures var after := Render(pending, snippet, name, input).pending[name := Some(result)];
            var r := Render(after, Render(pending, snippet, name, input).snippet, name, next);
            r.Drawn? && r.readOnly && r.shown == result.result
  {
  }

  /** Accepting a successful translation into an existing entry writes the
      translated text and clears the pending state. */
  lemma {:induction false} AcceptWritesTranslation(pending: Pending, name: string, input: FrameInput, result: Ollama.RequestResult)
    requires name in pending && pending[name] == Some(result) && result.success
    requires input.tableAvailable && input.entry.Entry? && input.click == AcceptClick
    ensures var r := Render(pending, "", name, input);
            r.Drawn? && r.write == SetEntry(result.result) && name !in r.pending
  {
  }

  // --------------------------------------------------------- the drawer

  class AutoKeyUi {
    /** `InspectorProperty.Path` of the drawn field. */
    const path: string
    var tableCollections: seq<TableCollection>
    var collectionLabels: seq<string>
    var settingsVersionOnPrevKeySolverRun: int
    var snippetToInsert: string
    var mode: AutoKeyUiMode
    var pendingTranslations: Pending

    /** The initial tab comes from the attribute; the table list is read
        once. */
    constructor(path: string, isDefaultTabAuto: bool, collections: seq<TableCollection>)
      ensures this.path == path
      ensures mode == (if isDefaultTabAuto then Auto else Manual)
      ensures tableCollections == collections && collectionLabels == Labels(collections)
      ensures settingsVersionOnPrevKeySolverRun == -1 && snippetToInsert == ""
      ensures pendingTranslations == map[]
    {
      this.path := path;
      mode := if isDefaultTabAuto then Auto else Manual;
      tableCollections := collections;
      collectionLabels := Labels(collections);
      settingsVersionOnPrevKeySolverRun := -1;
      snippetToInsert := "";
      pendingTranslations := map[];
    }

    /** The labels always follow the collections: "None" first. */
    ghost predicate Valid()
      reads this
    {
      collectionLabels == Labels(tableCollections)
    }

    method UpdateTablesList(collections: seq<TableCollection>)
      modifies this
      ensures tableCollections == collections && collectionLabels == Labels(collections)
      ensures Valid()
      ensures settingsVersionOnPrevKeySolverRun == old(settingsVersionOnPrevKeySolverRun)
      ensures snippetToInsert == old(snippetToInsert) && mode == old(mode)
      ensures pendingTranslations == old(pendingTranslations)
    {
      tableCollections := collections;
      collectionLabels := Labels(collections);
    }

    /** The tab picked in the mode toolbar becomes the mode. */
    method DrawModeSelector(selectedTab: AutoKeyUiMode) returns (m: AutoKeyUiMode)
      modifies this
      ensures m == selectedTab && mode == selectedTab
      ensures tableCollections == old(tableCollections) && collectionLabels == old(collectionLabels)
      ensures settingsVersionOnPrevKeySolverRun == old(settingsVersionOnPrevKeySolverRun)
      ensures snippetToInsert == old(snippetToInsert)
      ensures pendingTranslations == old(pendingTranslations)
    {
      mode := selectedTab;
      m := mode;
    }

    /** The popup entry of the current collection, found by a linear scan. */
    method CurrentPopupIndex(current: Option<TableCollection>) returns (index: nat)
      ensures index == PopupIndex(tableCollections, current)
      ensures index > 0 ==> current == Some(tableCollections[index - 1])
    {
      index := 0;
      if current.Some? {
        var i := 0;
        while i < |tableCollections|
          invariant 0 <= i <= |tableCollections|
          invariant current.value !in tableCollections[..i]
        {
          if tableCollections[i] == current.value {
            index := i + 1;
            var r := Position(tableCollections, current.value);
            assert r > 0 && tableCollections[r - 1] == current.value;
            assert forall j :: 0 <= j < i ==> tableCollections[..i][j] == tableCollections[j];
            assert forall j :: 0 <= j < r - 1 ==> tableCollections[..r - 1][j] == tableCollections[j];
            return;
          }
          i := i + 1;
        }
        assert tableCollections[..i] == tableCollections;
      }
    }

    /** `DrawTablePopup`: the collection picked in the popup, and whether
        the field's collection is set to it (only when the entry changed). */
    method DrawTablePopup(current: Option<TableCollection>, newIndex: int)
      returns (setCollection: bool, newCollection: Option<TableCollection>)
      requires Valid() && newIndex < |collectionLabels|
      ensures newCollection == SelectedCollection(tableCollections, newIndex)
      ensures newCollection.Some? ==> collectionLabels[newIndex] == newCollection.value.name
      ensures setCollection <==> newIndex != PopupIndex(tableCollections, current)
    {
      var prevIndex := CurrentPopupIndex(current);
      newCollection := if newIndex <= 0 then None else Some(tableCollections[newIndex - 1]);
      setCollection := newIndex != prevIndex;
    }

    /** A snippet picked from the Snippets menu is queued for the next draw
        of the focused field. */
    method QueueSnippet(snippet: string)
      modifies this
      ensures snippetToInsert == snippet
      ensures tableCollections == old(tableCollections) && collectionLabels == old(collectionLabels)
      ensures settingsVersionOnPrevKeySolverRun == old(settingsVersionOnPrevKeySolverRun)
      ensures mode == old(mode) && pendingTranslations == old(pendingTranslations)
    {
      snippetToInsert := snippet;
    }

    /** "Translate in other language" pressed on the field of `locale`,
        whose table entry holds `entry` (none without a key or an entry):
        nothing happens without an entry; otherwise the fan-out loop sends
        the entry's stored text to every target. */
    method StartTranslate(locale: LocaleIdentifier, entry: Option<string>,
                          previewLocales: seq<LocaleIdentifier>, available: set<LocaleIdentifier>)
      returns (requests: seq<TranslationRequest>, threw: bool)
      modifies this
      ensures entry.None? ==> pendingTranslations == old(pendingTranslations) && requests == [] && !threw
      ensures entry.Some? ==>
                var r := FanOutFrom(old(pendingTranslations), path, previewLocales, locale, available);
                && pendingTranslations == r.pending && threw == r.threw
                && requests == RequestsFor(path, entry.value, r.requested)
      ensures forall k :: 0 <= k < |requests| ==> entry.Some? && requests[k].text == entry.value
      ensures tableCollections == old(tableCollections) && collectionLabels == old(collectionLabels)
      ensures settingsVersionOnPrevKeySolverRun == old(settingsVersionOnPrevKeySolverRun)
      ensures snippetToInsert == old(snippetToInsert) && mode == old(mode)
    {
      requests := [];
      threw := false;
      if entry.None? {
        return;
      }
      ghost var requested: seq<LocaleIdentifier> := [];
      var i := 0;
      while i < |previewLocales|
        invariant 0 <= i <= |previewLocales|
        invariant var rest := FanOutFrom(pendingTranslations, path, previewLocales[i..], locale, available);
          FanOutFrom(old(pendingTranslations), path, previewLocales, locale, available)
          == FanOut(rest.pending, requested + rest.requested, rest.threw)
        invariant requests == RequestsFor(path, entry.value, requested)
        invariant tableCollections == old(tableCollections) && collectionLabels == old(collectionLabels)
        invariant settingsVersionOnPrevKeySolverRun == old(settingsVersionOnPrevKeySolverRun)
        invariant snippetToInsert == old(snippetToInsert) && mode == old(mode)
      {
        var other := previewLocales[i];
        assert previewLocales[i..][0] == other && previewLocales[i..][1..] == previewLocales[i + 1..];
        if other != DefaultLocale && other in available && other != locale {
          var controlName := ControlName(path, other);
          if controlName in pendingTranslations {
            threw := true;
            return;
          }
          pendingTranslations := pendingTranslations[controlName := None];
          requests := requests + [TranslationRequest(entry.value, other, controlName)];
          requested := requested + [other];
        }
        i := i + 1;
      }
    }

    /** The completion callback stores the result, whether or not the entry
        is still there. */
    method OnTranslationComplete(controlName: string, result: Ollama.RequestResult)
      modifies this
      ensures pendingTranslations == old(pendingTranslations)[controlName := Some(result)]
      ensures tableCollections == old(tableCollections) && collectionLabels == old(collectionLabels)
      ensures settingsVersionOnPrevKeySolverRun == old(settingsVersionOnPrevKeySolverRun)
      ensures snippetToInsert == old(snippetToInsert) && mode == old(mode)
    {
      pendingTranslations := pendingTranslations[controlName := Some(result)];
    }

    /** `DrawLocale` for one locale; `version` is the settings version read
        when a key has to be generated. */
    method DrawLocale(locale: LocaleIdentifier, input: FrameInput, version: int) returns (frame: Frame)
      modifies this
      ensures frame == Render(old(pendingTranslations), old(snippetToInsert), ControlName(path, locale), input)
      ensures frame.Drawn? ==> pendingTranslations == frame.pending && snippetToInsert == frame.snippet
      ensures !frame.Drawn? ==> pendingTranslations == old(pendingTranslations)
                                && snippetToInsert == old(snippetToInsert)
      ensures settingsVersionOnPrevKeySolverRun ==
                if frame.Drawn? && frame.recordVersion then version else old(settingsVersionOnPrevKeySolverRun)
      ensures tableCollections == old(tableCollections) && collectionLabels == old(collectionLabels)
      ensures mode == old(mode)
    {
      if !input.tableAvailable {
        return Skipped;
      }
      var name := ControlName(path, locale);
      var canWriteChange := true;
      var oldText := if input.entry.Entry? then input.entry.value else "";
      var hasPending := name in pendingTranslations;
      var pendingTranslation: Option<Ollama.RequestResult> := None;
      if hasPending {
        pendingTranslation := pendingTranslations[name];
        canWriteChange := false;
        oldText := if pendingTranslation.Some? then pendingTranslation.value.result else TranslatingLabel;
      }

      var hasInsertedSnippet := false;
      var selectIndex: Option<int> := None;
      if snippetToInsert != "" && input.focused && input.cursor.Some? {
        var cursorIndex := input.cursor.value;
        if !(0 <= cursorIndex <= |oldText|) {
          return Aborted;
        }
        oldText := Insert(oldText, cursorIndex, snippetToInsert);
        selectIndex := Some(cursorIndex + |snippetToInsert|);
        snippetToInsert := "";
        hasInsertedSnippet := true;
      }

      var readOnly := !canWriteChange;
      var newText := if canWriteChange && input.edit.Some? then input.edit.value else oldText;
      var changed := canWriteChange && input.edit.Some?;

      // The buttons are drawn only under a pending field; a click marks
      // the GUI as changed, and Accept is enabled only on a successful result.
      var cancelled := hasPending && input.click == CancelClick;
      var accepted := hasPending && input.click == AcceptClick
                      && pendingTranslation.Some? && pendingTranslation.value.success;
      if cancelled || accepted {
        pendingTranslations := pendingTranslations - {name};
      }
      canWriteChange := canWriteChange || accepted;
      changed := changed || cancelled || accepted;

      var write := NoWrite;
      if canWriteChange && (changed || hasInsertedSnippet) {
        write := if input.entry.Entry? then SetEntry(newText)
                 else if input.entry.SharedOnly? then CreateEntry(newText)
                 else KeyNotCreated;
        if write.KeyNotCreated? {
          // Neither an entry nor a key: a new unique key is generated first.
          var created := TryCreateUniqueLocalizationKey(version, true, input.keyCreated);
          if created {
            write := CreateKeyAndEntry(newText);
          }
        }
      }
      frame := Drawn(oldText, readOnly, selectIndex, pendingTranslations, snippetToInsert,
                     write, write.CreateKeyAndEntry? || write.KeyNotCreated?);
    }

    /** `Update`: the key solver re-checks the field only when the settings
        version differs from the one it last ran against. */
    method CheckForErrors(version: int) returns (ran: bool)
      modifies this
      ensures ran <==> old(settingsVersionOnPrevKeySolverRun) != version
      ensures settingsVersionOnPrevKeySolverRun == version
      ensures tableCollections == old(tableCollections) && collectionLabels == old(collectionLabels)
      ensures snippetToInsert == old(snippetToInsert) && mode == old(mode)
      ensures pendingTranslations == old(pendingTranslations)
    {
      if settingsVersionOnPrevKeySolverRun == version {
        return false;
      }
      settingsVersionOnPrevKeySolverRun := version;
      ran := true;
    }

    /** "Find": a key is made from the format; the version is recorded, so
        the next `Update` does not re-run the solver. */
    method TryCreateLocalizationKey(version: int, solverSucceeded: bool) returns (ok: bool)
      modifies this
      ensures ok == solverSucceeded
      ensures settingsVersionOnPrevKeySolverRun == version
      ensures tableCollections == old(tableCollections) && collectionLabels == old(collectionLabels)
      ensures snippetToInsert == old(snippetToInsert) && mode == old(mode)
      ensures pendingTranslations == old(pendingTranslations)
    {
      settingsVersionOnPrevKeySolverRun := version;
      ok := solverSucceeded;
    }

    /** A unique key for a table; without shared table data nothing is
        tried and nothing recorded. */
    method TryCreateUniqueLocalizationKey(version: int, hasSharedData: bool, solverSucceeded: bool) returns (ok: bool)
      modifies this
      ensures ok == (hasSharedData && solverSucceeded)
      ensures settingsVersionOnPrevKeySolverRun ==
                if hasSharedData then version else old(settingsVersionOnPrevKeySolverRun)
      ensures tableCollections == old(tableCollections) && collectionLabels == old(collectionLabels)
      ensures snippetToInsert == old(snippetToInsert) && mode == old(mode)
      ensures pendingTranslations == old(pendingTranslations)
    {
      if !hasSharedData {
        return false;
      }
      settingsVersionOnPrevKeySolverRun := version;
      ok := solverSucceeded;
    }
  }
}
