# Localization Key Generator — editor core in Dafny

A model of three parts of the Unity editor extension `Dino.LocalizationKeyGenerator`:

- the Ollama translation wrapper, which fills the prompt template, posts the request, and cleans the model's reply into a `RequestResult`;
- the `AutoKeyUi` inspector drawer, which covers:
  - the table popup;
  - the snippet queue;
  - the "Translate in other language" fan-out that fills the pending-translation map;
  - drawing one locale's text field with its Cancel / Accept buttons and the write-back to the string table;
  - the settings-version cache in front of the key solver;
- `LocalizationKeyGeneratorSettings`: rebuilding the parameter dictionary from its serialised pairs, snippet-collection lookup, `Reset` and `OnValidate`.

Files:

- `Wrappers.dfy` — `Option`, which stands for a nullable reference.
- `Text.dfy` — the .NET string operations the code relies on: `char.IsWhiteSpace`, `Trim`, ordinal `IndexOf` and `StartsWith`, `Replace` and `Insert`. Each is a function, and lemmas characterise it completely.
- `Ollama.dfy` — `OllamaWrapper.RequestTranslation` as a pure function. The awaited HTTP exchange is an `Outcome` input: a response with a status and a `response` field, or an exception message. A prompt template is also read as a sequence of literal text and `{{name}}` placeholders, and `BuildPrompt` is proved to do on it what the reference function `Instantiate` says.
- `DefaultPrompt.dfy` — the translation prompt a new `OllamaSettings` carries (Editor/Ollama/OllamaSettings.cs:9), and what `BuildPrompt` makes of it.
- `Settings.dfy` — `GroupBy(OrdinalIgnoreCase)` followed by `ToDictionary`, specified against an independent "matching pairs" definition. Also the two settings classes.
- `AutoKeyUi.dfy` — the drawer as a class whose fields are the C# fields. Unity GUI input for one frame (focus, cursor, the typed text, the button clicked, what the key solver answers) is a `FrameInput` value. `DrawLocale` is proved equal to the specification function `Render`, and lemmas about `Render` state what a frame does.

Behaviour of the code worth noting:

- `Replace` is applied twice in sequence (`{{language}}`, then `{{text}}`). So a `{{text}}` inside the language name is expanded (`BuildPromptExpandsTextInLanguage`). A `{{language}}` inside the text is not (`BuildPromptKeepsTextVerbatim`).
- Only those two placeholders are substituted; any other `{{name}}` stays as written (`BuildPromptLeavesOtherPlaceholders`). The default template names the languages `{{target_language}}` and `{{source_language}}`, so both reach the model unchanged and the target language is never inserted (`DefaultPromptFilled`).
- Only one leading `=>` is removed. A bare leading `>` is kept (`SanitizeKeepsLoneChevron`), and a second `=>` survives (`SanitizeStripsArrowOnce`).
- Failures carry only the HTTP status name or the exception message.
- The completion callback stores its result without checking that the field is still waiting. A result that arrives after Cancel makes the field pending again (`LateResultAfterCancel`).
- Starting a translation while a target field is still pending makes `Dictionary.Add` throw, which ends the fan-out part-way (`FanOutThrowsOnExisting`).
- The "Spell Check" button has no action.

## Model

| member | source | states |
|---|---|---|
| Text.IsWhiteSpace | Editor/Ollama/OllamaWrapper.cs:56-58 | the characters `char.IsWhiteSpace` accepts, which `Trim` removes: categories Zs, Zl, Zp and U+0009–U+000D, U+0085 |
| Text.Trim | Editor/Ollama/OllamaWrapper.cs:56-58 | `String.Trim` leaves no white space at either end and never lengthens the string |
| Text.TrimIsInnerPart | Editor/Ollama/OllamaWrapper.cs:56-58 | the trimmed string is a slice of the input with only white space before and after it |
| Text.TrimUnique | Editor/Ollama/OllamaWrapper.cs:56-58 | conversely, any split into a white-space prefix, a part without white space at its ends and a white-space suffix is the one Trim makes |
| Text.TrimOfTrimmed | Editor/Ollama/OllamaWrapper.cs:63 | a string without white space at its ends is its own trim |
| Text.TrimDropsLeadingWhiteSpace | Editor/Ollama/OllamaWrapper.cs:56-58 | a white-space character in front does not change the trim |
| Text.TrimIdempotent | Editor/Ollama/OllamaWrapper.cs:63 | trimming twice is trimming once |
| Text.NoMatchWithoutFirstChar | Editor/Ollama/OllamaWrapper.cs:54 | a pattern cannot occur where its first character is absent |
| Text.IndexOf | Editor/Ollama/OllamaWrapper.cs:54 | ordinal `IndexOf` returns -1 or an index at which the whole pattern fits; `IndexOfFinds` pins it down |
| Text.IndexOfFinds | Editor/Ollama/OllamaWrapper.cs:54 | `IndexOf` returns the first index where the pattern occurs, and -1 exactly when it occurs nowhere |
| Text.StartsWith | Editor/Ollama/OllamaWrapper.cs:62 | ordinal `StartsWith`: the pattern is a prefix of the string |
| Text.ReplaceAll | Editor/Ollama/OllamaWrapper.cs:30-32 | `String.Replace`: every occurrence, found left to right without overlap, is replaced, and the inserted text is not searched again; its behaviour is pinned down by the two lemmas below |
| Text.ReplaceAllAbsent | Editor/Ollama/OllamaWrapper.cs:30-32 | `Replace` leaves a string without the pattern unchanged |
| Text.ReplaceAllAtFirst | Editor/Ollama/OllamaWrapper.cs:30-32 | `Replace` keeps the text before the first occurrence, emits the replacement, and resumes after the occurrence |
| Text.ReplaceAllConcat | Editor/Ollama/OllamaWrapper.cs:30-32 | `Replace` works piecewise on a concatenation that no occurrence straddles |
| Text.Insert | Editor/UI/AutoKeyUi.cs:297 | `String.Insert` keeps the prefix, places the value at the index, then keeps the rest |
| Ollama.BuildPrompt | Editor/Ollama/OllamaWrapper.cs:30-32 | the template with every `{{language}}` replaced by the target language and then every `{{text}}` replaced by the text; its properties are the lemmas below |
| Ollama.Instantiate | Editor/Ollama/OllamaWrapper.cs:30-32 | the reference meaning of a template read as literals and placeholders: `{{language}}` becomes the language, `{{text}}` the text, any other placeholder stays |
| Ollama.BuildPromptInstantiates | Editor/Ollama/OllamaWrapper.cs:30-32 | on every well-formed template (literal text without `{`, placeholder names without braces) whose language value holds no `{`, `BuildPrompt` gives exactly `Instantiate`; a template with a lone brace, such as a SmartFormat `{0}`, is outside this lemma |
| Ollama.ReplaceAllJoin | Editor/Ollama/OllamaWrapper.cs:31 | one `Replace` of a placeholder over a well-formed template replaces exactly the segments that are that placeholder |
| Ollama.BuildPromptExpandsTextInLanguage | Editor/Ollama/OllamaWrapper.cs:30-32 | a `{{text}}` inside the target-language value is expanded, because the two replacements are sequential |
| Ollama.BuildPromptKeepsTextVerbatim | Editor/Ollama/OllamaWrapper.cs:30-32 | in a template `prefix {{text}} suffix` whose prefix and suffix hold no `{`, the text is inserted verbatim, placeholders inside it included, and the literal text around it is kept |
| Ollama.BuildPromptWithoutPlaceholders | Editor/Ollama/OllamaWrapper.cs:30-32 | a template without either placeholder is sent unchanged |
| Ollama.PlaceholderMatchesOnlyItself | Editor/Ollama/OllamaWrapper.cs:30-32 | one `{{name}}` placeholder occurs inside another only when the names are equal |
| Ollama.BuildPromptLeavesOtherPlaceholders | Editor/Ollama/OllamaWrapper.cs:30-32 | in a template `prefix {{name}} suffix` whose prefix and suffix hold no `{`, any placeholder other than `{{language}}` and `{{text}}` is left verbatim with the text around it |
| DefaultPrompt.TwoLanguageTemplateFilled | Editor/Ollama/OllamaWrapper.cs:30-32 | a template shaped like the default one, with `{{target_language}}`, `{{source_language}}` and a final `{{text}}`, gets only the text inserted |
| DefaultPrompt.DefaultPromptFilled | Editor/Ollama/OllamaSettings.cs:9 | the default template yields its instruction with both language placeholders as written, followed by the text right after the final `=>` |
| DefaultPrompt.DefaultPromptKeepsLanguagePlaceholders | Editor/Ollama/OllamaSettings.cs:9 | the prompt built from the default template still holds `{{target_language}}` and `{{source_language}}` where the template has them |
| DefaultPrompt.TailBraceFree | Editor/Ollama/OllamaSettings.cs:9 | the default instruction before the text holds no placeholder and ends with the `=>` marker |
| Ollama.BuildRequest | Editor/Ollama/OllamaWrapper.cs:34-39 | the request body: the configured model, the filled prompt, `stream = false`, `keep_alive = "15m"` |
| Ollama.AfterThink | Editor/Ollama/OllamaWrapper.cs:52-59 | the reply after its first `</think>`, or the whole reply, trimmed |
| Ollama.StripArrow | Editor/Ollama/OllamaWrapper.cs:61-64 | one leading `=>` removed and the rest trimmed again |
| Ollama.Sanitize | Editor/Ollama/OllamaWrapper.cs:52-64 | the cleaned reply has no white space at either end |
| Ollama.SanitizeAfterFirstThink | Editor/Ollama/OllamaWrapper.cs:54-56 | with a first `</think>` at index i, only the trimmed text after that marker is kept |
| Ollama.SanitizeWithoutThink | Editor/Ollama/OllamaWrapper.cs:57-64 | without `</think>` the reply is trimmed, then loses a leading `=>`; without `=>` it is only trimmed |
| Ollama.SanitizeLeadingArrow | Editor/Ollama/OllamaWrapper.cs:61-64 | a reply starting with `=>` and holding no `<` (so no `</think>`) loses the marker and the white space around the rest |
| Ollama.StripArrowAfterTrim | Editor/Ollama/OllamaWrapper.cs:61-64 | for any text, trimming `=>` followed by it and stripping the marker gives the trimmed text |
| Ollama.SanitizeKeepsPlainReply | Editor/Ollama/OllamaWrapper.cs:52-64 | a reply holding no `<` (so no trace), without a leading `=>` and without surrounding white space comes through unchanged |
| Ollama.SanitizeDropsReasoning | Editor/Ollama/OllamaWrapper.cs:52-56 | a reasoning trace without `</` followed by `</think>` is dropped as a whole |
| Ollama.SanitizeStripsArrowOnce | Editor/Ollama/OllamaWrapper.cs:61-64 | only one leading `=>` is removed; a second one is kept |
| Ollama.SanitizeNotIdempotent | Editor/Ollama/OllamaWrapper.cs:61-64 | cleaning an already cleaned reply can change it again |
| Ollama.SanitizeKeepsLoneChevron | Editor/Ollama/OllamaWrapper.cs:61-64 | `>` followed by a text holding no `<` and without surrounding white space comes through unchanged: a lone `>` is not the `=>` marker |
| Ollama.StripMarkedAnswer | Editor/Ollama/OllamaWrapper.cs:61-64 | the prompt's `=>` marker with spaces around it is removed, leaving the trimmed answer |
| Ollama.IsSuccessStatusCode | Editor/Ollama/OllamaWrapper.cs:46 | `IsSuccessStatusCode`: the status code is in 200–299 |
| Ollama.Classify | Editor/Ollama/OllamaWrapper.cs:46-72 | success holds exactly for a 2xx response, whose result is the cleaned reply; otherwise the result is the status name or the exception message |
| Ollama.ClassifyReplyWithTrace | Editor/Ollama/OllamaWrapper.cs:46-66 | a 2xx reply "trace `</think>` => answer" gives a successful result holding the trimmed answer |
| Ollama.RequestTranslation | Editor/Ollama/OllamaWrapper.cs:27-72 | posts to server URL + `/api/generate` with the configured model, the filled prompt, no streaming and keep-alive "15m"; the callback's result is as in Classify |
| Settings.FoldChar | Editor/Settings/LocalizationKeyGeneratorSettings.cs:87 | the upper-case mapping `OrdinalIgnoreCase` applies to one character, restricted to ASCII letters |
| Settings.Fold | Editor/Settings/LocalizationKeyGeneratorSettings.cs:87 | a key with every character folded, the form `OrdinalIgnoreCase` compares |
| Settings.SameKey | Editor/Settings/LocalizationKeyGeneratorSettings.cs:87 | two keys are equal under `StringComparer.OrdinalIgnoreCase` |
| Settings.Matching | Editor/Settings/LocalizationKeyGeneratorSettings.cs:86-88 | a group never holds more pairs than the input |
| Settings.MatchingMembers | Editor/Settings/LocalizationKeyGeneratorSettings.cs:87 | a group holds exactly the input pairs whose key matches, ignoring case |
| Settings.MatchingNone | Editor/Settings/LocalizationKeyGeneratorSettings.cs:87 | without a matching pair the group is empty |
| Settings.MatchingAppend | Editor/Settings/LocalizationKeyGeneratorSettings.cs:87 | appending a pair extends exactly the group its key matches |
| Settings.MatchingFirst | Editor/Settings/LocalizationKeyGeneratorSettings.cs:87-88 | a group's first pair, whose key names the group, is the first matching pair of the input |
| Settings.MatchingLast | Editor/Settings/LocalizationKeyGeneratorSettings.cs:88 | a group's last pair, whose value is kept, is the last matching pair of the input |
| Settings.GroupBy | Editor/Settings/LocalizationKeyGeneratorSettings.cs:87 | `GroupBy` with `OrdinalIgnoreCase`: one group per key class, keyed by its first pair's key (proved in `GroupByGroups`), in order of first appearance (proved in `GroupByOrder`) |
| Settings.AddToGroups | Editor/Settings/LocalizationKeyGeneratorSettings.cs:87 | one step of `GroupBy`: the pair joins its group or opens a new one (proved in `AddNewGroup` and `JoinGroup`) |
| Settings.FindGroup | Editor/Settings/LocalizationKeyGeneratorSettings.cs:87 | finds a group whose key matches ignoring case, or returns -1 when no group does |
| Settings.AddNewGroup | Editor/Settings/LocalizationKeyGeneratorSettings.cs:87 | a pair whose key matches no group opens a new group at the end, and the grouping invariant is kept |
| Settings.JoinGroup | Editor/Settings/LocalizationKeyGeneratorSettings.cs:87 | a pair whose key matches group i joins it, and the grouping invariant is kept |
| Settings.GroupByGroups | Editor/Settings/LocalizationKeyGeneratorSettings.cs:87 | GroupBy holds one group per case-insensitive key with exactly its pairs in order, keyed by the first pair's key, and covers every pair |
| Settings.GroupByOrder | Editor/Settings/LocalizationKeyGeneratorSettings.cs:87 | groups come in order of first appearance: for an earlier group, some pair of it comes before every pair of a later group |
| Settings.Last | Editor/Settings/LocalizationKeyGeneratorSettings.cs:88 | `g.Last()`: the last pair of a non-empty group |
| Settings.ToDictionary | Editor/Settings/LocalizationKeyGeneratorSettings.cs:88 | `ToDictionary(g => g.Key, g => g.Last().Value)`, with `None` for the exception on a repeated key or an empty group |
| Settings.ToDictionaryOfGroups | Editor/Settings/LocalizationKeyGeneratorSettings.cs:88 | non-empty groups with distinct keys give one entry per group, holding its last pair's value |
| Settings.ToDictionaryRepeatedKey | Editor/Settings/LocalizationKeyGeneratorSettings.cs:88 | a repeated key makes `ToDictionary` throw |
| Settings.ToDictionaryKeysPresent | Editor/Settings/LocalizationKeyGeneratorSettings.cs:88 | every group's key is in a dictionary that was built |
| Settings.Refreshed | Editor/Settings/LocalizationKeyGeneratorSettings.cs:86-88 | k is a key exactly when it is the spelling of the first pair matching it; its value is the last matching pair's value; one key per case-insensitive class; every pair is represented |
| Settings.RefreshedEmpty | Editor/Settings/LocalizationKeyGeneratorSettings.cs:81-88 | no pairs give an empty dictionary |
| Settings.StringDictionaryContainer.constructor | Editor/Settings/LocalizationKeyGeneratorSettings.cs:81-82 | starts with no pairs and an empty dictionary |
| Settings.StringDictionaryContainer.Refresh | Editor/Settings/LocalizationKeyGeneratorSettings.cs:86-88 | the dictionary is replaced by the refreshed dictionary of the unchanged pairs |
| Settings.FirstNamed | Editor/Settings/LocalizationKeyGeneratorSettings.cs:28 | the index of the first collection with exactly that name, or None exactly when none has it |
| Settings.LocalizationKeyGeneratorSettings.constructor | Editor/Settings/LocalizationKeyGeneratorSettings.cs:15-19 | no preview locales, key format "aa_bb", empty comment format, empty parameters and snippets |
| Settings.LocalizationKeyGeneratorSettings.GetSnippetsCollection | Editor/Settings/LocalizationKeyGeneratorSettings.cs:27-33 | the snippets of the first collection with that name; None (null) exactly when no collection has it |
| Settings.LocalizationKeyGeneratorSettings.DefaultPreviewLocales | Editor/Settings/LocalizationKeyGeneratorSettings.cs:65-71 | empty when no locale is available, otherwise exactly the first available locale |
| Settings.LocalizationKeyGeneratorSettings.Reset | Editor/Settings/LocalizationKeyGeneratorSettings.cs:65-71 | the preview locales become the default ones; nothing else changes |
| Settings.LocalizationKeyGeneratorSettings.OnValidate | Editor/Settings/LocalizationKeyGeneratorSettings.cs:73-77 | the parameters are refreshed from their pairs and the version goes up by one; nothing else changes |
| AutoKeyUi.Labels | Editor/UI/AutoKeyUi.cs:64 | "None" first, then the collection names in order |
| AutoKeyUi.Position | Editor/UI/AutoKeyUi.cs:108-116 | one plus the index of the first occurrence, or 0 exactly when the collection is absent |
| AutoKeyUi.PopupIndex | Editor/UI/AutoKeyUi.cs:108-116 | the popup entry shown for the field's collection: 0 ("None") without one, else its position |
| AutoKeyUi.SelectedCollection | Editor/UI/AutoKeyUi.cs:124 | the collection a popup entry stands for: none for entry 0, else collection k-1 |
| AutoKeyUi.PopupShowsCurrent | Editor/UI/AutoKeyUi.cs:107-124 | the popup entry of a listed current collection maps back to it and carries its name; without one it is "None" |
| AutoKeyUi.SelectionRoundTrip | Editor/UI/AutoKeyUi.cs:121-125 | without repeated collections, the entry chosen is the entry shown next time, so the collection is set only on a real change |
| AutoKeyUi.ControlName | Editor/UI/AutoKeyUi.cs:357-359 | the field's control name: prefix, `@`, property path, `-`, locale code |
| AutoKeyUi.ControlNameInjective | Editor/UI/AutoKeyUi.cs:357-359 | within one property, equal control names mean equal locale codes |
| AutoKeyUi.IsTarget | Editor/UI/AutoKeyUi.cs:237-242 | a preview locale is translated into when it is not `default`, has a table and is not the source locale |
| AutoKeyUi.Targets | Editor/UI/AutoKeyUi.cs:236-243 | exactly the preview locales that are defined, have a table and are not the source |
| AutoKeyUi.FanOutFrom | Editor/UI/AutoKeyUi.cs:236-246 | the fan-out loop as a function: each target gets a waiting entry and a request until a target already pending makes `Add` throw |
| AutoKeyUi.RequestsFor | Editor/UI/AutoKeyUi.cs:243-245 | one request per requested locale, in order, each with the same text, that locale and its control name |
| AutoKeyUi.FanOutOnlyAddsTargets | Editor/UI/AutoKeyUi.cs:236-246 | existing pending entries keep their values; every new entry is a waiting one for a requested target; the source is never requested |
| AutoKeyUi.FanOutFresh | Editor/UI/AutoKeyUi.cs:236-246 | with no target pending and no target listed twice, nothing throws, every target is requested in preview order and gets a waiting entry |
| AutoKeyUi.FanOutThrowsOnExisting | Editor/UI/AutoKeyUi.cs:243-244 | a target whose field is still pending makes `Dictionary.Add` throw |
| AutoKeyUi.BaseText | Editor/UI/AutoKeyUi.cs:278-289 | the text a field starts from: the arrived result, "translating..." while waiting, else the entry's text or "" |
| AutoKeyUi.InsertsSnippet | Editor/UI/AutoKeyUi.cs:293-295 | a queued snippet is inserted when one is queued, the field has focus and a text editor is found |
| AutoKeyUi.AcceptEnabled | Editor/UI/AutoKeyUi.cs:317 | Accept is enabled only when a result has arrived and its `success` is true |
| AutoKeyUi.ClosesPending | Editor/UI/AutoKeyUi.cs:314-319 | the field's pending entry is removed by a Cancel click, or by an Accept click while Accept is enabled |
| AutoKeyUi.Render | Editor/UI/AutoKeyUi.cs:264-355 | one frame of `DrawLocale` as a function of the pending map, the queued snippet and the GUI input; its properties are the `Render*` lemmas |
| AutoKeyUi.RenderSkipsOrAborts | Editor/UI/AutoKeyUi.cs:265-297 | nothing is drawn exactly when the locale has no table; the frame aborts exactly when a snippet would be inserted at a cursor outside the text |
| AutoKeyUi.RenderShowsPending | Editor/UI/AutoKeyUi.cs:278-289 | a pending field is read-only and shows the result, or "translating..." while waiting; otherwise it shows the entry's text or "" |
| AutoKeyUi.RenderInsertsSnippet | Editor/UI/AutoKeyUi.cs:291-305 | a queued snippet goes in at the cursor, the selection moves to its end, and the queue empties |
| AutoKeyUi.RenderPendingMap | Editor/UI/AutoKeyUi.cs:311-324 | only this field's entry can leave the map: by Cancel, or by Accept on a successful result; nothing else changes |
| AutoKeyUi.RenderWritesPending | Editor/UI/AutoKeyUi.cs:311-337 | a pending field is written only on an enabled Accept, and then with the shown result |
| AutoKeyUi.RenderWritesEditable | Editor/UI/AutoKeyUi.cs:307-337 | an editable field is written exactly when the user typed or a snippet was inserted, with that text |
| AutoKeyUi.RenderWriteTarget | Editor/UI/AutoKeyUi.cs:336-352 | the write goes to the existing entry, to a new entry for the shared key, or to a new key if the solver makes one; only the last records the settings version |
| AutoKeyUi.LateResultAfterCancel | Editor/UI/AutoKeyUi.cs:254-255 | a result arriving after Cancel makes the field pending and read-only again, showing that result |
| AutoKeyUi.AcceptWritesTranslation | Editor/UI/AutoKeyUi.cs:317-337 | accepting a successful translation into an existing entry writes the translated text and clears the pending state |
| AutoKeyUi.AutoKeyUi.constructor | Editor/UI/AutoKeyUi.cs:32-65 | mode from the attribute, table list and labels read, version -1, no snippet, nothing pending |
| AutoKeyUi.AutoKeyUi.UpdateTablesList | Editor/UI/AutoKeyUi.cs:62-65 | collections replaced and labels rebuilt from them; nothing else changes |
| AutoKeyUi.AutoKeyUi.DrawModeSelector | Editor/UI/AutoKeyUi.cs:71-80 | the tab picked becomes the mode and is returned |
| AutoKeyUi.AutoKeyUi.CurrentPopupIndex | Editor/UI/AutoKeyUi.cs:108-116 | the linear scan returns the popup entry of the current collection |
| AutoKeyUi.AutoKeyUi.DrawTablePopup | Editor/UI/AutoKeyUi.cs:107-128 | for an entry of the popup, the chosen collection is the one that entry is labelled with, and it is set only when the entry differs from the current one |
| AutoKeyUi.AutoKeyUi.QueueSnippet | Editor/UI/AutoKeyUi.cs:221-225 | a menu choice queues that snippet; nothing else changes |
| AutoKeyUi.AutoKeyUi.StartTranslate | Editor/UI/AutoKeyUi.cs:230-248 | without an entry nothing happens; otherwise the loop leaves exactly the fan-out's pending map and throw, and sends one request per requested target, each carrying the entry's stored text and the target's control name |
| AutoKeyUi.AutoKeyUi.OnTranslationComplete | Editor/UI/AutoKeyUi.cs:254-256 | the result is stored under the control name, unconditionally |
| AutoKeyUi.AutoKeyUi.DrawLocale | Editor/UI/AutoKeyUi.cs:264-355 | the frame is Render of the old state, and the new pending map, snippet queue and recorded version are the frame's |
| AutoKeyUi.AutoKeyUi.CheckForErrors | Editor/UI/AutoKeyUi.cs:369-375 | the solver runs exactly when the version changed since the last run, and the version is recorded |
| AutoKeyUi.AutoKeyUi.TryCreateLocalizationKey | Editor/UI/AutoKeyUi.cs:381-384 | records the version and answers what the solver answers |
| AutoKeyUi.AutoKeyUi.TryCreateUniqueLocalizationKey | Editor/UI/AutoKeyUi.cs:386-394 | without shared data it fails and records nothing; otherwise it records the version and answers what the solver answers |

## Left out

- The HTTP client, JSON (de)serialisation and `async`/`await` are left out. The exchange is the `Outcome` input, and the callback's argument is the returned `RequestResult`.
- Repainting the editor windows after a completion is left out.
- IMGUI drawing, layout, styles, and the locale marker label are left out. Only the state and values that drawing reads and changes are modelled.
- The key buttons of `DrawKey` (Generate, Find, Regenerate, Duplicate, Set empty, Remove) and `DrawErrors` are not modelled. They call the property editor and the key solver, which are not part of this model. Only the version bookkeeping they share is modelled: `TryCreateLocalizationKey` and `TryCreateUniqueLocalizationKey`.
- The key solver, the property editor and Unity's localisation tables are external. Their answers are inputs: the entry state, table availability, and whether a key could be made.
- The `DrawText` loop over the preview locales is not modelled as a loop. `DrawLocale` models one iteration.
- The Snippets menu lists `Instance.Snippets`, a member that is not part of this model. `QueueSnippet` models choosing from the menu.
- The `ExitGUI` calls, `ShowWindow`, and the collection-added/removed event bindings are left out. `UpdateTablesList` is the handler those events call.
- The `Instance` singleton, the asset lookup and the menu item are left out.
- The `Changed` event raised by `OnValidate` is left out, because its subscribers are not part of this model.
- Text.Insert: a Dafny `char` is a Unicode scalar value, a .NET `char` a UTF-16 code unit. For text with characters beyond U+FFFF the cursor index and the length `Insert` checks against differ from .NET's, so the model may abort a frame .NET completes, or the reverse.
- Locale display names (`CultureInfo.DisplayName`) are left out: a `TranslationRequest` records the target locale, not the language name sent to the model.
- Unity's `LocaleIdentifier` is modelled by its code alone. Unity's library compares identifiers by code, treating a null code as "", so `default` is the locale with code "". That library code is not part of this model. The language name passed to the request is an input.
- `DrawLocale` assumes the table's shared data is present when a new key is generated.
- Settings.SameKey: `StringComparer.OrdinalIgnoreCase` upper-cases characters by the invariant culture. The model folds only the ASCII letters a–z.
- Ollama.StripArrow: `StartsWith("=>")` without a comparison argument is culture-sensitive in .NET. The model compares ordinally, which agrees for these two ASCII characters except where the culture ignores characters.
- Settings.LocalizationKeyGeneratorSettings.OnValidate: `Version` is a `long`. The model uses an unbounded `int`, so it does not model wrap-around after 2^63 − 1 validations.
- AutoKeyUi.Render: Unity's `GUI.changed` is modelled as set by the user's typing or by a Cancel/Accept click. Other controls of the frame that mark it changed are not modelled.
