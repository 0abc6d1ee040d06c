# Personal site page script: a verified model of its UI state

This project models the user-interface state logic of the personal website's
page script, `assets/js/main.js`, in Dafny. The script drives five things:

- **Tab/panel navigation.** `setActive` marks exactly the tabs and panels that carry a name.
  `fromHash` turns the URL fragment into a tab name. Initialisation, tab clicks, `data-jump`
  links, the `hashchange` handler and the tab keyboard handler all go through these two.
- **Keyboard focus movement.** ArrowLeft/ArrowRight move focus cyclically over the tabs.
- **The workflow-diagram toggle.** `setDiagram` switches an image source, a caption, a config
  pane and a segmented control between a "generic" and an "example" diagram.
- **The outcome-map toggle.** `setOutcomeMap` rewrites a kicker and each row's title, text and
  output from `data-<mode>-…` attributes, and picks an initial mode from the active button.
- **The rotating headline.** `setupRotate` parses `data-words` into phrases and advances a
  counter on every visible interval tick.

The DOM becomes plain values:

- Tabs, panels, rows and segmented buttons are sequences of datatypes.
- An element's attributes are a `map<string, string>` keyed by lower-case names.
  `getAttribute` lower-cases the ASCII letters of its argument before the lookup, as HTML does.
- A text slot whose element may be missing is an `Option<string>`.
- A missing attribute reads as `None`. JavaScript reads it as `undefined`/`null`.
- The URL fragment is the string `location.hash` returns.

The parts of the script that update the page in place are classes with `seq` fields and loops.
Each class method is proved equal to a specification function:

- `TabPanel.TabController`
- `Diagram.DiagramToggle`
- `OutcomeMap.OutcomeMapToggle`
- `Headline.Rotator`

The string handling is modelled as functions with the ECMAScript meaning:

- `trim` uses the WhiteSpace and LineTerminator code points.
- `replace` with a one-character pattern deletes the first occurrence only.
- `split` on one character.
- `%` truncates toward zero.

Lemmas state what the script promises about those functions.

Modules:

- `Wrappers`: `Option`.
- `JsStrings`: `trim`, `indexOf`, `replace`, `split` and the `join` that inverts it.
- `Modular`: Euclidean remainder facts.
- `Dom`: attributes, guarded text substitution, segmented buttons.
- `TabPanel`, `Diagram`, `OutcomeMap`, `Headline`: the four features.

## Model

| member | source | states |
|---|---|---|
| JsStrings.Trim | assets/js/main.js:36 | `trim` returns a string that neither starts nor ends with a space and sits in its input with only spaces around it |
| JsStrings.TrimPadded | assets/js/main.js:36 | a trimmed string padded with spaces on both sides trims back to exactly itself |
| JsStrings.TrimIdempotent | assets/js/main.js:260 | trimming an already trimmed piece leaves it unchanged |
| JsStrings.TrimKeepsOut | assets/js/main.js:260 | trimming never introduces a character the input lacks (a piece without the vertical bar stays without it) |
| JsStrings.IndexOf | assets/js/main.js:36 | the position of the first occurrence of a character, -1 exactly when it is absent |
| JsStrings.IndexOfFirst | assets/js/main.js:36 | any position holding the character with none before it is the one `IndexOf` returns |
| JsStrings.DeleteFirst | assets/js/main.js:36 | `replace('#', '')` removes exactly the first '#', and returns the input unchanged when there is none |
| JsStrings.DeleteLeading | assets/js/main.js:36 | a string starting with '#' loses just that leading '#' |
| JsStrings.Split | assets/js/main.js:260 | splitting on the vertical bar yields at least one piece, no piece holds the separator, and joining the pieces with it gives back the input |
| JsStrings.SplitJoin | assets/js/main.js:260 | splitting separator-free pieces joined by the separator gives back those pieces |
| Dom.Filled | assets/js/main.js:69 | JavaScript truthiness of an attribute read: false exactly for null and for the empty string |
| Dom.GetAttributeFoldsCase | assets/js/main.js:110 | `getAttribute` on an HTML element ignores the ASCII letter case of the name it is given |
| Dom.Substitute | assets/js/main.js:170 | a guarded text write keeps the slot's presence, takes a non-empty attribute value when the slot exists, and changes nothing otherwise |
| Dom.SubstituteTwice | assets/js/main.js:181-183 | a later filled write overrides an earlier one, and repeating a write changes nothing |
| Dom.MarkButtons | assets/js/main.js:148-152 | every button keeps its key, and exactly the buttons whose key is the chosen one are active and aria-selected |
| Dom.MarkLastWins | assets/js/main.js:186-190 | button marking depends only on the last key chosen |
| TabPanel.SelectTabs | assets/js/main.js:15-20 | tab names are kept, and a tab is aria-selected, active and has tabIndex 0 exactly when its `data-tab` equals the name (tabIndex -1 otherwise) |
| TabPanel.ShowPanels | assets/js/main.js:22-26 | panel names are kept, and a panel is visible and active exactly when its `data-panel` equals the name |
| TabPanel.HideAll | assets/js/main.js:42 | every panel is hidden and nothing else about it changes |
| TabPanel.FindName | assets/js/main.js:30 | `panels.find` by name returns the first panel carrying the name, none exactly when no panel carries it |
| TabPanel.FocusAfter | assets/js/main.js:29-32 | with `focusPanel` and a panel carrying the name, focus goes to the first such panel; otherwise focus stays where it was |
| TabPanel.HashAfterWrite | assets/js/main.js:28 | the written fragment reads back as "#" + name for a non-empty name, "" for an empty name, and "#undefined" for a missing name |
| TabPanel.FragmentName | assets/js/main.js:36 | the name read from the fragment is trimmed; for a fragment starting with '#' it is the trimmed rest, and for one without '#' the trimmed fragment |
| TabPanel.HashPrefix | assets/js/main.js:36 | the '#' that `replace` deletes from a fragment starting with '#' is that leading one |
| TabPanel.FragmentPadded | assets/js/main.js:36 | the name read from "#" followed by a trimmed name with spaces around it is exactly that name |
| TabPanel.Resolve | assets/js/main.js:35-39 | the result is a tab's name or "overview"; it is the trimmed fragment whenever some tab carries that, and otherwise "overview" |
| TabPanel.ResolvePadded | assets/js/main.js:35-39 | "#" followed by a known tab name with surrounding spaces resolves to that name |
| TabPanel.HashRoundTrip | assets/js/main.js:28-39 | the fragment `setActive` writes for a known trimmed tab name resolves back to that name |
| TabPanel.ResolveStable | assets/js/main.js:28-39 | writing the resolved name to the fragment and resolving again gives the same tab |
| TabPanel.SelectedCount | assets/js/main.js:15-20 | when selection follows the name, the number of selected tabs is the number of tabs carrying the name |
| TabPanel.ShownCount | assets/js/main.js:22-26 | when visibility follows the name, the number of visible panels is the number of panels carrying the name |
| TabPanel.ActiveCounts | assets/js/main.js:14-26 | after `setActive(name)`, exactly as many tabs are selected and panels shown as carry the name: one for a name carried once, none for an unknown name |
| TabPanel.JsRemainder | assets/js/main.js:54 | JavaScript's `%`: below the divisor in magnitude, with the sign of the dividend, and differing from the dividend by a multiple of the divisor |
| TabPanel.NextIndex | assets/js/main.js:53-54 | the arrow-key target is a valid tab index; ArrowRight wraps last to first, ArrowLeft first to last, otherwise the neighbour |
| TabPanel.ArrowsInverse | assets/js/main.js:53-54 | ArrowLeft undoes ArrowRight and vice versa |
| TabPanel.RightPresses | assets/js/main.js:53-55 | repeated ArrowRight presses always land on a valid tab index |
| TabPanel.RightPressesCycle | assets/js/main.js:53-55 | after s ArrowRight presses from tab i, focus is on tab (i + s) mod n, so every tab is visited in turn |
| TabPanel.TabController.FromHash | assets/js/main.js:35-39 | `fromHash()` on the controller's fragment and tabs: a tab's name or "overview"; the fragment's name whenever some tab carries it, and "overview" otherwise |
| TabPanel.TabController.constructor | assets/js/main.js:41-43 | initialisation hides every panel, then shows exactly the panel and selects exactly the tab for `fromHash()`, leaving the fragment and focus alone |
| TabPanel.TabController.HidePanels | assets/js/main.js:42 | the loop hides every panel and changes nothing else |
| TabPanel.TabController.SetActive | assets/js/main.js:14-33 | the two loops produce the selected tabs and shown panels; the fragment is written only when `updateHash`; focus goes to the first matching panel only when `focusPanel` and such a panel exists |
| TabPanel.TabController.ClickTab | assets/js/main.js:47 | a tab click activates that tab's name, writes the fragment and focuses its panel |
| TabPanel.TabController.ClickJump | assets/js/main.js:66-73 | a `data-jump` click with a missing or empty target changes nothing; otherwise it activates the target, which may be unknown, writes the fragment and focuses its panel |
| TabPanel.TabController.HashChange | assets/js/main.js:224 | a fragment change activates `fromHash()` of the new fragment and focuses its panel, without writing the fragment |
| TabPanel.TabController.KeyDown | assets/js/main.js:48-62 | arrow keys move focus to the cyclic neighbour and change no selection, visibility or fragment; Enter/Space activate the tab; other keys change nothing |
| Diagram.SourceFor | assets/js/main.js:110-111 | the new `src` is the diagram's non-empty `data-<kind>` attribute, and none when the diagram or that attribute is missing or empty |
| Diagram.CaptionFor | assets/js/main.js:116-120 | the caption is the example text exactly when the kind is "example", and the generic text for every other kind |
| Diagram.ConfigFor | assets/js/main.js:122-146 | the config is the example text exactly when the kind is "example", and the generic text for every other kind |
| Diagram.SwitchDiagram | assets/js/main.js:107-152 | a complete no-op without a source; otherwise `src` becomes the source and no other attribute changes; an existing caption and config show the example texts when kind is "example" and the generic texts otherwise; exactly the buttons for the kind are marked |
| Diagram.SourceIgnoresCase | assets/js/main.js:110-111 | the source found for a kind does not depend on the letter case of the kind |
| Diagram.SwitchKeepsSources | assets/js/main.js:110-114 | switching never changes any kind's `data-` source, only `src` |
| Diagram.SwitchLastWins | assets/js/main.js:107-152 | toggling to any kind and then to a kind with a source leaves what switching to that kind alone leaves |
| Diagram.SwitchIdempotent | assets/js/main.js:107-152 | switching to the same kind twice equals switching once |
| Diagram.DiagramToggle.constructor | assets/js/main.js:102-105 | the toggle starts from the page's diagram, caption, config and buttons |
| Diagram.DiagramToggle.SetDiagram | assets/js/main.js:107-155 | the in-place updates, including the button loop, leave exactly the state `SwitchDiagram` describes |
| Diagram.DiagramToggle.ClickButton | assets/js/main.js:157-159 | a button click switches to its `data-diagram`, or to "generic" when that is empty |
| OutcomeMap.UpdateRow | assets/js/main.js:172-184 | a row keeps its attributes, and each of its title, text and output slots goes through the guarded write of its `data-<mode>-…` attribute |
| OutcomeMap.SwitchMode | assets/js/main.js:165-190 | nothing changes without the map; otherwise attributes, rows and slots are kept, the kicker and every row slot change only to a non-empty `data-<mode>-…` text, and exactly the buttons for the mode are marked |
| OutcomeMap.SwitchModeIdempotent | assets/js/main.js:165-190 | switching to the same mode twice equals switching once |
| OutcomeMap.CompleteModeOverrides | assets/js/main.js:165-190 | when the markup has texts for every slot in a mode, switching to it erases every trace of an earlier switch |
| OutcomeMap.InitialMode | assets/js/main.js:202 | the initial mode is never empty; it is the first active button's `data-map` when that is non-empty, and "concept" when it is empty or no button is active |
| OutcomeMap.OutcomeMapToggle.constructor | assets/js/main.js:201-204 | on load the map switches to the initial mode exactly when both the map and at least one button exist |
| OutcomeMap.OutcomeMapToggle.SetOutcomeMap | assets/js/main.js:165-191 | the row loop and the button loop leave exactly the state `SwitchMode` describes |
| OutcomeMap.OutcomeMapToggle.ClickButton | assets/js/main.js:193-199 | a button click switches to its `data-map`, or to "concept" when that is empty |
| Headline.TrimAll | assets/js/main.js:260 | `map(s => s.trim())` trims each piece and keeps their number |
| Headline.DropEmpty | assets/js/main.js:260 | `filter(Boolean)` keeps only non-empty pieces, each non-empty piece as many times as it occurs; one piece is kept exactly when it is non-empty |
| Headline.DropEmptyAppend | assets/js/main.js:260 | filtering keeps order: the filter of a concatenation is the concatenation of the filters |
| Headline.DropEmptyKeepsFilled | assets/js/main.js:260 | filtering pieces that are all non-empty keeps them all, in order |
| Headline.ParseWords | assets/js/main.js:258-260 | every parsed phrase is non-empty, trimmed and free of the vertical bar; a missing attribute gives no phrases |
| Headline.ParseJoined | assets/js/main.js:258-260 | parsing phrases written into `data-words` separated by the vertical bar gives back exactly those phrases |
| Headline.Advance | assets/js/main.js:266 | `(i + 1) % words.length` stays below the length and wraps the last index to 0 |
| Headline.IndexAfter | assets/js/main.js:263-266 | the counter after any number of visible ticks is a valid phrase index |
| Headline.IndexAfterTicks | assets/js/main.js:263-266 | after t visible ticks the counter is t mod the number of phrases, so phrases are shown cyclically in order |
| Headline.Rotator.constructor | assets/js/main.js:257-263 | the headline rotates exactly when motion is allowed and there are at least two phrases, with the counter at 0 and the text unchanged |
| Headline.Rotator.Tick | assets/js/main.js:264-271 | a hidden document or a non-rotating headline changes nothing; otherwise the counter advances cyclically, stays in range, and the text becomes that phrase |

## Left out

- Copy-to-clipboard (lines 76-99) is left out: asynchronous browser clipboard calls, a temporary textarea and a timer.
- The footer year (lines 11-12) reads the system clock.
- The pointer-follow glow (lines 207-221) computes floating-point percentages from element geometry.
- The dock tooltips (lines 227-252) are cosmetic show/hide with a timer.
- The cursor spray (lines 278-293) uses randomness, a clock and element creation.
- The `is-switching` class and the timers that remove it (lines 113, 154, 267-270) are not modelled.
- TabPanel.TabController.KeyDown: `focus()` is recorded as a target (the last tab or panel focused). It is not a model of the browser's focus. `preventDefault` and `stopPropagation` are not modelled.
- TabPanel.HashAfterWrite: `history.replaceState` is modelled by what `location.hash` reads afterwards. The URL parser's percent-encoding of characters such as spaces is not modelled, so a name that needs encoding reads back as written.
- Headline.Rotator.Tick: the text is written in the same step as the counter advance. The script writes it 170 ms later, and the model does not capture that delay.
- Headline.Rotator.constructor: `setInterval` and its 2200 ms period are left out. Ticks are method calls, and whether the document is hidden is a parameter.
- Diagram.SwitchDiagram: the two caption texts and the two config texts are four distinct placeholder constants, not the page's literal strings.
- Event-listener registration is left out: each handler is a method. The reduced-motion media query result is a parameter.
- Element lookups by selector are left out: the elements are given as the constructor's input.
