# WebTiles in Dafny

WebTiles is a browser new-tab dashboard: every widget is a tile that shows a web
page in an iframe, and widgets are grouped into workspaces. A companion
extension background script keeps track of which sub-frame of which tab hosts
which widget. It also pushes each widget's custom CSS into that frame, and
writes the URL a widget frame navigates to back into the stored workspaces.

This project models the decision logic of that system as pure Dafny functions
over immutable datatypes and proves properties about it:

- **`Background`** (`background.dfy`), with helpers `Url`, `Ordered`, `Injection` and `Storage`:
  - the frame registry, with one transition function per listener:
    - the three messages `PREPARE_WIDGET_TRACKING`, `INJECT_CSS` and `UNREGISTER_WIDGET`;
    - `webNavigation.onBeforeNavigate`, `webNavigation.onCompleted` and `tabs.onRemoved`;
    - `mapWidget`, `unmapWidget` and the URL normalisation;
  - the promise returned by `injectCss`;
  - the delayed `injectCssWhenReady`, as a separate `Resume` step on a `Job`;
  - the registry invariant every handler keeps: a frame entry that names a widget is that widget's bound frame. `System`/`Step` combine the handlers into one event-driven machine. A `Variant` chooses between the code's `tabs.onRemoved` and delayed-injection handlers (`AsWritten`) and the corrected ones of "## Findings" (`Corrected`). `RunKeepsInv` shows that the invariant holds after any sequence of events in both variants.
- **`WorkspaceService`**: the state updates handed to `updateState`, and the start-up normalisation of the stored state.
- **`SettingsService`**: the defaults, the merge of stored settings over them, and the single-key update.
- **`Resizable`**: edge classification and the resize geometry with its minimum size.
- **`WidgetComponent`**: a tile's decisions:
  - which background messages it sends and when;
  - the registration-once flag;
  - the z-index clamp;
  - the resize and CSS edits it emits.
- **`AppComponent`**: the background style and the full-screen toggle.
- **`AddWidgetModal`**: the form errors and the submit with scheme completion.
- **`WorkspaceSelector`**: the rename editor, the add input, and the import check.

Answers from the browser are parameters of the functions:

- a storage read or write that succeeds or fails is a `bool`;
- what `insertCSS` and `tabs.get` answer is an `Injection.Attempt`;
- a fresh `uuidv4` id is a string.

The frame table is a sequence of key/value pairs in insertion order, because
`PREPARE_WIDGET_TRACKING` binds the first matching frame that
`Object.entries` reports.

Several comments in the background script promise more than its code does. The model
follows the code:

- The comments at `Extension/background.js:265` and `:672` say the raw navigated URL is stored. The raw URL is written (`Extension/background.js:268`) and then overwritten with the normalised URL (`:296`). `Background.NavigationPersistsNormalizedUrl` and `Background.TwoNavigations` state what ends up stored.
- The `PREPARE_WIDGET_TRACKING` loop at `Extension/background.js:82-94` binds the first frame of the tab whose recorded URL matches, even when that frame already hosts another widget. That other widget's binding then goes stale. So the invariant keeps only the frame-to-widget direction of the registry mirror: a frame entry that names a widget is that widget's bound frame.
- `normalizeUrl` (`Extension/background.js:711-723`) strips only one trailing `/`, so it is not idempotent. `Url.NormalizeNotIdempotent` shows `"a//"`, and `Url.NormalizeIdempotentIff` gives the exact condition.
- The comment at `Extension/background.js:172` says a failed injection is queued for later, and the doc comment at `:526-527` says `injectCssWhenReady` queues the CSS when the frame is not ready. `injectCss`'s retry does not always fail in a way these handlers catch:
  - When `tabs.get` or the retried `insertCSS` fails, the retry throws inside a callback (`Extension/background.js:491`, `:513`). `injectCss`'s promise then never settles, nothing is queued, and the `INJECT_CSS` request gets no answer.
  - A retry skipped on a `chrome-extension://` page resolves the promise (`:500`), so the widget is marked as injected without any CSS.
  - When the promise is rejected, `injectCssWhenReady` re-queues the CSS (`:555`), but its callers delete the queue entry right after (`:394`, `:599`). This is the second row of "## Findings".

## Model

| member | source | states |
|---|---|---|
| Url.QueryStart | Extension/background.js:715 | The cut point is the first `?`, or the end when there is none. |
| Url.Normalize | Extension/background.js:711-723 | The normalised URL is a query-free prefix of the input. What it drops is at most one `/` followed by the query. When no `/` was dropped, it does not end in `/`. |
| Url.NormalizeIgnoresQuery | Extension/background.js:715 | Appending a query string to a query-free URL never changes its normal form. |
| Url.QueryStartAt | Extension/background.js:715 | Any position with no `?` before it and a `?` (or the end) at it is the cut point. |
| Url.NormalizeStripsOneSlash | Extension/background.js:716-718 | A query-free URL with one `/` appended normalises back to itself. |
| Url.NormalizeIdempotentIff | Extension/background.js:711-723 | Normalising twice equals normalising once exactly when the first result does not end in `/`. |
| Url.NormalizeNotIdempotent | Extension/background.js:716-718 | `"a//"` normalises to `"a/"`, which normalises to `"a"`: normalisation is not idempotent. |
| Url.NormalizeClean | Extension/background.js:711-723 | A query-free URL without a trailing slash is its own normal form, also with `/?query` appended. |
| Url.NormalizeExample | Extension/background.js:711-723 | `https://a.com/path/?x=1` and `https://a.com/path` both normalise to `https://a.com/path`. |
| Ordered.Get | Extension/background.js:254 | Looking up a key finds a value exactly when the key is present, and the value is that key's entry. |
| Ordered.GetAt | Extension/background.js:82 | With distinct keys, the entry at any position is what a lookup of its key finds. |
| Ordered.Put | Extension/background.js:586-589 | Assignment sets the key and leaves the others. A new key goes last; an existing key keeps its position. Keys stay distinct. |
| Ordered.Remove | Extension/background.js:636 | Deletion removes the key, keeps every other key's value, and keeps keys distinct. With distinct keys, the result is the entry list with exactly the deleted key's entry cut out, the rest in their old order. |
| Storage.PatchWidgets | Extension/background.js:662-675 | Exactly the widgets with the id get the new field; the others and the order are kept. |
| Storage.PatchWorkspaces | Extension/background.js:660-678 | Every workspace's widget list is rewritten that way, and nothing else changes. |
| Storage.PatchDoc | Extension/background.js:681-686 | The document keeps its active id, its workspaces' ids and names, and every list length. |
| Storage.FindIn | Extension/background.js:611 | The lookup finds a widget with the id, and it finds none exactly when no widget carries that id. What it finds is the first widget with the id. |
| Storage.FindWidget | Extension/background.js:607-611 | The lookup across workspaces finds a widget with the id, and it finds none exactly when no workspace holds one. What it finds is the first match in the first workspace that holds the id. |
| Storage.FindAfterPatch | Extension/background.js:127-156 | Reading a widget back after a rewrite yields the rewritten widget. |
| Storage.FindInAfterPatch | Extension/background.js:662-675 | The same read-back property for one widget list. |
| Storage.FindOtherAfterPatch | Extension/background.js:660-678 | Rewriting one id never changes what a lookup of another id finds. |
| Storage.FindInOtherAfterPatch | Extension/background.js:662-675 | The same non-interference for one widget list. |
| Injection.InsertCalls | Extension/background.js:466-522 | `insertCSS` is called twice exactly when the first call fails with an access error and the tab is found and does not show an extension page. Otherwise it is called once. |
| Injection.Outcome | Extension/background.js:466-522 | The promise rejects exactly on a first failure that is not an access error. It resolves as applied exactly when one of the at most two `insertCSS` calls succeeds. It resolves as skipped exactly on an extension page. Every other path never settles. |
| Background.RemoveKeepsEntries | Extension/background.js:636 | After a delete, every remaining frame entry was already there, under a different key. |
| Background.Unmap | Extension/background.js:628-639 | The binding goes, and so does the frame entry at its key; nothing else changes. The invariant is kept, and no frame names the widget afterwards. |
| Background.MapWidget | Extension/background.js:577-589 | The widget is bound with its CSS not yet injected, and the frame entry names it. Other widgets and other frame keys are untouched. Binding a widget that no frame names keeps the invariant. |
| Background.MapWidgetKeepsMirror | Extension/background.js:577-589 | A fresh binding plus its frame entry keeps every frame-to-widget link consistent. |
| Background.CssToApply | Extension/background.js:595-617 | Queued CSS wins, and its slot is cleared afterwards. With nothing queued, the widget's non-empty saved CSS from a reachable stored document is applied, and its slot is left alone. There is no job exactly when neither exists. A job carries the CSS it found and targets the frame. |
| Background.FirstMatch | Extension/background.js:82-94 | The index returned is the first frame entry of the tab showing the URL, and none is returned exactly when no entry matches. |
| Background.Prepare | Extension/background.js:44-103 | A missing tab fails and changes nothing. A missing payload fails, but the tab is recorded as active. Otherwise the reply is success, and the widget is bound exactly when a frame of the tab shows its normalised source, to the first such frame, with CSS not injected. Every other widget keeps its binding; the frame table has the same keys as after unbinding, and only the bound frame's entry can change. The invariant is kept. |
| Background.Bind | Extension/background.js:76-103 | After unbinding, the widget is bound exactly when some remaining entry of the tab shows the source, and then to the first one. The reply is success. Every other widget keeps its binding; the frame table has the same keys as after unbinding, and every entry except the bound frame's is unchanged. |
| Background.BindAt | Extension/background.js:84-92 | Binding to a matching entry leaves the widget bound to that frame and the entry naming it, and keeps the invariant. Every other widget keeps its binding; the frame table has the same keys as after unbinding, and every other entry is unchanged. |
| Background.SaveCss | Extension/background.js:127-156 | When storage answers, reading the widget back yields the CSS written (`css \|\| ""`). Other widgets read back unchanged, and a failed storage call changes nothing. |
| Background.InjectCssRequest | Extension/background.js:104-205 | The CSS is persisted first. Blank CSS for an unbound widget empties its queue slot; other CSS for it is queued with the "queued" reply. Blank CSS for a bound widget changes nothing and gets the "empty" reply. Otherwise the reply and the `cssInjected` flag follow the injection promise: a rejection queues the CSS, and a promise that never settles sends no reply. Every other widget keeps its binding, and the widget's own binding changes at most in its `cssInjected` flag. |
| Background.Unregister | Extension/background.js:206-226 | A missing id fails and changes nothing. Otherwise the binding and the queued CSS are gone and the reply is success. The frame table loses exactly the bound frame's key, every other key keeps its entry, and storage is untouched. |
| Background.UnregisterIdempotent | Extension/background.js:220-225 | Unregistering twice leaves the same state as unregistering once. |
| Background.OnMessage | Extension/background.js:40-228 | Unknown message types change nothing and get no reply. Only tracking spawns a delayed injection, and its widget is bound. Every message keeps the invariant. |
| Background.StoreRawUrl | Extension/background.js:647-703 | The raw URL is written only to a widget present in a reachable document. Reading the widget back then yields the new URL. |
| Background.StoreNavigatedUrl | Extension/background.js:266-322 | The raw write at line 268 and the normalised write from line 286 never create or drop the document. |
| Background.StoredNavigationReadBack | Extension/background.js:286-322 | After the two writes, every widget is found exactly when it was before, and at most its URL changed. The navigated widget ends on the normalised URL once the second write succeeds. |
| Background.OnBeforeNavigate | Extension/background.js:235-332 | Frame 0, `about:blank` and extension URLs change nothing. Otherwise the frame's entry holds the normalised URL and keeps its widget, or is created with none; no other entry changes. Storage changes only for a widget frame. The invariant is kept. |
| Background.NavigateKeepsMirror | Extension/background.js:254-258 | Rewriting an entry's URL without changing its widget keeps the invariant. |
| Background.NavigationPersistsNormalizedUrl | Extension/background.js:281-322 | A navigated widget frame leaves the stored widget with the normalised URL. Nothing else about it changes. |
| Background.PurgeEntry | Extension/background.js:348-353 | One loop step leaves the queue and the active tabs alone. |
| Background.PurgeTab | Extension/background.js:346-354 | No entry of the closed tab remains, and neither does any binding of a widget those entries named. What remains is unchanged. |
| Background.PurgeTabKeepsInv | Extension/background.js:346-354 | The purge loop keeps the invariant. |
| Background.PurgeTabKeepsOtherTabs | Extension/background.js:346-354 | The purge loop keeps every other tab's frames and widgets. |
| Background.OnTabRemoved | Extension/background.js:338-362 | A tab never used for tracking changes nothing. Otherwise the tab leaves the active set and no frame entry of it remains. Bindings and queue entries only ever disappear. |
| Background.TabRemovalKeepsOthers | Extension/background.js:338-362 | Tab removal keeps the invariant and leaves every other tab's frames and widgets in place. |
| Background.OnCompleted | Extension/background.js:368-426 | Frame 0 and frames without a widget spawn nothing. A widget frame gets its queued CSS if any, and otherwise its saved CSS; with neither, nothing is spawned. The job targets that frame. |
| Background.CompletedFrameGetsCss | Extension/background.js:368-426 | A job spawned by a loaded widget frame is still bound. When its injection lands, the frame gets the queued CSS and the slot is emptied, or it gets the saved CSS and the queue is left alone. Either way `cssInjected` is set. |
| Background.Resume | Extension/background.js:532-557 | A job whose frame is no longer the widget's queues its CSS. Otherwise the injection sets `cssInjected`, or a rejection queues the CSS, or a promise that never settles changes nothing. After a landed injection the caller's delete empties the slot of a queued-CSS job, and a saved-CSS job leaves the queue as it was. Bindings keep their frames, and the invariant is kept. |
| Background.ResumeUnboundIgnoresBrowser | Extension/background.js:538-546 | A job whose binding changed during the delay behaves the same whatever the browser would answer. |
| Background.OnTabRemovedKeepsPurgedWidgetsCss | Extension/background.js:346-361 | As written, a widget unbound by the frame loop keeps its queued CSS after its tab closes. |
| Background.OnTabRemovedPurgingPending | Extension/background.js:356-361 | Corrected: the queued CSS of every widget bound to the closed tab is dropped. Frames and bindings end as in the original, and every other queue entry is kept. |
| Background.ResumeDropsRequeuedCss | Extension/background.js:388-394 | As written, queued CSS that cannot be injected is re-queued (lines 544 and 555) and then deleted by the caller, so it is lost. |
| Background.ResumeKeepingQueue | Extension/background.js:532-557 | Corrected: CSS that did not land stays queued whoever spawned the job. CSS that landed sets `cssInjected` and leaves the queue. |
| Background.Step | Extension/background.js:40-426 | One event of the extension, run either with the code's tab-removal and delayed-injection handlers (`AsWritten`) or with the corrected ones of the two findings (`Corrected`). Every event keeps the invariant in both variants and spawns at most one job. Firing a job consumes it. The active tabs change only through tracking and tab removal. |
| Background.VariantsDifferInQueueOnly | Extension/background.js:338-362 | The code's handlers and the corrected ones agree on jobs, storage, bindings, frames and active tabs after any event. |
| Background.RunKeepsInv | Extension/background.js:11-14 | The invariant holds after any sequence of events from a state that satisfies it, for the handlers as written and for the corrected ones. |
| Background.TrackThenUnregister | Extension/background.js:44-226 | After tracking then unregistering a widget, nothing refers to it. |
| Background.QueuedCssReachesFrame | Extension/background.js:191-203 | CSS sent while the widget waits for its frame is queued with the "queued" reply. The frame's appearance then spawns one injection carrying that CSS. Once the code's delayed injection lands, the queue slot is empty and `cssInjected` is set. |
| Background.TwoNavigations | Extension/background.js:235-332 | After two navigations of one frame, its entry shows the second URL, normalised. An owning widget is stored under that normalised URL. |
| Background.MidKeepsWidget | Extension/background.js:235-332 | A navigation changes at most the URL of a stored widget, and never whether it is found. |
| Background.TrackingWalkthrough | Extension/background.js:44-103 | A widget tracked before its frame exists waits unbound. The frame then navigates to the source plus a query string. Tracking again binds the widget to that frame, with CSS not injected. |
| Background.WalkthroughUrls | Extension/background.js:711-723 | The walk-through's source is already normal, its navigation normalises to it, and that navigation is not ignored. This is a worked example on the one fixed URL, not an all-inputs property. |
| Background.WalkthroughFirst | Extension/background.js:54-103 | Tracking from a tab with no frames only records the tab as active. |
| Background.WalkthroughNavigate | Extension/background.js:326-330 | The first navigation of an unknown frame adds an entry owned by no widget. |
| Background.WalkthroughBind | Extension/background.js:82-92 | Tracking once the frame is known binds the widget to it. |
| WorkspaceService.IndexOf | frontend/src/app/services/workspace.service.ts:235-243 | The index found is the first workspace with the id. None is found exactly when no workspace has it. |
| WorkspaceService.DefaultState | frontend/src/app/services/workspace.service.ts:161-167 | The fallback state has one workspace, which is the active one. |
| WorkspaceService.LoadAppState | frontend/src/app/services/workspace.service.ts:102-154 | The state shown is always usable. Stored workspaces are never lost or reordered. A usable stored state is taken as it is and not written back. A stored state with workspaces whose active id is missing or dangling gets the first workspace's id and is written back with nothing else changed. Anything else becomes a fresh default, also written back. |
| WorkspaceService.LoadAppStateStable | frontend/src/app/services/workspace.service.ts:102-154 | Loading what a load wrote back returns it unchanged and writes nothing. |
| WorkspaceService.SetActiveWorkspace | frontend/src/app/services/workspace.service.ts:199-217 | The current id or an unknown id keeps the state object. Otherwise only the active id changes. |
| WorkspaceService.MakeWidget | frontend/src/app/services/workspace.service.ts:245-253 | The new widget carries the given fields. Missing fields default to (10, 10), 400 x 300 and empty CSS. |
| WorkspaceService.ReplaceAt | frontend/src/app/services/workspace.service.ts:255-263 | Only the chosen workspace changes. |
| WorkspaceService.AddWidget | frontend/src/app/services/workspace.service.ts:224-270 | With no active workspace, or an unknown one, nothing changes. Otherwise exactly one widget is appended to the active workspace, and every other workspace is identical. |
| WorkspaceService.Without | frontend/src/app/services/workspace.service.ts:289 | The filter keeps exactly the widgets with another id. It has the same length only when none had the id, and then it is the list itself. |
| WorkspaceService.WithoutConcat | frontend/src/app/services/workspace.service.ts:289 | The widget filter keeps order: filtering a concatenation is the concatenation of the filtered parts. |
| WorkspaceService.WithoutSingle | frontend/src/app/services/workspace.service.ts:289 | One widget survives the filter exactly when its id differs. |
| WorkspaceService.RemoveFrom | frontend/src/app/services/workspace.service.ts:286-296 | Only workspaces with the active id lose widgets. |
| WorkspaceService.RemoveWidget | frontend/src/app/services/workspace.service.ts:277-305 | Nothing changes unless the active workspace holds the widget. Otherwise every workspace with the active id becomes its filtered self, and every other workspace is unchanged. |
| WorkspaceService.WidgetIndex | frontend/src/app/services/workspace.service.ts:323-325 | The index found is the first widget with the id. None is found exactly when no widget has it. |
| WorkspaceService.ReplaceIn | frontend/src/app/services/workspace.service.ts:321-339 | Only active workspaces whose widget differs get the replacement. |
| WorkspaceService.UpdateWidget | frontend/src/app/services/workspace.service.ts:312-350 | A missing widget or an identical one keeps the state object. Otherwise, in the active workspace, exactly the first widget with the id becomes the updated one, and every other widget and workspace is unchanged. |
| WorkspaceService.WorkspaceName | frontend/src/app/services/workspace.service.ts:361 | A given name is used. An empty name becomes `Workspace ` followed by the decimal digits whose value is the count plus one, with no leading zero, and the result is never empty. |
| WorkspaceService.AddWorkspace | frontend/src/app/services/workspace.service.ts:357-370 | Exactly one empty workspace is appended, and the active id is kept. |
| WorkspaceService.WithoutWorkspace | frontend/src/app/services/workspace.service.ts:384-386 | The filter keeps exactly the workspaces with another id. An absent id leaves the list as it is. |
| WorkspaceService.WithoutWorkspaceConcat | frontend/src/app/services/workspace.service.ts:384-386 | The workspace filter keeps order: filtering a concatenation is the concatenation of the filtered parts. |
| WorkspaceService.FirstRemaining | frontend/src/app/services/workspace.service.ts:384-390 | The filtered list starts with the first workspace whose id differs. |
| WorkspaceService.WithoutWorkspaceUnique | frontend/src/app/services/workspace.service.ts:384-386 | Filtering keeps workspace ids distinct. |
| WorkspaceService.RemoveWorkspace | frontend/src/app/services/workspace.service.ts:377-399 | The last workspace is never removed. Removing the active workspace makes the first workspace with another id, in stored order, the active one. Otherwise the active id is kept. |
| WorkspaceService.RemoveWorkspaceKeepsUsable | frontend/src/app/services/workspace.service.ts:377-399 | With distinct ids, removal keeps a usable state usable and keeps ids distinct. |
| WorkspaceService.RenameIn | frontend/src/app/services/workspace.service.ts:416-422 | Only workspaces with the id get the name. |
| WorkspaceService.RenameWorkspace | frontend/src/app/services/workspace.service.ts:407-433 | A blank name, an unknown id or an unchanged name keeps the state object. Otherwise only the target's name changes, to the trimmed name. |
| WorkspaceService.RenameIdempotent | frontend/src/app/services/workspace.service.ts:407-433 | Renaming again to the same name changes nothing. |
| WorkspaceService.Reissue | frontend/src/app/services/workspace.service.ts:474-481 | An imported workspace keeps its name and widgets, under fresh ids. |
| WorkspaceService.ImportWorkspaces | frontend/src/app/services/workspace.service.ts:472-488 | Every imported workspace is appended after the untouched existing ones, in order, with fresh workspace and widget ids. |
| WorkspaceService.AddThenRemoveWidget | frontend/src/app/services/workspace.service.ts:224-305 | Adding a widget under an unused id and then removing it restores the state. |
| WorkspaceService.WithoutAppended | frontend/src/app/services/workspace.service.ts:289 | Filtering out an appended widget's id gives back the list it was appended to. |
| WorkspaceService.AddThenRemoveWorkspace | frontend/src/app/services/workspace.service.ts:357-399 | Adding a workspace under an unused id and then removing it restores the state. |
| WorkspaceService.WithoutLast | frontend/src/app/services/workspace.service.ts:384-386 | Filtering out an appended workspace's id gives back the list it was appended to. |
| WorkspaceService.WidgetEditsKeepUsable | frontend/src/app/services/workspace.service.ts:224-350 | Adding, removing and updating widgets keep a usable state usable. |
| WorkspaceService.WorkspaceEditsKeepUsable | frontend/src/app/services/workspace.service.ts:199-488 | Switching, adding, renaming and importing workspaces keep a usable state usable. |
| WorkspaceService.AddWorkspaceKeepsUsable | frontend/src/app/services/workspace.service.ts:357-370 | Adding a workspace keeps a usable state usable. |
| WorkspaceService.RenameKeepsUsable | frontend/src/app/services/workspace.service.ts:407-433 | Renaming keeps a usable state usable. |
| WorkspaceService.ImportKeepsUsable | frontend/src/app/services/workspace.service.ts:472-488 | Importing keeps a usable state usable. |
| WorkspaceService.ImportKeepsIdsDistinct | frontend/src/app/services/workspace.service.ts:472-488 | With fresh ids, an import keeps every workspace id distinct. |
| SettingsService.Get | frontend/src/app/models/Settings.model.ts:28-37 | The value under each key has the type the settings record declares for it. |
| SettingsService.SettingsExtensional | frontend/src/app/models/Settings.model.ts:28-37 | Two settings objects that agree on every key are equal. |
| SettingsService.UpdateSetting | frontend/src/app/services/settings.service.ts:140-149 | The updated key holds the new value, and every other key is unchanged. |
| SettingsService.UpdateSettingLaws | frontend/src/app/services/settings.service.ts:140-149 | The last write to a key wins, and writing the current value changes nothing. |
| SettingsService.UpdatesCommute | frontend/src/app/services/settings.service.ts:140-149 | Updates of different keys commute. |
| SettingsService.SetTheme | frontend/src/app/services/settings.service.ts:155-157 | Only the theme changes. |
| SettingsService.SetBackground | frontend/src/app/services/settings.service.ts:163-165 | Only the background changes. |
| SettingsService.SetShowSearchBar | frontend/src/app/services/settings.service.ts:171-173 | Only the search-bar flag changes. |
| SettingsService.SetTitleOnHover | frontend/src/app/services/settings.service.ts:179-181 | Only the title-on-hover flag changes. |
| SettingsService.SetShowHistory | frontend/src/app/services/settings.service.ts:187-189 | Only the history flag changes. |
| SettingsService.SetShowBookmarks | frontend/src/app/services/settings.service.ts:195-197 | Only the bookmarks flag changes. |
| SettingsService.SetAccentColor | frontend/src/app/services/settings.service.ts:203-205 | Only the accent colour changes. |
| SettingsService.SetShowDragHandlesOnHover | frontend/src/app/services/settings.service.ts:211-213 | Only the drag-handle flag changes. |
| SettingsService.Pick | frontend/src/app/services/settings.service.ts:96 | The merged value of a key has that key's type. |
| SettingsService.Merge | frontend/src/app/services/settings.service.ts:94-97 | Stored keys win, and missing keys take the default. |
| SettingsService.MergeExtremes | frontend/src/app/services/settings.service.ts:94-97 | A complete stored object is taken as it is, and an empty one gives the defaults. |
| SettingsService.LoadSettings | frontend/src/app/services/settings.service.ts:69-118 | A non-empty stored object is merged over the defaults. A missing or empty one gives the defaults and writes them back. Unavailable storage or a failed read gives the defaults without a write. Every path ends initialised. |
| SettingsService.SaveThenLoad | frontend/src/app/services/settings.service.ts:69-118 | Loading what a previous session saved after an update gives that session's settings back. |
| AppComponent.ImageUrl | frontend/src/app/app.component.ts:101-107 | The result always starts with `url(`. A value already starting with it is kept; any other is wrapped as `url('value')`. |
| AppComponent.ImageUrlIdempotent | frontend/src/app/app.component.ts:105-107 | Wrapping happens at most once. |
| AppComponent.BackgroundStyles | frontend/src/app/app.component.ts:74-121 | The style is empty exactly for an empty value or the `custom` image. Every other style carries the base properties. A solid background gives the colour with no image, a gradient gives the `background` shorthand, and an image gives the wrapped URL, fixed, over a transparent colour. Each case has exactly its keys. |
| AppComponent.ImageStyleWrapsOnce | frontend/src/app/app.component.ts:100-116 | An image value that is already `url(...)`-wrapped paints the same style as the bare value. |
| AppComponent.StyleShowsSetting | frontend/src/app/app.component.ts:74-121 | Two settings with the same non-empty style have the same kind. For an image they have the same wrapped URL, and otherwise the same value. |
| AppComponent.DefaultBackground | frontend/src/app/app.component.ts:86-93 | With the default settings the page is slate-50 with no image. |
| AppComponent.ToggleFullscreen | frontend/src/app/app.component.ts:66-68 | The flag flips. |
| AppComponent.ToggleTwice | frontend/src/app/app.component.ts:66-68 | Two toggles restore the layout. A small worked example of the toggle. |
| AddWidgetModal.FormErrors | frontend/src/app/components/add-widget-modal/add-widget-modal.component.ts:61-75 | A field has its message exactly when it is empty and dirty or touched. |
| AddWidgetModal.CompleteScheme | frontend/src/app/components/add-widget-modal/add-widget-modal.component.ts:84-89 | The result always has an `http://` or `https://` scheme. A URL with one is kept; any other gets `https://` in front. |
| AddWidgetModal.CompleteSchemeIdempotent | frontend/src/app/components/add-widget-modal/add-widget-modal.component.ts:84-89 | Completing twice is completing once, and the typed address is kept as the tail. |
| AddWidgetModal.OnSubmit | frontend/src/app/components/add-widget-modal/add-widget-modal.component.ts:77-94 | Every field is marked touched. The dialog emits and closes exactly when both fields are non-empty, and it then clears the errors. Otherwise every empty field shows its message. |
| AddWidgetModal.EmittedIsComplete | frontend/src/app/components/add-widget-modal/add-widget-modal.component.ts:81-90 | Anything emitted has the typed, non-empty title and the typed URL, with a scheme if it lacked one. |
| WorkspaceSelector.CancelEditing | frontend/src/app/components/workspace-selector/workspace-selector.component.ts:115-118 | The editor closes and the draft is cleared. |
| WorkspaceSelector.SaveEditing | frontend/src/app/components/workspace-selector/workspace-selector.component.ts:120-127 | A rename is requested exactly when a workspace is being edited and its draft is not blank, and then with the trimmed draft. The editor always closes. |
| WorkspaceSelector.HandleEditKeyDown | frontend/src/app/components/workspace-selector/workspace-selector.component.ts:129-135 | Enter saves, Escape cancels, and other keys do nothing. |
| WorkspaceSelector.RemoveWorkspace | frontend/src/app/components/workspace-selector/workspace-selector.component.ts:137-142 | Removal is always requested, and removing the workspace being edited closes the editor. |
| WorkspaceSelector.AddWorkspace | frontend/src/app/components/workspace-selector/workspace-selector.component.ts:144-150 | A blank name is ignored. Otherwise the trimmed name is added and the input is cleared. |
| WorkspaceSelector.HandleAddKeyDown | frontend/src/app/components/workspace-selector/workspace-selector.component.ts:152-156 | Only Enter adds. |
| WorkspaceSelector.SaveEditingOnce | frontend/src/app/components/workspace-selector/workspace-selector.component.ts:120-127 | Saving again after a save requests nothing. |
| WorkspaceSelector.EditorRenameLands | frontend/src/app/components/workspace-selector/workspace-selector.component.ts:120-124 | A rename from the editor gives the workspace exactly the trimmed draft. |
| WorkspaceSelector.RenameLandsAt | frontend/src/app/services/workspace.service.ts:407-433 | Renaming a workspace to an already-trimmed, non-empty name leaves it with that name. |
| WorkspaceSelector.AddedWorkspaceNamed | frontend/src/app/components/workspace-selector/workspace-selector.component.ts:144-148 | A workspace added from the input is named by the trimmed input, never by the numbered fallback. |
| WorkspaceSelector.AsList | frontend/src/app/components/workspace-selector/workspace-selector.component.ts:181-183 | An array passes through, and any other value becomes a one-element list. |
| WorkspaceSelector.ImportFile | frontend/src/app/components/workspace-selector/workspace-selector.component.ts:170-204 | Something is imported exactly when the text parsed and every item has a truthy id, a truthy name and a widget array. It is then the whole list. |
| WorkspaceSelector.OneBadItemRejectsAll | frontend/src/app/components/workspace-selector/workspace-selector.component.ts:186-192 | One bad item rejects the whole file. |
| WorkspaceSelector.SingleOrList | frontend/src/app/components/workspace-selector/workspace-selector.component.ts:181-183 | A single workspace and a one-element list of it import the same. |
| Resizable.CursorFor | frontend/src/app/directives/resizable.directive.ts:154-188 | The cursor is `default` exactly when there is no direction. |
| Resizable.Classify | frontend/src/app/directives/resizable.directive.ts:146-190 | No direction is given exactly when the pointer is in no 8-pixel band. Corners win over single edges, and the direction names only bands the pointer is in. When both opposite bands hold, the top one wins over the bottom one and the left one over the right one. |
| Resizable.OnResize | frontend/src/app/directives/resizable.directive.ts:311-362 | Without a running drag, a direction or the outline nothing happens. Otherwise the size follows the pointer's travel on the dragged edges, never below 100 x 80. West and north drags keep the right and bottom edges, and other drags never move the left and top edges. |
| Resizable.StopResize | frontend/src/app/directives/resizable.directive.ts:367-404 | Nothing is emitted unless a drag runs. The outline's size and its offset from the start are emitted, or the start size and no offset when there is no outline. |
| Resizable.StillDragIsIdentity | frontend/src/app/directives/resizable.directive.ts:316-355 | A drag that does not move the pointer leaves an element of at least the minimum size unchanged. |
| Resizable.EastWidthMonotone | frontend/src/app/directives/resizable.directive.ts:325-349 | Dragging an east edge further out never gives a narrower preview, and never moves the left edge. |
| WidgetComponent.BringToFront | frontend/src/app/components/widget/widget.component.ts:324-340 | A tile below 9999 gets the counter raised by one, capped at 9998, as its z-index. Other tiles are left alone. The counter stays in range and never goes down. |
| WidgetComponent.ClicksStayBelowUi | frontend/src/app/components/widget/widget.component.ts:324-340 | However many clicks, the shared counter stays between 100 and 9998 and never goes down. |
| WidgetComponent.Send | frontend/src/app/components/widget/widget.component.ts:261-300 | A message leaves exactly when the runtime is reachable and the widget has an id. |
| WidgetComponent.TrackIfDue | frontend/src/app/components/widget/widget.component.ts:94-118 | Tracking is requested exactly when the flag is down and the iframe URL is real and not `about:blank`. The flag then goes up, and nothing else in the view changes. |
| WidgetComponent.UpdateSafeUrl | frontend/src/app/components/widget/widget.component.ts:193-204 | A non-blank URL is handed to the iframe and remembered, and the retry flag drops. A blank URL changes nothing. |
| WidgetComponent.Settle | frontend/src/app/components/widget/widget.component.ts:94-118 | The effect runs only when the URL signal was set. |
| WidgetComponent.SavedCss | frontend/src/app/components/widget/widget.component.ts:126-129 | The saved CSS, trimmed, is sent exactly when it is not blank and a message can leave. |
| WidgetComponent.FirstTrack | frontend/src/app/components/widget/widget.component.ts:94-122 | On start-up, tracking is requested exactly for a non-blank URL that is not `about:blank`, with the flag down and a message able to leave. |
| WidgetComponent.OnInit | frontend/src/app/components/widget/widget.component.ts:121-130 | Start-up sends the trimmed saved CSS exactly when it is not blank, and tracking under the conditions above. |
| WidgetComponent.CssRequest | frontend/src/app/components/widget/widget.component.ts:162-168 | CSS is sent exactly when the trimmed new CSS is non-empty and either the frame reloaded or the CSS differs from the previous trimmed CSS. |
| WidgetComponent.Reload | frontend/src/app/components/widget/widget.component.ts:150-154 | The widget input is taken. Without a URL change nothing else happens and no tracking is requested. |
| WidgetComponent.OnChanges | frontend/src/app/components/widget/widget.component.ts:142-175 | Without a URL change no tracking is requested and the view keeps its state. CSS is sent exactly as decided above, trimmed. |
| WidgetComponent.ReloadTracks | frontend/src/app/components/widget/widget.component.ts:94-154 | A change to a real URL re-arms the flag and requests tracking, whatever the flag was. |
| WidgetComponent.OnIframeError | frontend/src/app/components/widget/widget.component.ts:215-226 | The first failure of a tile with a URL retries once and requests tracking again. Later failures change nothing. |
| WidgetComponent.OnWidgetResized | frontend/src/app/components/widget/widget.component.ts:228-246 | The emitted widget has the new size and moves by the deltas; a missing delta counts as 0. Nothing else changes. |
| WidgetComponent.OnCustomCssSaved | frontend/src/app/components/widget/widget.component.ts:248-259 | The emitted widget differs only in its CSS. The CSS is sent untrimmed, only when it is not blank. |
| WidgetComponent.SavedCssReachesStorage | frontend/src/app/components/widget/widget.component.ts:248-283 | A non-blank CSS edit is emitted on the widget, sent as `INJECT_CSS`, and the background script's handling of that message stores exactly that CSS on the widget. |
| WidgetComponent.SameUrlNeverRetracks | frontend/src/app/components/widget/widget.component.ts:94-154 | While the URL stays the same, no input makes the tile request tracking again. |
| WidgetComponent.RedeliveryIsQuiet | frontend/src/app/components/widget/widget.component.ts:142-175 | Delivering the same widget again sends nothing, once its URL is real. |
| WidgetComponent.BlankUrlResendsCss | frontend/src/app/components/widget/widget.component.ts:150-168 | A blank URL is never remembered, so every delivery counts as a reload and unchanged CSS is sent again. |
| WidgetComponent.BlankPageNeverTracks | frontend/src/app/components/widget/widget.component.ts:113 | `about:blank` never requests tracking. |
| WidgetComponent.ResizeKeepsOppositeEdge | frontend/src/app/components/widget/widget.component.ts:228-246 | A finished drag leaves the tile at least 100 x 80, with the edge opposite the dragged one in place. |
| Base.Trim | frontend/src/app/services/workspace.service.ts:408 | The trimmed string is empty exactly when the input is all white space. Otherwise it neither starts nor ends with white space. It is a slice of the input with only white space outside it. |
| Base.TrimIdempotent | frontend/src/app/services/workspace.service.ts:408 | Trimming twice is trimming once. |
| Base.NatToString | frontend/src/app/services/workspace.service.ts:361 | The decimal form of a count is non-empty, all digits, a single digit exactly below ten, with no leading zero when longer, and its digits read back as the count. |
| Base.NatToStringInjective | frontend/src/app/services/workspace.service.ts:361 | Different counts give different numbered names. |

## Left out

- Browser plumbing in the background script is left out: listener registration, the `return true`/`false` that keeps the response channel open, and `log` output.
- The background script's real timers and the interleaving of other events across its `await`s are left out. Each handler is one atomic step. The only delay modelled is `injectCssWhenReady`'s, as the separate `Resume` step.
- `webNavigation.onErrorOccurred` (`Extension/background.js:432-446`) and `action.onClicked` (`:25-29`) are left out: they open and redirect extension pages.
- `normalizeUrl`'s guard for non-string input and its `catch` are left out: every URL in the model is a string.
- Background.InjectCssRequest: the `Number.isInteger(frameId)` check is not modelled, because a binding always holds an integer frame.
- Background.InjectCssRequest: a storage failure is one `io` flag for the whole read-modify-write; a partial write is not modelled.
- Background.Run: runs any finite event sequence. It has no contract of its own; `RunKeepsInv` states what it keeps.
- WorkspaceService: `saveAppState`, `exportWorkspace` and `exportAllWorkspaces` are left out. They are storage and download I/O; `Saves` records which updates are written.
- WorkspaceService.UpdateWidget: compares widgets structurally. The code compares `JSON.stringify` output, which also depends on key order.
- WorkspaceService.ImportWorkspaces: receives workspace records. Decoding the parsed JSON items into records is not modelled; `WorkspaceSelector.ImportFile` models the check on the parsed value.
- SettingsService.LoadSettings: requires the stored object to hold well-typed values under known keys. Stored values of the wrong type, unknown keys, and a stored non-object whose keys would be spread into the result are not modelled.
- SettingsService: the saving effect (`settings.service.ts:46-63`) and `saveSettings` are left out, because they are storage writes. `Loaded.savesDefaults` records the one write that decides behaviour.
- WidgetComponent: `updateFaviconUrl`, `checkHandlePosition`, `refreshWidget`, `onIframeLoad` and `removeWidget` are left out, because they are DOM and signal updates. So are the message response callbacks, which only log.
- WidgetComponent: `ngOnDestroy`'s `UNREGISTER_WIDGET` is left out. It is forwarded exactly like the other messages; the background side is `Background.Unregister`.
- WidgetComponent.View: `connected` stands for "`chrome.runtime` and `chrome.runtime.id` exist".
- WidgetComponent.BringToFront: the tile's style is abstracted to unset, a number, or unparsable. `parseInt` on other strings is not modelled.
- Resizable: `startResize` is left out, because it captures DOM geometry; the captured values are the fields of `Drag`. The overlay, the outline and the listeners are left out as well.
- Resizable: pixel values are integers, so fractional client rectangles are not modelled.
- Resizable.StopResize: the outline's rectangle as the page reports it is a parameter.
- AddWidgetModal: `onCancel` and the dialog reference are left out; they only close the dialog.
- WorkspaceSelector: `selectWorkspace`, `startEditing`, the export buttons and `triggerFileInput` are left out. They forward or touch the DOM.
- WorkspaceSelector: `FileReader` and `JSON.parse` are left out. The parse result is a parameter, with `None` for text that is not JSON.
- Fresh ids from `uuidv4` are parameters. The model does not state that they are unique except where a lemma requires it (`FreshFor`).

## Findings

| source | as written | input that shows it | evidently intended | confidence | as-written member | corrected member |
|---|---|---|---|---|---|---|
| Extension/background.js:346-361 | The frame loop unbinds every widget of the closed tab. The pending-CSS loop then looks only at widgets still bound to that tab, so it finds none of them. | An active tab 5 whose frame entry names widget `w`, bound to it, with CSS queued for `w`. After the tab closes, `w` is unbound but its CSS is still queued. | Drop the queued CSS of every widget that was bound to the closed tab, as the comment at line 356 says. | not executed; high (follows from the loop order) | Background.OnTabRemovedKeepsPurgedWidgetsCss | Background.OnTabRemovedPurgingPending |
| Extension/background.js:388-394 | `injectCssWhenReady` puts the CSS back in the queue when the binding changed during its delay or the injection failed. Its callers then delete the queue entry unconditionally. | Queued CSS for `w`, then `w`'s frame completes loading, and the delayed `insertCSS` fails with an error that mentions neither permission nor access, so `injectCss` rejects (lines 472-480 retry only those two). Line 555 queues the CSS again and line 394 deletes it, so nothing is left queued for the next load. | Keep CSS that was not applied queued for the next frame, and clear the entry only after a successful injection. | not executed; medium (the delete may be meant only for the success path) | Background.ResumeDropsRequeuedCss | Background.ResumeKeepingQueue |
