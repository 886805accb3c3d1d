/**
 The dashboard's workspace state: the pure updates `WorkspaceService` hands to
 `updateState`, and the normalisation `loadAppState` applies to what storage
 holds. An update either hands back the current state object (nothing is
 emitted or saved) or a new one (emitted and saved). Fresh ids, produced by
 `uuidv4` in the dashboard, are parameters.
 */
module WorkspaceService {
  import opened Base
  import opened Models

  /** The result of an update function: the same state object, or a new one. */
  datatype Update = Unchanged | Changed(next: AppState)

  /** `updateState`: the state after the update. */
  function After(s: AppState, u: Update): AppState {
    match u
    case Unchanged => s
    case Changed(next) => next
  }

  /** `updateState` persists exactly the updates that return a new object. */
  predicate Saves(u: Update) {
    u.Changed?
  }

  /** A state the dashboard can show: at least one workspace, and the active id names one. */
  predicate Usable(s: AppState) {
    |s.workspaces| >= 1 && s.activeWorkspace.Some? && HasWorkspace(s.workspaces, s.activeWorkspace.value)
  }

  /** `workspaces.findIndex(ws => ws.id === id)`, with `-1` as `None`. */
  function IndexOf(wss: seq<Workspace>, id: string): (r: Option<nat>)
    ensures r.None? <==> !HasWorkspace(wss, id)
    ensures r.Some? ==> r.value < |wss| && wss[r.value].id == id
    ensures r.Some? ==> forall j :: 0 <= j < r.value ==> wss[j].id != id
  {
    if wss == [] then None
    else if wss[0].id == id then Some(0)
    else match IndexOf(wss[1..], id)
      case None => None
      case Some(i) => Some(i + 1)
  }

  // ---------------------------------------------------------------------
  // loadAppState
  // ---------------------------------------------------------------------

  /** What `chrome.storage.local.get` yields for the `workspaces` key. */
  datatype StoredApp =
    | NothingStored          // the key, or its `workspaces` list, is missing
    | Stored(doc: AppState)
    | LoadFailed             // the read threw

  /** A single workspace named "Default", under a fresh id. */
  function DefaultState(newId: string): (s: AppState)
    ensures Usable(s) && |s.workspaces| == 1
  {
    var s := AppState([Workspace(newId, "Default", [])], Some(newId));
    assert s.workspaces[0].id == newId;
    s
  }

  /**
   `loadAppState`: the state shown at start-up and whether it must be written
   back. A stored document with workspaces keeps them and only repairs a
   missing or dangling active id; anything else becomes a fresh default.
   */
  function LoadAppState(stored: StoredApp, newId: string): (r: (AppState, bool))
    ensures Usable(r.0)
    // stored workspaces are never lost or reordered
    ensures stored.Stored? && |stored.doc.workspaces| > 0 ==> r.0.workspaces == stored.doc.workspaces
    // a usable stored state is taken as it is, and not written back
    ensures stored.Stored? && |stored.doc.workspaces| > 0 ==>
              (r.1 <==> !(Present(stored.doc.activeWorkspace) && HasWorkspace(stored.doc.workspaces, stored.doc.activeWorkspace.value)))
    ensures !r.1 ==> stored.Stored? && r.0 == stored.doc
    // a missing or dangling active id is repaired to the first workspace
    ensures stored.Stored? && |stored.doc.workspaces| > 0 && r.1 ==>
              r.0 == stored.doc.(activeWorkspace := Some(stored.doc.workspaces[0].id))
    ensures r.1 && !(stored.Stored? && |stored.doc.workspaces| > 0) ==> r.0 == DefaultState(newId)
  {
    match stored
    case Stored(doc) =>
      if |doc.workspaces| > 0 && (!Present(doc.activeWorkspace) || !HasWorkspace(doc.workspaces, doc.activeWorkspace.value)) then
        (doc.(activeWorkspace := Some(doc.workspaces[0].id)), true)
      else if |doc.workspaces| == 0 then
        (DefaultState(newId), true)
      else
        (doc, false)
    case NothingStored => (DefaultState(newId), true)
    case LoadFailed => (DefaultState(newId), true)
  }

  /** Loading what loading wrote back changes nothing and writes nothing. */
  lemma LoadAppStateStable(stored: StoredApp, newId: string, fresh2: string)
    requires Truthy(LoadAppState(stored, newId).0.activeWorkspace.value)
    ensures LoadAppState(Stored(LoadAppState(stored, newId).0), fresh2) == (LoadAppState(stored, newId).0, false)
  {
  }

  // ---------------------------------------------------------------------
  // setActiveWorkspace
  // ---------------------------------------------------------------------

  function SetActiveWorkspace(s: AppState, id: string): (u: Update)
    ensures u.Unchanged? <==> s.activeWorkspace == Some(id) || !HasWorkspace(s.workspaces, id)
    ensures u.Changed? ==> u.next == s.(activeWorkspace := Some(id))
    ensures After(s, u).workspaces == s.workspaces
  {
    if s.activeWorkspace == Some(id) then Unchanged
    else if HasWorkspace(s.workspaces, id) then Changed(s.(activeWorkspace := Some(id)))
    else Unchanged
  }

  // ---------------------------------------------------------------------
  // addWidget / removeWidget / updateWidget
  // ---------------------------------------------------------------------

  /** The fields `addWidget` is given; position and size may be left out. */
  datatype NewWidget = NewWidget(
    title: string,
    url: string,
    position: Option<Position>,
    width: Option<int>,
    height: Option<int>,
    customCss: Option<string>)

  function OrElse<T>(o: Option<T>, d: T): T {
    if o.Some? then o.value else d
  }

  /** The widget `addWidget` creates: the given fields, else (10, 10), 400 x 300 and no CSS. */
  function MakeWidget(data: NewWidget, id: string): (w: Widget)
    ensures w.id == id && w.title == data.title && w.url == data.url
    ensures data.position.None? ==> w.position == Position(10, 10)
    ensures data.width.None? ==> w.width == 400
    ensures data.height.None? ==> w.height == 300
    ensures data.customCss.None? ==> w.customCss == ""
    ensures data.position.Some? ==> w.position == data.position.value
    ensures data.width.Some? ==> w.width == data.width.value
    ensures data.height.Some? ==> w.height == data.height.value
    ensures data.customCss.Some? ==> w.customCss == data.customCss.value
  {
    Widget(id, data.title, data.url, OrElse(data.position, Position(10, 10)),
           OrElse(data.width, 400), OrElse(data.height, 300), OrElse(data.customCss, ""))
  }

  /** Replace the workspace at index `i`. */
  function ReplaceAt(wss: seq<Workspace>, i: nat, ws: Workspace): (r: seq<Workspace>)
    requires i < |wss|
    ensures |r| == |wss| && r[i] == ws
    ensures forall j :: 0 <= j < |wss| && j != i ==> r[j] == wss[j]
  {
    wss[i := ws]
  }

  /**
   `addWidget`: append one new widget to the active workspace (the first with
   that id). Without an active workspace, or one that is not found, nothing happens.
   */
  function AddWidget(s: AppState, data: NewWidget, newId: string): (u: Update)
    ensures u.Unchanged? <==> !Present(s.activeWorkspace) || !HasWorkspace(s.workspaces, s.activeWorkspace.value)
    ensures u.Changed? ==>
              var i := IndexOf(s.workspaces, s.activeWorkspace.value).value;
              && u.next.activeWorkspace == s.activeWorkspace
              && |u.next.workspaces| == |s.workspaces|
              && u.next.workspaces[i] == s.workspaces[i].(widgets := s.workspaces[i].widgets + [MakeWidget(data, newId)])
              && (forall j :: 0 <= j < |s.workspaces| && j != i ==> u.next.workspaces[j] == s.workspaces[j])
  {
    if !Present(s.activeWorkspace) then Unchanged
    else match IndexOf(s.workspaces, s.activeWorkspace.value)
      case None => Unchanged
      case Some(i) =>
        var ws := s.workspaces[i];
        Changed(s.(workspaces := ReplaceAt(s.workspaces, i, ws.(widgets := ws.widgets + [MakeWidget(data, newId)]))))
  }

  /** `widgets.filter(w => w.id !== id)`. */
  function Without(ws: seq<Widget>, id: string): (r: seq<Widget>)
    ensures |r| <= |ws|
    ensures forall w :: w in r <==> w in ws && w.id != id
    ensures |r| == |ws| <==> forall i :: 0 <= i < |ws| ==> ws[i].id != id
    ensures |r| == |ws| ==> r == ws
  {
    if ws == [] then []
    else
      var rest := Without(ws[1..], id);
      assert forall i :: 1 <= i < |ws| ==> ws[i] == ws[1..][i - 1];
      assert ws == [ws[0]] + ws[1..];
      if ws[0].id == id then rest else [ws[0]] + rest
  }

  /** The filter written as one widget at a time, front to back. */
  function Keep(ws: seq<Widget>, id: string): seq<Widget>
    decreases |ws|
  {
    if ws == [] then [] else (if ws[0].id == id then [] else [ws[0]]) + Keep(ws[1..], id)
  }

  lemma {:induction false} WithoutIsKeep(ws: seq<Widget>, id: string)
    ensures Without(ws, id) == Keep(ws, id)
    decreases |ws|
  {
    if ws != [] {
      WithoutIsKeep(ws[1..], id);
    }
  }

  lemma {:induction false} KeepConcat(a: seq<Widget>, b: seq<Widget>, id: string)
    ensures Keep(a + b, id) == Keep(a, id) + Keep(b, id)
    decreases |a|
  {
    if a == [] {
      assert a + b == b;
    } else {
      assert (a + b)[0] == a[0] && (a + b)[1..] == a[1..] + b;
      KeepConcat(a[1..], b, id);
    }
  }

  /** The filter keeps the order: it distributes over concatenation. */
  lemma WithoutConcat(a: seq<Widget>, b: seq<Widget>, id: string)
    ensures Without(a + b, id) == Without(a, id) + Without(b, id)
  {
    WithoutIsKeep(a + b, id);
    WithoutIsKeep(a, id);
    WithoutIsKeep(b, id);
    KeepConcat(a, b, id);
  }

  /** A single widget survives the filter exactly when its id differs. */
  lemma WithoutSingle(w: Widget, id: string)
    ensures Without([w], id) == if w.id == id then [] else [w]
  {
    assert [w][1..] == [];
  }

  /** Some workspace with id `wsId` holds a widget with id `id`. */
  predicate HoldsWidget(wss: seq<Workspace>, wsId: string, id: string) {
    exists i, j :: 0 <= i < |wss| && wss[i].id == wsId && 0 <= j < |wss[i].widgets| && wss[i].widgets[j].id == id
  }

  /** Filter the widget out of every workspace carrying the active id. */
  function RemoveFrom(wss: seq<Workspace>, active: string, id: string): (r: seq<Workspace>)
    ensures |r| == |wss|
    ensures forall i :: 0 <= i < |wss| ==>
              r[i] == if wss[i].id == active then wss[i].(widgets := Without(wss[i].widgets, id)) else wss[i]
  {
    if wss == [] then []
    else [if wss[0].id == active then wss[0].(widgets := Without(wss[0].widgets, id)) else wss[0]]
         + RemoveFrom(wss[1..], active, id)
  }

  /**
   `removeWidget`: drop every widget with the id from the active workspace;
   when none was there the state object is kept.
   */
  function RemoveWidget(s: AppState, id: string): (u: Update)
    ensures u.Unchanged? <==> !Present(s.activeWorkspace) || !HoldsWidget(s.workspaces, s.activeWorkspace.value, id)
    ensures u.Changed? ==>
              && u.next.activeWorkspace == s.activeWorkspace
              && |u.next.workspaces| == |s.workspaces|
              && forall i :: 0 <= i < |s.workspaces| ==>
                   && u.next.workspaces[i].id == s.workspaces[i].id
                   && u.next.workspaces[i].name == s.workspaces[i].name
                   && (forall w :: w in u.next.workspaces[i].widgets <==>
                         w in s.workspaces[i].widgets && (w.id != id || s.workspaces[i].id != s.activeWorkspace.value))
    // the active workspace keeps its other widgets in order, and every other workspace is untouched
    ensures u.Changed? ==>
              forall i :: 0 <= i < |s.workspaces| ==>
                && (s.workspaces[i].id == s.activeWorkspace.value ==>
                      u.next.workspaces[i] == s.workspaces[i].(widgets := Without(s.workspaces[i].widgets, id)))
                && (s.workspaces[i].id != s.activeWorkspace.value ==> u.next.workspaces[i] == s.workspaces[i])
  {
    if !Present(s.activeWorkspace) then Unchanged
    else if HoldsWidget(s.workspaces, s.activeWorkspace.value, id) then
      Changed(s.(workspaces := RemoveFrom(s.workspaces, s.activeWorkspace.value, id)))
    else Unchanged
  }

  /** `widgets.findIndex(w => w.id === id)`. */
  function WidgetIndex(ws: seq<Widget>, id: string): (r: Option<nat>)
    ensures r.None? <==> forall j :: 0 <= j < |ws| ==> ws[j].id != id
    ensures r.Some? ==> r.value < |ws| && ws[r.value].id == id
    ensures r.Some? ==> forall j :: 0 <= j < r.value ==> ws[j].id != id
  {
    if ws == [] then None
    else if ws[0].id == id then Some(0)
    else match WidgetIndex(ws[1..], id)
      case None => None
      case Some(i) => Some(i + 1)
  }

  /** The widget list of one workspace after `updateWidget`, when it changes. */
  function Replaced(ws: seq<Widget>, updated: Widget): Option<seq<Widget>> {
    match WidgetIndex(ws, updated.id)
    case None => None
    case Some(i) => if ws[i] != updated then Some(ws[i := updated]) else None
  }

  function ReplaceIn(wss: seq<Workspace>, active: string, updated: Widget): (r: seq<Workspace>)
    ensures |r| == |wss|
    ensures forall i :: 0 <= i < |wss| ==>
              r[i] == if wss[i].id == active && Replaced(wss[i].widgets, updated).Some?
                      then wss[i].(widgets := Replaced(wss[i].widgets, updated).value) else wss[i]
  {
    if wss == [] then []
    else
      var head := if wss[0].id == active && Replaced(wss[0].widgets, updated).Some?
                  then wss[0].(widgets := Replaced(wss[0].widgets, updated).value) else wss[0];
      [head] + ReplaceIn(wss[1..], active, updated)
  }

  /** Only widgets of active-id workspaces change, and only the first one with `updated`'s id, into `updated`. */
  lemma ReplaceInShape(wss: seq<Workspace>, active: string, updated: Widget)
    ensures forall i :: 0 <= i < |wss| ==>
              var before := wss[i].widgets;
              var after := ReplaceIn(wss, active, updated)[i].widgets;
              && ReplaceIn(wss, active, updated)[i].id == wss[i].id
              && ReplaceIn(wss, active, updated)[i].name == wss[i].name
              && |after| == |before|
              && (wss[i].id != active ==> after == before)
              && (forall j :: 0 <= j < |before| ==>
                    after[j] == before[j] ||
                    (after[j] == updated && before[j].id == updated.id && forall k :: 0 <= k < j ==> before[k].id != updated.id))
  {
    var r := ReplaceIn(wss, active, updated);
    forall i | 0 <= i < |wss|
      ensures var before := wss[i].widgets;
              var after := r[i].widgets;
              && r[i].id == wss[i].id && r[i].name == wss[i].name && |after| == |before|
              && (wss[i].id != active ==> after == before)
              && (forall j :: 0 <= j < |before| ==>
                    after[j] == before[j] ||
                    (after[j] == updated && before[j].id == updated.id && forall k :: 0 <= k < j ==> before[k].id != updated.id))
    {
      var before := wss[i].widgets;
      if wss[i].id == active && Replaced(before, updated).Some? {
        var k := WidgetIndex(before, updated.id).value;
        assert r[i].widgets == before[k := updated];
      }
    }
  }

  /** In a workspace with the active id, the first widget with `updated`'s id becomes `updated`. */
  lemma ReplaceInActive(wss: seq<Workspace>, active: string, updated: Widget)
    ensures forall i :: 0 <= i < |wss| && wss[i].id == active ==>
              var before := wss[i].widgets;
              ReplaceIn(wss, active, updated)[i] == wss[i].(widgets :=
                if WidgetIndex(before, updated.id).Some? then before[WidgetIndex(before, updated.id).value := updated] else before)
  {
    forall i | 0 <= i < |wss| && wss[i].id == active
      ensures var before := wss[i].widgets;
              ReplaceIn(wss, active, updated)[i] == wss[i].(widgets :=
                if WidgetIndex(before, updated.id).Some? then before[WidgetIndex(before, updated.id).value := updated] else before)
    {
      var before := wss[i].widgets;
      var k := WidgetIndex(before, updated.id);
      if k.Some? && Replaced(before, updated).None? {
        assert before[k.value := updated] == before;
      }
    }
  }

  /** Some workspace with the active id holds a same-id widget that differs from `updated`. */
  predicate WouldChange(wss: seq<Workspace>, active: string, updated: Widget) {
    exists i :: 0 <= i < |wss| && wss[i].id == active && Replaced(wss[i].widgets, updated).Some?
  }

  /**
   `updateWidget`: in the active workspace, the first widget with the same id is
   replaced in place; a missing widget or an identical one keeps the state object.
   */
  function UpdateWidget(s: AppState, updated: Widget): (u: Update)
    ensures u.Unchanged? <==> !Present(s.activeWorkspace) || !WouldChange(s.workspaces, s.activeWorkspace.value, updated)
    ensures u.Changed? ==>
              && u.next.activeWorkspace == s.activeWorkspace
              && |u.next.workspaces| == |s.workspaces|
              && forall i :: 0 <= i < |s.workspaces| ==>
                   var before := s.workspaces[i].widgets;
                   var after := u.next.workspaces[i].widgets;
                   && u.next.workspaces[i].id == s.workspaces[i].id
                   && u.next.workspaces[i].name == s.workspaces[i].name
                   && |after| == |before|
                   && (s.workspaces[i].id != s.activeWorkspace.value ==> after == before)
                   && (forall j :: 0 <= j < |before| ==>
                         after[j] == before[j] ||
                         (after[j] == updated && before[j].id == updated.id && forall k :: 0 <= k < j ==> before[k].id != updated.id))
    // in the active workspace the first widget with the id is replaced, and nothing else moves
    ensures u.Changed? ==>
              forall i :: 0 <= i < |s.workspaces| && s.workspaces[i].id == s.activeWorkspace.value ==>
                var before := s.workspaces[i].widgets;
                u.next.workspaces[i] == s.workspaces[i].(widgets :=
                  if WidgetIndex(before, updated.id).Some? then before[WidgetIndex(before, updated.id).value := updated] else before)
  {
    if !Present(s.activeWorkspace) then Unchanged
    else if WouldChange(s.workspaces, s.activeWorkspace.value, updated) then
      ReplaceInShape(s.workspaces, s.activeWorkspace.value, updated);
      ReplaceInActive(s.workspaces, s.activeWorkspace.value, updated);
      Changed(s.(workspaces := ReplaceIn(s.workspaces, s.activeWorkspace.value, updated)))
    else Unchanged
  }

  // ---------------------------------------------------------------------
  // addWorkspace / removeWorkspace / renameWorkspace / importWorkspaces
  // ---------------------------------------------------------------------

  /** `name || \`Workspace ${n + 1}\``. */
  function WorkspaceName(name: string, count: nat): (r: string)
    ensures Truthy(name) ==> r == name
    ensures !Truthy(name) ==> r == "Workspace " + NatToString(count + 1)
    // the fallback is "Workspace " followed by the decimal digits of count + 1, with no leading zero
    ensures !Truthy(name) ==>
              && |r| > 10 && r[..10] == "Workspace "
              && (forall i :: 10 <= i < |r| ==> '0' <= r[i] <= '9')
              && r[10] != '0'
              && DecimalValue(r[10..]) == count + 1
    ensures Truthy(r)
  {
    if Truthy(name) then name else "Workspace " + NatToString(count + 1)
  }

  /** `addWorkspace`: append an empty workspace; always a new state object. */
  function AddWorkspace(s: AppState, name: string, newId: string): (u: Update)
    ensures u.Changed?
    ensures u.next.activeWorkspace == s.activeWorkspace
    ensures u.next.workspaces == s.workspaces + [Workspace(newId, WorkspaceName(name, |s.workspaces|), [])]
  {
    Changed(s.(workspaces := s.workspaces + [Workspace(newId, WorkspaceName(name, |s.workspaces|), [])]))
  }

  /** `workspaces.filter(ws => ws.id !== id)`. */
  function WithoutWorkspace(wss: seq<Workspace>, id: string): (r: seq<Workspace>)
    ensures |r| <= |wss|
    ensures forall w :: w in r <==> w in wss && w.id != id
    ensures !HasWorkspace(wss, id) ==> r == wss
  {
    if wss == [] then []
    else
      var rest := WithoutWorkspace(wss[1..], id);
      assert forall i :: 1 <= i < |wss| ==> wss[i] == wss[1..][i - 1];
      assert wss == [wss[0]] + wss[1..];
      if wss[0].id == id then rest
      else [wss[0]] + rest
  }

  /** The workspace filter written one workspace at a time, front to back. */
  function KeepWorkspaces(wss: seq<Workspace>, id: string): seq<Workspace>
    decreases |wss|
  {
    if wss == [] then [] else (if wss[0].id == id then [] else [wss[0]]) + KeepWorkspaces(wss[1..], id)
  }

  lemma {:induction false} WithoutWorkspaceIsKeep(wss: seq<Workspace>, id: string)
    ensures WithoutWorkspace(wss, id) == KeepWorkspaces(wss, id)
    decreases |wss|
  {
    if wss != [] {
      WithoutWorkspaceIsKeep(wss[1..], id);
    }
  }

  lemma {:induction false} KeepWorkspacesConcat(a: seq<Workspace>, b: seq<Workspace>, id: string)
    ensures KeepWorkspaces(a + b, id) == KeepWorkspaces(a, id) + KeepWorkspaces(b, id)
    decreases |a|
  {
    if a == [] {
      assert a + b == b;
    } else {
      assert (a + b)[0] == a[0] && (a + b)[1..] == a[1..] + b;
      KeepWorkspacesConcat(a[1..], b, id);
    }
  }

  /** The filter keeps the order: it distributes over concatenation. */
  lemma WithoutWorkspaceConcat(a: seq<Workspace>, b: seq<Workspace>, id: string)
    ensures WithoutWorkspace(a + b, id) == WithoutWorkspace(a, id) + WithoutWorkspace(b, id)
  {
    WithoutWorkspaceIsKeep(a + b, id);
    WithoutWorkspaceIsKeep(a, id);
    WithoutWorkspaceIsKeep(b, id);
    KeepWorkspacesConcat(a, b, id);
  }

  /** A prefix of workspaces that all carry the id is filtered away entirely. */
  lemma {:induction false} KeepWorkspacesAllGone(wss: seq<Workspace>, id: string)
    requires forall j :: 0 <= j < |wss| ==> wss[j].id == id
    ensures KeepWorkspaces(wss, id) == []
    decreases |wss|
  {
    if wss != [] {
      KeepWorkspacesAllGone(wss[1..], id);
    }
  }

  /** What the filter leaves starts with the first workspace carrying another id. */
  lemma FirstRemaining(wss: seq<Workspace>, id: string, k: nat)
    requires k < |wss| && wss[k].id != id && forall j :: 0 <= j < k ==> wss[j].id == id
    ensures WithoutWorkspace(wss, id) != [] && WithoutWorkspace(wss, id)[0] == wss[k]
  {
    var front, rest := wss[..k], wss[k..];
    assert wss == front + rest;
    KeepWorkspacesConcat(front, rest, id);
    KeepWorkspacesAllGone(front, id);
    assert rest[0] == wss[k];
    assert KeepWorkspaces(rest, id) == [wss[k]] + KeepWorkspaces(rest[1..], id);
    WithoutWorkspaceIsKeep(wss, id);
  }

  /** Filtering keeps workspace ids distinct. */
  lemma {:induction false} WithoutWorkspaceUnique(wss: seq<Workspace>, id: string)
    requires UniqueWorkspaceIds(wss)
    ensures UniqueWorkspaceIds(WithoutWorkspace(wss, id))
  {
    if wss != [] {
      var rest := WithoutWorkspace(wss[1..], id);
      WithoutWorkspaceUnique(wss[1..], id);
      if wss[0].id != id {
        var r := [wss[0]] + rest;
        forall j | 0 < j < |r| ensures r[0].id != r[j].id {
          assert r[j] in rest;
          var k :| 0 <= k < |wss[1..]| && wss[1..][k] == r[j];
          assert wss[k + 1] == r[j];
        }
      }
    }
  }

  /**
   `removeWorkspace`: the last workspace is never removed; otherwise the id is
   filtered out and, when it was the active one, the first remaining workspace
   becomes active.
   */
  function RemoveWorkspace(s: AppState, id: string): (u: Update)
    ensures u.Unchanged? <==> |s.workspaces| <= 1
    ensures u.Changed? ==>
              && u.next.workspaces == WithoutWorkspace(s.workspaces, id)
              && (s.activeWorkspace != Some(id) ==> u.next.activeWorkspace == s.activeWorkspace)
              && (s.activeWorkspace == Some(id) ==>
                    u.next.activeWorkspace == if u.next.workspaces == [] then None else Some(u.next.workspaces[0].id))
    // removing the active workspace activates the first workspace with another id
    ensures u.Changed? && s.activeWorkspace == Some(id) ==>
              forall k :: 0 <= k < |s.workspaces| && s.workspaces[k].id != id && (forall j :: 0 <= j < k ==> s.workspaces[j].id == id) ==>
                u.next.activeWorkspace == Some(s.workspaces[k].id)
  {
    if |s.workspaces| <= 1 then Unchanged
    else
      var rest := WithoutWorkspace(s.workspaces, id);
      assert s.activeWorkspace == Some(id) ==>
               forall k :: 0 <= k < |s.workspaces| && s.workspaces[k].id != id && (forall j :: 0 <= j < k ==> s.workspaces[j].id == id) ==>
                 rest != [] && rest[0] == s.workspaces[k] by {
        forall k | 0 <= k < |s.workspaces| && s.workspaces[k].id != id && (forall j :: 0 <= j < k ==> s.workspaces[j].id == id)
          ensures rest != [] && rest[0] == s.workspaces[k]
        {
          FirstRemaining(s.workspaces, id, k);
        }
      }
      var active := if s.activeWorkspace == Some(id) then (if rest == [] then None else Some(rest[0].id)) else s.activeWorkspace;
      Changed(AppState(rest, active))
  }

  /** With distinct workspace ids, removal keeps them distinct and keeps a usable state usable. */
  lemma RemoveWorkspaceKeepsUsable(s: AppState, id: string)
    requires Usable(s) && UniqueWorkspaceIds(s.workspaces)
    ensures Usable(After(s, RemoveWorkspace(s, id)))
    ensures UniqueWorkspaceIds(After(s, RemoveWorkspace(s, id)).workspaces)
  {
    if |s.workspaces| > 1 {
      var rest := WithoutWorkspace(s.workspaces, id);
      WithoutWorkspaceUnique(s.workspaces, id);
      if s.activeWorkspace != Some(id) {
        var k :| 0 <= k < |s.workspaces| && s.workspaces[k].id == s.activeWorkspace.value;
        assert s.workspaces[k] in rest;
      } else {
        // two workspaces with distinct ids: one of them survives
        var k := if s.workspaces[0].id == id then 1 else 0;
        assert s.workspaces[k] in rest;
        assert rest[0] in rest;
      }
    }
  }

  /** Rename every workspace with the id whose name differs from `name`. */
  function RenameIn(wss: seq<Workspace>, id: string, name: string): (r: seq<Workspace>)
    ensures |r| == |wss|
    ensures forall i :: 0 <= i < |wss| ==> r[i] == if wss[i].id == id then wss[i].(name := name) else wss[i]
  {
    if wss == [] then []
    else [if wss[0].id == id then wss[0].(name := name) else wss[0]] + RenameIn(wss[1..], id, name)
  }

  /** Some workspace with the id is not yet called `name`. */
  predicate Renames(wss: seq<Workspace>, id: string, name: string) {
    exists i :: 0 <= i < |wss| && wss[i].id == id && wss[i].name != name
  }

  /**
   `renameWorkspace`: the trimmed name replaces the workspace's name; a blank
   name, an unknown id or an unchanged name keep the state object.
   */
  function RenameWorkspace(s: AppState, id: string, newName: string): (u: Update)
    ensures u.Unchanged? <==> Blank(newName) || !Renames(s.workspaces, id, Trim(newName))
    ensures u.Changed? ==>
              && u.next.activeWorkspace == s.activeWorkspace
              && |u.next.workspaces| == |s.workspaces|
              && forall i :: 0 <= i < |s.workspaces| ==>
                   u.next.workspaces[i] == if s.workspaces[i].id == id then s.workspaces[i].(name := Trim(newName)) else s.workspaces[i]
  {
    var name := Trim(newName);
    if name == [] then Unchanged
    else if Renames(s.workspaces, id, name) then
      Changed(s.(workspaces := RenameIn(s.workspaces, id, name)))
    else Unchanged
  }

  /** Renaming twice to the same name is renaming once. */
  lemma RenameIdempotent(s: AppState, id: string, newName: string)
    ensures RenameWorkspace(After(s, RenameWorkspace(s, id, newName)), id, newName).Unchanged?
  {
    var u := RenameWorkspace(s, id, newName);
    if u.Changed? {
      var w := u.next.workspaces;
      assert !Renames(w, id, Trim(newName)) by {
        forall i | 0 <= i < |w| && w[i].id == id ensures w[i].name == Trim(newName) {
          assert s.workspaces[i].id == id;
        }
      }
    }
  }

  /** An imported workspace with fresh ids for itself and each of its widgets. */
  function Reissue(ws: Workspace, wsId: string, widgetIds: nat -> string): (r: Workspace)
    ensures r.id == wsId && r.name == ws.name && |r.widgets| == |ws.widgets|
    ensures forall j :: 0 <= j < |ws.widgets| ==> r.widgets[j] == ws.widgets[j].(id := widgetIds(j))
  {
    Workspace(wsId, ws.name, seq(|ws.widgets|, j requires 0 <= j < |ws.widgets| => ws.widgets[j].(id := widgetIds(j))))
  }

  /**
   `importWorkspaces`: every imported workspace is appended after the existing
   ones, its id and its widgets' ids replaced by fresh ones.
   */
  function ImportWorkspaces(s: AppState, imported: seq<Workspace>, wsIds: nat -> string,
                            widgetIds: nat -> nat -> string): (u: Update)
    ensures u.Changed?
    ensures u.next.activeWorkspace == s.activeWorkspace
    ensures |u.next.workspaces| == |s.workspaces| + |imported|
    ensures u.next.workspaces[..|s.workspaces|] == s.workspaces
    ensures forall i :: 0 <= i < |imported| ==>
              var w := u.next.workspaces[|s.workspaces| + i];
              && w.id == wsIds(i) && w.name == imported[i].name
              && |w.widgets| == |imported[i].widgets|
              && forall j :: 0 <= j < |w.widgets| ==> w.widgets[j] == imported[i].widgets[j].(id := widgetIds(i)(j))
  {
    var added := seq(|imported|, i requires 0 <= i < |imported| => Reissue(imported[i], wsIds(i), widgetIds(i)));
    Changed(s.(workspaces := s.workspaces + added))
  }

  // ---------------------------------------------------------------------
  // Relations between the operations
  // ---------------------------------------------------------------------

  /** Adding a widget under an unused id and then removing that id restores the workspaces. */
  lemma AddThenRemoveWidget(s: AppState, data: NewWidget, newId: string)
    requires Present(s.activeWorkspace) && HasWorkspace(s.workspaces, s.activeWorkspace.value)
    requires forall i, j :: 0 <= i < |s.workspaces| && 0 <= j < |s.workspaces[i].widgets| ==> s.workspaces[i].widgets[j].id != newId
    ensures After(After(s, AddWidget(s, data, newId)), RemoveWidget(After(s, AddWidget(s, data, newId)), newId)) == s
  {
    var s1 := After(s, AddWidget(s, data, newId));
    var i := IndexOf(s.workspaces, s.activeWorkspace.value).value;
    assert s1.workspaces[i].widgets[|s1.workspaces[i].widgets| - 1].id == newId;
    var s2 := After(s1, RemoveWidget(s1, newId));
    forall k | 0 <= k < |s.workspaces| ensures s2.workspaces[k] == s.workspaces[k] {
      if s.workspaces[k].id == s.activeWorkspace.value {
        var ws := s.workspaces[k].widgets;
        if k == i {
          WithoutAppended(ws, MakeWidget(data, newId), newId);
        } else {
          assert Without(ws, newId) == ws;
        }
      }
    }
  }

  /** Filtering out the id of a widget appended to a list without it gives the list back. */
  lemma {:induction false} WithoutAppended(ws: seq<Widget>, w: Widget, id: string)
    requires w.id == id && forall j :: 0 <= j < |ws| ==> ws[j].id != id
    ensures Without(ws + [w], id) == ws
  {
    if ws == [] {
      assert Without([w], id) == Without([w][1..], id);
      assert [w][1..] == [];
    } else {
      assert (ws + [w])[1..] == ws[1..] + [w];
      WithoutAppended(ws[1..], w, id);
      assert ws == [ws[0]] + ws[1..];
    }
  }

  /** Adding a workspace under an unused id and removing it again restores the state. */
  lemma AddThenRemoveWorkspace(s: AppState, name: string, newId: string)
    requires |s.workspaces| >= 1 && !HasWorkspace(s.workspaces, newId) && s.activeWorkspace != Some(newId)
    ensures After(After(s, AddWorkspace(s, name, newId)), RemoveWorkspace(After(s, AddWorkspace(s, name, newId)), newId)) == s
  {
    var s1 := After(s, AddWorkspace(s, name, newId));
    WithoutLast(s.workspaces, s1.workspaces[|s1.workspaces| - 1], newId);
  }

  lemma {:induction false} WithoutLast(wss: seq<Workspace>, w: Workspace, id: string)
    requires w.id == id && !HasWorkspace(wss, id)
    ensures WithoutWorkspace(wss + [w], id) == wss
  {
    if wss == [] {
      assert [w][1..] == [];
    } else {
      assert (wss + [w])[1..] == wss[1..] + [w];
      assert !HasWorkspace(wss[1..], id) by {
        forall i | 0 <= i < |wss[1..]| ensures wss[1..][i].id != id {
          assert wss[1..][i] == wss[i + 1];
        }
      }
      WithoutLast(wss[1..], w, id);
      assert wss == [wss[0]] + wss[1..];
    }
  }

  /** Widget edits, renames and appends never touch which workspaces exist or which one is active. */
  lemma WidgetEditsKeepUsable(s: AppState, id: string, newId: string, data: NewWidget, updated: Widget)
    requires Usable(s)
    ensures Usable(After(s, AddWidget(s, data, newId)))
    ensures Usable(After(s, RemoveWidget(s, id)))
    ensures Usable(After(s, UpdateWidget(s, updated)))
  {
    var a := s.activeWorkspace.value;
    var k :| 0 <= k < |s.workspaces| && s.workspaces[k].id == a;
    var s1 := After(s, AddWidget(s, data, newId));
    var i := IndexOf(s.workspaces, a).value;
    assert s1.workspaces[k].id == a by {
      if k == i {} else {}
    }
    var s2 := After(s, RemoveWidget(s, id));
    assert s2.workspaces[k].id == a;
    var s3 := After(s, UpdateWidget(s, updated));
    assert s3.workspaces[k].id == a;
  }

  /** Switching, adding, renaming and importing workspaces keep a usable state usable. */
  lemma WorkspaceEditsKeepUsable(s: AppState, id: string, name: string, newId: string,
                                 imported: seq<Workspace>, wsIds: nat -> string, widgetIds: nat -> nat -> string)
    requires Usable(s)
    ensures Usable(After(s, SetActiveWorkspace(s, id)))
    ensures Usable(After(s, AddWorkspace(s, name, newId)))
    ensures Usable(After(s, RenameWorkspace(s, id, name)))
    ensures Usable(After(s, ImportWorkspaces(s, imported, wsIds, widgetIds)))
  {
    var k :| 0 <= k < |s.workspaces| && s.workspaces[k].id == s.activeWorkspace.value;
    AddWorkspaceKeepsUsable(s, name, newId, k);
    RenameKeepsUsable(s, id, name, k);
    ImportKeepsUsable(s, imported, wsIds, widgetIds, k);
  }

  lemma AddWorkspaceKeepsUsable(s: AppState, name: string, newId: string, k: nat)
    requires Usable(s) && k < |s.workspaces| && s.workspaces[k].id == s.activeWorkspace.value
    ensures Usable(After(s, AddWorkspace(s, name, newId)))
  {
    assert After(s, AddWorkspace(s, name, newId)).workspaces[k] == s.workspaces[k];
  }

  lemma RenameKeepsUsable(s: AppState, id: string, name: string, k: nat)
    requires Usable(s) && k < |s.workspaces| && s.workspaces[k].id == s.activeWorkspace.value
    ensures Usable(After(s, RenameWorkspace(s, id, name)))
  {
    assert After(s, RenameWorkspace(s, id, name)).workspaces[k].id == s.workspaces[k].id;
  }

  lemma ImportKeepsUsable(s: AppState, imported: seq<Workspace>, wsIds: nat -> string,
                          widgetIds: nat -> nat -> string, k: nat)
    requires Usable(s) && k < |s.workspaces| && s.workspaces[k].id == s.activeWorkspace.value
    ensures Usable(After(s, ImportWorkspaces(s, imported, wsIds, widgetIds)))
  {
    var s4 := After(s, ImportWorkspaces(s, imported, wsIds, widgetIds));
    assert s4.workspaces[k] == s4.workspaces[..|s.workspaces|][k];
  }

  /** Ids handed out for an import are fresh: unused so far and pairwise distinct. */
  predicate FreshFor(s: AppState, count: nat, wsIds: nat -> string) {
    && (forall i :: 0 <= i < count ==> !HasWorkspace(s.workspaces, wsIds(i)))
    && (forall i, j :: 0 <= i < j < count ==> wsIds(i) != wsIds(j))
  }

  /** After an import, the existing workspaces keep their ids and the i-th imported one has `wsIds(i)`. */
  lemma ImportedIds(s: AppState, imported: seq<Workspace>, wsIds: nat -> string, widgetIds: nat -> nat -> string)
    ensures var r := After(s, ImportWorkspaces(s, imported, wsIds, widgetIds)).workspaces;
            && |r| == |s.workspaces| + |imported|
            && forall i :: 0 <= i < |r| ==> r[i].id == if i < |s.workspaces| then s.workspaces[i].id else wsIds(i - |s.workspaces|)
  {
    var r := After(s, ImportWorkspaces(s, imported, wsIds, widgetIds)).workspaces;
    var n := |s.workspaces|;
    forall i | 0 <= i < |r| ensures r[i].id == if i < n then s.workspaces[i].id else wsIds(i - n) {
      if i < n {
        assert r[i] == r[..n][i];
      }
    }
  }

  /** With fresh ids an import keeps every workspace id distinct. */
  lemma ImportKeepsIdsDistinct(s: AppState, imported: seq<Workspace>, wsIds: nat -> string,
                               widgetIds: nat -> nat -> string)
    requires UniqueWorkspaceIds(s.workspaces) && FreshFor(s, |imported|, wsIds)
    ensures UniqueWorkspaceIds(After(s, ImportWorkspaces(s, imported, wsIds, widgetIds)).workspaces)
  {
    var r := After(s, ImportWorkspaces(s, imported, wsIds, widgetIds)).workspaces;
    var n := |s.workspaces|;
    ImportedIds(s, imported, wsIds, widgetIds);
    forall i, j | 0 <= i < j < |r| ensures r[i].id != r[j].id {
      if i < n && n <= j {
        assert !HasWorkspace(s.workspaces, wsIds(j - n));
      }
    }
  }
}
