/**
 The workspace selector's own decisions: the inline rename editor, the "new
 workspace" input, and the check an imported file must pass before its
 workspaces are handed to the workspace service. Each handler returns the
 selector's state and the service call it makes, if any.
 */
module WorkspaceSelector {
  import opened Base
  import opened Models
  import WorkspaceService

  /** The selector's signals: the workspace being renamed and its draft name, and the new-workspace input. */
  datatype Selector = Selector(editingId: Option<string>, editingName: string, newName: string)

  /** The call made on the workspace service. */
  datatype Call = NoCall | RenameCall(id: string, name: string) | AddCall(name: string) | RemoveCall(id: string)

  /** `cancelEditing`: leave the rename editor and drop the draft. */
  function CancelEditing(s: Selector): (r: Selector)
    ensures r.editingId.None? && r.editingName == [] && r.newName == s.newName
  {
    s.(editingId := None, editingName := "")
  }

  /**
   `saveEditing`: rename when a workspace is being edited and its trimmed draft is
   not empty; the editor is left in every case.
   */
  function SaveEditing(s: Selector): (r: (Selector, Call))
    ensures r.0 == CancelEditing(s)
    ensures r.1 != NoCall <==> Present(s.editingId) && !Blank(s.editingName)
    ensures r.1 != NoCall ==> r.1 == RenameCall(s.editingId.value, Trim(s.editingName))
  {
    var name := Trim(s.editingName);
    if Present(s.editingId) && name != [] then (CancelEditing(s), RenameCall(s.editingId.value, name))
    else (CancelEditing(s), NoCall)
  }

  /** `handleEditKeyDown`: Enter saves, Escape cancels, any other key does nothing. */
  function HandleEditKeyDown(s: Selector, key: string): (r: (Selector, Call))
    ensures key == "Enter" ==> r == SaveEditing(s)
    ensures key == "Escape" ==> r == (CancelEditing(s), NoCall)
    ensures key != "Enter" && key != "Escape" ==> r == (s, NoCall)
  {
    if key == "Enter" then SaveEditing(s)
    else if key == "Escape" then (CancelEditing(s), NoCall)
    else (s, NoCall)
  }

  /** `removeWorkspace`: always asks the service; removing the workspace being renamed closes the editor. */
  function RemoveWorkspace(s: Selector, id: string): (r: (Selector, Call))
    ensures r.1 == RemoveCall(id)
    ensures s.editingId == Some(id) ==> r.0 == CancelEditing(s)
    ensures s.editingId != Some(id) ==> r.0 == s
  {
    (if s.editingId == Some(id) then CancelEditing(s) else s, RemoveCall(id))
  }

  /** `addWorkspace`: a name that is blank once trimmed is ignored; otherwise it is added trimmed and the input cleared. */
  function AddWorkspace(s: Selector): (r: (Selector, Call))
    ensures Blank(s.newName) ==> r == (s, NoCall)
    ensures !Blank(s.newName) ==> r == (s.(newName := ""), AddCall(Trim(s.newName)))
  {
    var name := Trim(s.newName);
    if name != [] then (s.(newName := ""), AddCall(name)) else (s, NoCall)
  }

  /** `handleAddKeyDown`: only Enter adds. */
  function HandleAddKeyDown(s: Selector, key: string): (r: (Selector, Call))
    ensures key == "Enter" ==> r == AddWorkspace(s)
    ensures key != "Enter" ==> r == (s, NoCall)
  {
    if key == "Enter" then AddWorkspace(s) else (s, NoCall)
  }

  /** However the editor is left, it is left: saving twice makes at most one call. */
  lemma SaveEditingOnce(s: Selector)
    ensures SaveEditing(SaveEditing(s).0).1 == NoCall
  {
  }

  /** A rename made from the editor gives the workspace exactly the trimmed draft. */
  lemma EditorRenameLands(app: AppState, s: Selector, i: nat)
    requires SaveEditing(s).1.RenameCall?
    requires i < |app.workspaces| && app.workspaces[i].id == s.editingId.value
    ensures var c := SaveEditing(s).1;
            var next := WorkspaceService.After(app, WorkspaceService.RenameWorkspace(app, c.id, c.name));
            i < |next.workspaces| && next.workspaces[i].name == Trim(s.editingName)
  {
    TrimIdempotent(s.editingName);
    RenameLandsAt(app, s.editingId.value, Trim(s.editingName), i);
  }

  /** Renaming the `i`-th workspace's id to an already trimmed, non-empty name leaves it with that name. */
  lemma RenameLandsAt(app: AppState, id: string, name: string, i: nat)
    requires i < |app.workspaces| && app.workspaces[i].id == id
    requires name != [] && Trim(name) == name
    ensures var next := WorkspaceService.After(app, WorkspaceService.RenameWorkspace(app, id, name));
            i < |next.workspaces| && next.workspaces[i].name == name
  {
    var u := WorkspaceService.RenameWorkspace(app, id, name);
    if u.Changed? {
      assert u.next.workspaces[i] == app.workspaces[i].(name := name);
    }
  }

  /** A workspace added from the input is named by the trimmed input, never by the numbered fallback. */
  lemma AddedWorkspaceNamed(app: AppState, s: Selector, newId: string)
    requires AddWorkspace(s).1.AddCall?
    ensures var next := WorkspaceService.After(app, WorkspaceService.AddWorkspace(app, AddWorkspace(s).1.name, newId));
            next.workspaces == app.workspaces + [Workspace(newId, Trim(s.newName), [])]
  {
  }

  // ---------------------------------------------------------------------
  // Import
  // ---------------------------------------------------------------------

  /** A parsed JSON value. */
  datatype Json = JNull | JBool(b: bool) | JNum(n: int) | JStr(s: string) | JArr(items: seq<Json>) | JObj(fields: map<string, Json>)

  /** JavaScript truthiness of a JSON value. */
  predicate JsonTruthy(j: Json) {
    match j
    case JNull => false
    case JBool(b) => b
    case JNum(n) => n != 0
    case JStr(s) => s != []
    case _ => true
  }

  /** `ws.id && ws.name && Array.isArray(ws.widgets)`: only an object can pass (reading a field of `null` throws). */
  predicate Importable(j: Json) {
    && j.JObj?
    && "id" in j.fields && JsonTruthy(j.fields["id"])
    && "name" in j.fields && JsonTruthy(j.fields["name"])
    && "widgets" in j.fields && j.fields["widgets"].JArr?
  }

  /** An array is a list of workspaces; anything else is one workspace. */
  function AsList(parsed: Json): (r: seq<Json>)
    ensures parsed.JArr? ==> r == parsed.items
    ensures !parsed.JArr? ==> r == [parsed]
  {
    if parsed.JArr? then parsed.items else [parsed]
  }

  /**
   `handleFileSelect` after the file is read: the list handed to
   `importWorkspaces`, or `None` when the text is not JSON or some item fails
   the check. Nothing is imported unless every item passes.
   */
  function ImportFile(parsed: Option<Json>): (r: Option<seq<Json>>)
    ensures r.Some? <==> parsed.Some? && forall i :: 0 <= i < |AsList(parsed.value)| ==> Importable(AsList(parsed.value)[i])
    ensures r.Some? ==> r.value == AsList(parsed.value)
  {
    match parsed
    case None => None
    case Some(p) =>
      var list := AsList(p);
      if forall i :: 0 <= i < |list| ==> Importable(list[i]) then Some(list) else None
  }

  /** One bad item rejects the whole file, however many good ones surround it. */
  lemma OneBadItemRejectsAll(good1: seq<Json>, bad: Json, good2: seq<Json>)
    requires !Importable(bad)
    ensures ImportFile(Some(JArr(good1 + [bad] + good2))).None?
  {
    assert (good1 + [bad] + good2)[|good1|] == bad;
  }

  /** A single exported workspace and a one-element list of it import the same. */
  lemma SingleOrList(ws: Json)
    requires !ws.JArr?
    ensures ImportFile(Some(ws)) == ImportFile(Some(JArr([ws])))
  {
  }
}
