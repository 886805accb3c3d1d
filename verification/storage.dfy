/**
 The background script's read-modify-write of the persisted `workspaces`
 document: it looks a widget up by id, and it rewrites one field (`customCss`
 or `url`) of every widget carrying that id, leaving the structure intact.
 */
module Storage {
  import opened Base
  import opened Models

  /** The single-field rewrites the background script performs. */
  datatype Patch = SetCss(css: string) | SetUrl(url: string)

  function Apply(w: Widget, p: Patch): Widget {
    match p
    case SetCss(css) => w.(customCss := css)
    case SetUrl(url) => w.(url := url)
  }

  /** `widgets.map(w => w.id === id ? {...w, field} : w)`. */
  function PatchWidgets(ws: seq<Widget>, id: string, p: Patch): (r: seq<Widget>)
    ensures |r| == |ws|
    ensures forall i :: 0 <= i < |ws| ==> r[i] == (if ws[i].id == id then Apply(ws[i], p) else ws[i])
  {
    if ws == [] then [] else [if ws[0].id == id then Apply(ws[0], p) else ws[0]] + PatchWidgets(ws[1..], id, p)
  }

  /** The same rewrite over every workspace of the document. */
  function PatchWorkspaces(wss: seq<Workspace>, id: string, p: Patch): (r: seq<Workspace>)
    ensures |r| == |wss|
    ensures forall i :: 0 <= i < |wss| ==>
              r[i] == wss[i].(widgets := PatchWidgets(wss[i].widgets, id, p))
  {
    if wss == [] then []
    else [wss[0].(widgets := PatchWidgets(wss[0].widgets, id, p))] + PatchWorkspaces(wss[1..], id, p)
  }

  function PatchDoc(doc: AppState, id: string, p: Patch): (r: AppState)
    ensures r.activeWorkspace == doc.activeWorkspace
    ensures |r.workspaces| == |doc.workspaces|
    ensures forall i :: 0 <= i < |doc.workspaces| ==>
              && r.workspaces[i].id == doc.workspaces[i].id
              && r.workspaces[i].name == doc.workspaces[i].name
              && |r.workspaces[i].widgets| == |doc.workspaces[i].widgets|
  {
    doc.(workspaces := PatchWorkspaces(doc.workspaces, id, p))
  }

  /** `widgets.find(w => w.id === id)`. */
  function FindIn(ws: seq<Widget>, id: string): (r: Option<Widget>)
    ensures r.Some? ==> r.value in ws && r.value.id == id
    ensures r.None? <==> forall i :: 0 <= i < |ws| ==> ws[i].id != id
    // the first widget with the id
    ensures r.Some? ==> exists i :: 0 <= i < |ws| && ws[i] == r.value && forall j :: 0 <= j < i ==> ws[j].id != id
  {
    if ws == [] then None else if ws[0].id == id then Some(ws[0]) else FindIn(ws[1..], id)
  }

  /** The first workspace holding a widget with this id, then that widget in it. */
  function FindWidget(wss: seq<Workspace>, id: string): (r: Option<Widget>)
    ensures r.Some? ==> r.value.id == id
    ensures r.None? <==> forall i, j :: 0 <= i < |wss| && 0 <= j < |wss[i].widgets| ==> wss[i].widgets[j].id != id
    // found in the first workspace that holds the id
    ensures r.Some? ==> exists i :: 0 <= i < |wss| && FindIn(wss[i].widgets, id) == r &&
                                    forall j :: 0 <= j < i ==> FindIn(wss[j].widgets, id).None?
  {
    if wss == [] then None
    else match FindIn(wss[0].widgets, id)
      case Some(w) => Some(w)
      case None =>
        var r := FindWidget(wss[1..], id);
        assert r.None? ==> forall i, j :: 0 <= i < |wss| && 0 <= j < |wss[i].widgets| ==> wss[i].widgets[j].id != id by {
          if r.None? {
            forall i, j | 0 <= i < |wss| && 0 <= j < |wss[i].widgets| ensures wss[i].widgets[j].id != id {
              if i > 0 { assert wss[i] == wss[1..][i - 1]; }
            }
          }
        }
        r
  }

  /** After a rewrite, looking the widget up finds the rewritten widget. */
  lemma {:induction false} FindInAfterPatch(ws: seq<Widget>, id: string, p: Patch)
    ensures FindIn(PatchWidgets(ws, id, p), id) ==
              (match FindIn(ws, id) case Some(w) => Some(Apply(w, p)) case None => None)
  {
    if ws != [] {
      var r := PatchWidgets(ws, id, p);
      assert r[1..] == PatchWidgets(ws[1..], id, p);
      FindInAfterPatch(ws[1..], id, p);
    }
  }

  /** The round trip the background relies on: the field written is the field read back. */
  lemma {:induction false} FindAfterPatch(wss: seq<Workspace>, id: string, p: Patch)
    ensures FindWidget(PatchWorkspaces(wss, id, p), id) ==
              (match FindWidget(wss, id) case Some(w) => Some(Apply(w, p)) case None => None)
  {
    if wss != [] {
      var r := PatchWorkspaces(wss, id, p);
      assert r[1..] == PatchWorkspaces(wss[1..], id, p);
      FindInAfterPatch(wss[0].widgets, id, p);
      FindAfterPatch(wss[1..], id, p);
    }
  }

  /** Rewriting one widget never changes what a lookup of another id finds. */
  lemma {:induction false} FindOtherAfterPatch(wss: seq<Workspace>, id: string, other: string, p: Patch)
    requires other != id
    ensures FindWidget(PatchWorkspaces(wss, id, p), other) == FindWidget(wss, other)
  {
    if wss != [] {
      var r := PatchWorkspaces(wss, id, p);
      assert r[1..] == PatchWorkspaces(wss[1..], id, p);
      FindInOtherAfterPatch(wss[0].widgets, id, other, p);
      FindOtherAfterPatch(wss[1..], id, other, p);
    }
  }

  lemma {:induction false} FindInOtherAfterPatch(ws: seq<Widget>, id: string, other: string, p: Patch)
    requires other != id
    ensures FindIn(PatchWidgets(ws, id, p), other) == FindIn(ws, other)
  {
    if ws != [] {
      var r := PatchWidgets(ws, id, p);
      assert r[1..] == PatchWidgets(ws[1..], id, p);
      FindInOtherAfterPatch(ws[1..], id, other, p);
    }
  }
}
