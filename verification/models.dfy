/**
 The records the dashboard and the background script share: widgets grouped
 into workspaces, the persisted application state, and the user settings.
 Pixel values are integers.
 */
module Models {
  import opened Base

  datatype Position = Position(x: int, y: int)

  /** One iframe tile: where it points, where it sits, and its custom CSS. */
  datatype Widget = Widget(
    id: string,
    title: string,
    url: string,
    position: Position,
    width: int,
    height: int,
    customCss: string)

  /** A named collection of widgets. */
  datatype Workspace = Workspace(id: string, name: string, widgets: seq<Widget>)

  /** The persisted `workspaces` document: every workspace and the id of the active one. */
  datatype AppState = AppState(workspaces: seq<Workspace>, activeWorkspace: Option<string>)

  datatype Theme = Light | Dark

  datatype BackgroundType = Gradient | Solid | Image

  datatype BackgroundSetting = BackgroundSetting(kind: BackgroundType, value: string)

  /** The user settings, one field per key of the stored settings object. */
  datatype Settings = Settings(
    theme: Theme,
    background: BackgroundSetting,
    showSearchBar: bool,
    titleOnHover: bool,
    showHistory: bool,
    showBookmarks: bool,
    accentColor: string,
    showDragHandlesOnHover: bool)

  /** Some workspace carries the id `id`. */
  predicate HasWorkspace(workspaces: seq<Workspace>, id: string) {
    exists i :: 0 <= i < |workspaces| && workspaces[i].id == id
  }

  /** No two workspaces share an id. */
  predicate UniqueWorkspaceIds(workspaces: seq<Workspace>) {
    forall i, j :: 0 <= i < j < |workspaces| ==> workspaces[i].id != workspaces[j].id
  }
}
