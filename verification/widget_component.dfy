/**
 One widget tile in the dashboard: the decisions it makes about its iframe.
 When it asks the background script to track the frame, when it asks for CSS
 to be injected, what it emits after a resize or a CSS edit, and how it raises
 itself above the other tiles. Messages to the background script are values
 of `Background.Request`; a handler returns them in the order it sends them.
 */
module WidgetComponent {
  import opened Base
  import opened Models
  import Resizable
  import Background
  import Injection
  import Storage

  // ---------------------------------------------------------------------
  // z-index
  // ---------------------------------------------------------------------

  /** The shared counter starts here. */
  const BaseZIndex: int := 100
  /** Reserved for the dashboard's own controls; tiles stay below it. */
  const UiZIndex: int := 9999

  /** The tile's inline `z-index` style: unset, a number, or something `parseInt` reads as NaN. */
  datatype StyleZ = Unset | ZValue(n: int) | Unparsable

  /** `parseInt(style.zIndex || '0')`, with NaN as `None`. */
  function ParsedZ(z: StyleZ): Option<int> {
    match z
    case Unset => Some(0)
    case ZValue(n) => Some(n)
    case Unparsable => None
  }

  /** The shared counter's range once started. */
  predicate CounterOk(highest: int) {
    BaseZIndex <= highest <= UiZIndex - 1
  }

  /**
   `bringToFront`: the new shared counter and the tile's style. A tile whose
   z-index parses below 9999 gets the counter raised by one, but never past 9998.
   */
  function BringToFront(highest: int, z: StyleZ): (r: (int, StyleZ))
    ensures ParsedZ(z).Some? && ParsedZ(z).value < UiZIndex ==>
              && r.1 == ZValue(r.0)
              && (highest < UiZIndex - 1 ==> r.0 == highest + 1)
              && (highest >= UiZIndex - 1 ==> r.0 == UiZIndex - 1)
    // a tile already at the UI layer, or with an unreadable z-index, is left alone
    ensures !(ParsedZ(z).Some? && ParsedZ(z).value < UiZIndex) ==> r == (highest, z)
    // the counter stays in range and never goes down
    ensures CounterOk(highest) ==> CounterOk(r.0) && highest <= r.0
  {
    match ParsedZ(z)
    case Some(n) =>
      if n < UiZIndex then
        var h := if highest + 1 < UiZIndex - 1 then highest + 1 else UiZIndex - 1;
        (h, ZValue(h))
      else (highest, z)
    case None => (highest, z)
  }

  /** Clicking tiles in turn: the counter after the clicks and the last tile's style. */
  function Clicks(highest: int, styles: seq<StyleZ>): (h: int)
    decreases |styles|
  {
    if styles == [] then highest else Clicks(BringToFront(highest, styles[0]).0, styles[1..])
  }

  /** However many clicks, the shared counter never reaches the UI layer. */
  lemma {:induction false} ClicksStayBelowUi(highest: int, styles: seq<StyleZ>)
    requires CounterOk(highest)
    ensures CounterOk(Clicks(highest, styles)) && highest <= Clicks(highest, styles)
    decreases |styles|
  {
    if styles != [] {
      ClicksStayBelowUi(BringToFront(highest, styles[0]).0, styles[1..]);
    }
  }

  // ---------------------------------------------------------------------
  // The tile's iframe state and the background messages it sends
  // ---------------------------------------------------------------------

  /**
   The component's view of its iframe: the widget input, the URL last handed to
   the iframe (`safeUrl`), the URL that hand-off was for (`previousUrl`), the
   one-retry flag, the registration-once flag, and whether the extension
   runtime is reachable.
   */
  datatype View = View(
    widget: Widget,
    safeUrl: Option<string>,
    previousUrl: Option<string>,
    isRetrying: bool,
    registrationAttempted: bool,
    connected: bool)

  /** A message leaves only when the runtime is reachable and the widget has an id. */
  function Send(v: View, req: Background.Request): (out: Option<Background.Request>)
    ensures out.Some? <==> v.connected && Truthy(v.widget.id)
    ensures out.Some? ==> out.value == req
  {
    if v.connected && Truthy(v.widget.id) then Some(req) else None
  }

  /** `prepareWidgetTracking` and `injectCss` as messages. */
  function TrackRequest(v: View): Background.Request {
    Background.PrepareWidgetTracking(Some(v.widget.id), Some(v.widget.url))
  }

  function InjectRequest(v: View, css: string): Background.Request {
    Background.InjectCss(Some(v.widget.id), Some(css))
  }

  /**
   What one handler sends: at most one CSS request and at most one tracking
   request, the CSS request first (the tracking request comes from the effect,
   which runs after the handler returns).
   */
  datatype Outbox = Outbox(inject: Option<Background.Request>, track: Option<Background.Request>)

  /**
   The constructor's effect, run after `safeUrl` is set: a tile with a real URL
   that has not yet asked to be tracked asks once and raises the flag.
   */
  function TrackIfDue(v: View): (r: (View, Option<Background.Request>))
    ensures r.0 == v.(registrationAttempted := r.0.registrationAttempted)
    ensures r.1.Some? ==> !v.registrationAttempted && r.0.registrationAttempted
    // asks exactly when the flag is down and the handed-off URL is real
    ensures var due := !v.registrationAttempted && v.safeUrl.Some? && Truthy(v.safeUrl.value) && v.safeUrl.value != "about:blank";
            && (due ==> r.0.registrationAttempted && r.1 == Send(v, TrackRequest(v)))
            && (!due ==> r == (v, None))
  {
    if !v.registrationAttempted && v.safeUrl.Some? && Truthy(v.safeUrl.value) && v.safeUrl.value != "about:blank" then
      (v.(registrationAttempted := true), Send(v, TrackRequest(v)))
    else (v, None)
  }

  /**
   `updateSafeUrl`: a non-blank URL is handed to the iframe and remembered, and the
   retry flag drops; a blank one changes nothing. The flag in the result says
   whether the signal was set.
   */
  function UpdateSafeUrl(v: View): (r: (View, bool))
    ensures r.1 <==> !Blank(v.widget.url)
    ensures r.1 ==> r.0 == v.(safeUrl := Some(v.widget.url), previousUrl := Some(v.widget.url), isRetrying := false)
    ensures !r.1 ==> r.0 == v
  {
    if Truthy(v.widget.url) && !Blank(v.widget.url) then
      (v.(safeUrl := Some(v.widget.url), previousUrl := Some(v.widget.url), isRetrying := false), true)
    else (v, false)
  }

  /** The effect runs only when the signal was set. */
  function Settle(r: (View, bool)): (s: (View, Option<Background.Request>))
    ensures !r.1 ==> s == (r.0, None)
    ensures r.1 ==> s == TrackIfDue(r.0)
  {
    if r.1 then TrackIfDue(r.0) else (r.0, None)
  }

  /** The CSS half of `ngOnInit`: the saved CSS, trimmed, when there is any. */
  function SavedCss(v: View): (r: Option<Background.Request>)
    ensures r.Some? <==> !Blank(v.widget.customCss) && v.connected && Truthy(v.widget.id)
    ensures r.Some? ==> r.value == InjectRequest(v, Trim(v.widget.customCss))
  {
    var css := Trim(v.widget.customCss);
    if css != [] then Send(v, InjectRequest(v, css)) else None
  }

  /** The URL half of `ngOnInit`: tracking is asked for once a real URL has been handed over. */
  function FirstTrack(v: View): (r: (View, Option<Background.Request>))
    ensures r.1.Some? <==>
              !Blank(v.widget.url) && !v.registrationAttempted && v.widget.url != "about:blank" && v.connected && Truthy(v.widget.id)
  {
    Settle(UpdateSafeUrl(v))
  }

  /** `ngOnInit`: hand the URL to the iframe and inject the widget's saved CSS, if any. */
  function OnInit(v: View): (r: (View, Outbox))
    ensures r.1.inject.Some? <==> !Blank(v.widget.customCss) && v.connected && Truthy(v.widget.id)
    ensures r.1.inject.Some? ==> r.1.inject.value == InjectRequest(v, Trim(v.widget.customCss))
    ensures r.1.track.Some? <==>
              !Blank(v.widget.url) && !v.registrationAttempted && v.widget.url != "about:blank" && v.connected && Truthy(v.widget.id)
  {
    var t := FirstTrack(v);
    (t.0, Outbox(SavedCss(v), t.1))
  }

  /** `ngOnChanges` asks for CSS when the new trimmed CSS is non-empty and the frame reloaded or the CSS differs. */
  predicate WantsCss(reloaded: bool, newCss: string, oldCss: Option<string>) {
    newCss != [] && (reloaded || oldCss != Some(newCss))
  }

  /** `previousWidget?.customCss?.trim()`. */
  function OldCss(previous: Option<Widget>): Option<string> {
    if previous.Some? then Some(Trim(previous.value.customCss)) else None
  }

  function CssRequest(w: View, reloaded: bool, previous: Option<Widget>): (r: Option<Background.Request>)
    ensures r.Some? <==> WantsCss(reloaded, Trim(w.widget.customCss), OldCss(previous)) && w.connected && Truthy(w.widget.id)
    ensures r.Some? ==> r.value == Background.InjectCss(Some(w.widget.id), Some(Trim(w.widget.customCss)))
  {
    var css := Trim(w.widget.customCss);
    if WantsCss(reloaded, css, OldCss(previous)) then Send(w, InjectRequest(w, css)) else None
  }

  /** The URL half of `ngOnChanges`: reload the frame when the URL differs from the one last handed over. */
  function Reload(v: View, current: Widget): (r: (View, Option<Background.Request>))
    ensures r.0.widget == current && r.0.connected == v.connected
    ensures v.previousUrl == Some(current.url) ==> r == (v.(widget := current), None)
  {
    var w := v.(widget := current);
    if v.previousUrl != Some(current.url) then Settle(UpdateSafeUrl(w.(registrationAttempted := false)))
    else (w, None)
  }

  /**
   `ngOnChanges` for a new widget input. A URL different from the one last handed
   to the iframe lowers the registration flag and reloads the frame; CSS is
   re-sent when it is new or the frame reloaded.
   */
  function OnChanges(v: View, current: Widget, previous: Option<Widget>): (r: (View, Outbox))
    ensures r.0.widget == current && r.0.connected == v.connected
    // without a reload no tracking request leaves, and the view keeps its state
    ensures v.previousUrl == Some(current.url) ==> r.1.track.None? && r.0 == v.(widget := current)
    // CSS is requested exactly as decided
    ensures r.1.inject.Some? <==> WantsCss(v.previousUrl != Some(current.url), Trim(current.customCss), OldCss(previous)) && v.connected && Truthy(current.id)
    ensures r.1.inject.Some? ==> r.1.inject.value == Background.InjectCss(Some(current.id), Some(Trim(current.customCss)))
  {
    var t := Reload(v, current);
    (t.0, Outbox(CssRequest(v.(widget := current), v.previousUrl != Some(current.url), previous), t.1))
  }

  /** After a reload to a real URL the tile asks to be tracked, whatever the flag was. */
  lemma ReloadTracks(v: View, current: Widget, previous: Option<Widget>)
    requires v.previousUrl != Some(current.url) && !Blank(current.url) && current.url != "about:blank"
    ensures var r := OnChanges(v, current, previous);
            && r.0.previousUrl == Some(current.url) && r.0.registrationAttempted
            && (r.1.track.Some? <==> v.connected && Truthy(current.id))
            && (r.1.track.Some? ==> r.1.track.value == Background.PrepareWidgetTracking(Some(current.id), Some(current.url)))
  {
    var w := v.(widget := current, registrationAttempted := false);
    var u := UpdateSafeUrl(w);
    assert u.1;
    assert u.0.safeUrl == Some(current.url);
  }

  /** `onIframeError`: the first failure of a tile with a URL retries once and re-arms tracking. */
  function OnIframeError(v: View): (r: (View, Option<Background.Request>))
    ensures v.isRetrying || !Truthy(v.widget.url) ==> r == (v, None)
    ensures !v.isRetrying && Truthy(v.widget.url) ==>
              && r.0.isRetrying && r.0.safeUrl == Some(v.widget.url)
              && (v.widget.url != "about:blank" ==> r.0.registrationAttempted && r.1 == Send(v, TrackRequest(v)))
  {
    if !v.isRetrying && Truthy(v.widget.url) then
      TrackIfDue(v.(isRetrying := true, registrationAttempted := false, safeUrl := Some(v.widget.url)))
    else (v, None)
  }

  /** `onWidgetResized`: the emitted widget takes the new size and moves by the deltas (a missing delta is 0). */
  function OnWidgetResized(w: Widget, e: Resizable.Resized): (r: Widget)
    ensures r.width == e.width && r.height == e.height
    ensures e.deltaX.None? ==> r.position.x == w.position.x
    ensures e.deltaY.None? ==> r.position.y == w.position.y
    ensures e.deltaX.Some? ==> r.position.x == w.position.x + e.deltaX.value
    ensures e.deltaY.Some? ==> r.position.y == w.position.y + e.deltaY.value
    ensures r.(width := w.width, height := w.height, position := w.position) == w
  {
    var dx := if e.deltaX.Some? then e.deltaX.value else 0;
    var dy := if e.deltaY.Some? then e.deltaY.value else 0;
    w.(width := e.width, height := e.height, position := Position(w.position.x + dx, w.position.y + dy))
  }

  /** `onCustomCssSaved`: emit the widget with the new CSS; inject it, untrimmed, only when it is not blank. */
  function OnCustomCssSaved(v: View, css: string): (r: (Widget, Option<Background.Request>))
    ensures r.0 == v.widget.(customCss := css)
    ensures Blank(css) ==> r.1.None?
    ensures !Blank(css) ==> r.1 == Send(v, InjectRequest(v, css))
  {
    (v.widget.(customCss := css), if !Blank(css) then Send(v, InjectRequest(v, css)) else None)
  }

  /**
   What an edit in the CSS dialog sends is what the background script saves:
   the emitted widget and the stored widget both end up with exactly that CSS.
   */
  lemma SavedCssReachesStorage(v: View, css: string, world: Background.World, senderTab: Option<int>,
                               attempt: Injection.Attempt)
    requires !Blank(css) && v.connected && Truthy(v.widget.id)
    requires world.store.Some? && Storage.FindWidget(world.store.value.workspaces, v.widget.id).Some?
    ensures var r := OnCustomCssSaved(v, css);
            && r.0.customCss == css && r.1.Some?
            && var h := Background.OnMessage(world, r.1.value, senderTab, true, attempt);
               && h.world.store.Some?
               && Storage.FindWidget(h.world.store.value.workspaces, v.widget.id).Some?
               && Storage.FindWidget(h.world.store.value.workspaces, v.widget.id).value.customCss == css
  {
  }

  // ---------------------------------------------------------------------
  // Properties across handlers
  // ---------------------------------------------------------------------

  /** Inputs the tile receives while its URL stays `url`. */
  datatype Input = NewInput(current: Widget, previous: Option<Widget>) | CssSaved(css: string)

  predicate KeepsUrl(i: Input, url: string) {
    i.NewInput? ==> i.current.url == url
  }

  /** One input: the view after it and whether it asked to be tracked. */
  function Deliver(v: View, i: Input): (View, bool) {
    match i
    case NewInput(c, p) => var r := OnChanges(v, c, p); (r.0, r.1.track.Some?)
    case CssSaved(css) => (v.(widget := OnCustomCssSaved(v, css).0), false)
  }

  /** Feed inputs to the tile: the final view and how many tracking requests it sent. */
  function Feed(v: View, inputs: seq<Input>): (View, nat)
    decreases |inputs|
  {
    if inputs == [] then (v, 0)
    else
      var step := Deliver(v, inputs[0]);
      var rest := Feed(step.0, inputs[1..]);
      (rest.0, (if step.1 then 1 else 0) + rest.1)
  }

  /**
   Tracking is asked for at most once per URL: while the URL the iframe shows
   stays the same, no input makes the tile ask again.
   */
  lemma {:induction false} SameUrlNeverRetracks(v: View, url: string, inputs: seq<Input>)
    requires v.previousUrl == Some(url)
    requires forall i :: 0 <= i < |inputs| ==> KeepsUrl(inputs[i], url)
    ensures Feed(v, inputs).1 == 0
    ensures Feed(v, inputs).0.previousUrl == Some(url)
    ensures Feed(v, inputs).0.registrationAttempted == v.registrationAttempted
    decreases |inputs|
  {
    if inputs != [] {
      assert KeepsUrl(inputs[0], url);
      var step := Deliver(v, inputs[0]);
      assert !step.1 && step.0.previousUrl == Some(url) && step.0.registrationAttempted == v.registrationAttempted;
      SameUrlNeverRetracks(step.0, url, inputs[1..]);
    }
  }

  /** Delivering the same widget again right after a change sends nothing, once its URL is real. */
  lemma RedeliveryIsQuiet(v: View, current: Widget, previous: Option<Widget>)
    requires !Blank(current.url)
    ensures OnChanges(OnChanges(v, current, previous).0, current, Some(current)).1 == Outbox(None, None)
  {
    var r := OnChanges(v, current, previous);
    assert r.0.previousUrl == Some(current.url) by {
      if v.previousUrl != Some(current.url) {
        assert UpdateSafeUrl(v.(widget := current, registrationAttempted := false)).1;
      }
    }
  }

  /** A tile whose URL is blank is reloaded by every delivery, so unchanged CSS is sent again each time. */
  lemma BlankUrlResendsCss(v: View, current: Widget)
    requires Blank(current.url) && v.previousUrl != Some(current.url)
    requires !Blank(current.customCss) && v.connected && Truthy(current.id)
    ensures OnChanges(OnChanges(v, current, Some(current)).0, current, Some(current)).1.inject.Some?
  {
    TrimBothBlank(current.customCss);
  }

  /** The `about:blank` placeholder never asks to be tracked. */
  lemma BlankPageNeverTracks(v: View)
    requires v.safeUrl == Some("about:blank")
    ensures TrackIfDue(v).1.None?
  {
  }

  /**
   A drag ending where the preview showed it: the tile keeps its minimum size,
   a west or north drag keeps the right or bottom edge, and other drags keep the
   left or top edge.
   */
  lemma ResizeKeepsOppositeEdge(w: Widget, drag: Resizable.Drag, clientX: int, clientY: int)
    requires drag.resizing && drag.direction.Some? && drag.hasOutline
    requires drag.start == Resizable.Rect(w.position.x, w.position.y, w.width, w.height)
    ensures var e := Resizable.StopResize(drag, Resizable.OnResize(drag, clientX, clientY)).value;
            var r := OnWidgetResized(w, e);
            var d := drag.direction.value;
            && r.width >= Resizable.MinWidth && r.height >= Resizable.MinHeight
            && (Resizable.West(d) ==> r.position.x + r.width == w.position.x + w.width)
            && (!Resizable.West(d) ==> r.position.x == w.position.x)
            && (Resizable.North(d) ==> r.position.y + r.height == w.position.y + w.height)
            && (!Resizable.North(d) ==> r.position.y == w.position.y)
  {
  }
}
